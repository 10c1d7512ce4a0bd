/**
 * The pairing step of one round of the pair loop (minish_hat.py:486-538, minish-hat.py:397-434,
 * minish-ruleset.py:283-323): the unmarked keys are bucketed by adjacency value, pairs of
 * keys from neighbouring buckets that `check_adjacent` accepts are merged, the merge marks
 * the keys it absorbs, and a merged key that is not yet in the table is inserted.
 */
module Pairing {
  import opened Wrappers
  import opened Octal
  import opened Weights
  import opened Expand
  import opened Adjacency
  import opened Keys
  import opened Implicants
  import opened Pipeline
  import opened Ordering

  // ---------------------------------------------------------------- one merge

  /** A pair accepted by `check_adjacent`: its operands, `oct_val` and the changed lane. */
  datatype Merge = Merge(p0: nat, p1: nat, result: nat, lane: nat)

  /** The merge of `p0` and `p1`: `oct_val` is `p0 | p1`, `change_pos` is `-(lane + 1)`. */
  function MergeOf(p0: nat, p1: nat): Merge
  {
    var w := Width(Xor(p0, p1));
    Merge(p0, p1, Or(p0, p1), if w > 0 then w - 1 else 0)
  }

  /**
   * The keys among `keys` a merge marks: when the merged lane holds `x` (octal 7), every
   * key other than the result that agrees with it outside that lane; otherwise each
   * operand whose digit at that lane is octal 2 (the symbol `1`).
   */
  ghost function MarkedBy(keys: set<nat>, m: Merge): set<nat>
  {
    if Lane(m.result, m.lane) == 7 then
      set k | k in keys && k != m.result && AgreeOutside(k, m.result, m.lane, Width(m.result))
    else
      (if Lane(m.p0, m.lane) == 2 then {m.p0} else {}) + (if Lane(m.p1, m.lane) == 2 then {m.p1} else {})
  }

  /** The entries with the keys of `ks` marked. */
  function MarkAll(entries: map<nat, Implicant>, ks: set<nat>): (r: map<nat, Implicant>)
    ensures r.Keys == entries.Keys
  {
    map k | k in entries :: if k in ks then entries[k].(marked := true) else entries[k]
  }

  /** The entry of a merged key: unmarked, with the operands' covers and total covers united. */
  function MergedEntry(e0: Implicant, e1: Implicant): Implicant
  {
    Implicant(false, e0.covers + e1.covers, e0.totalcovers + e1.totalcovers)
  }

  /** What one accepted pair does to the entries: marks, then inserts the result if absent. */
  ghost function MergeInto(entries: map<nat, Implicant>, m: Merge): map<nat, Implicant>
    requires m.p0 in entries && m.p1 in entries
  {
    var marked := MarkAll(entries, MarkedBy(entries.Keys, m));
    if m.result in marked then marked
    else marked[m.result := MergedEntry(entries[m.p0], entries[m.p1])]
  }

  /**
   * A merge keeps every key with its covers and total covers, marks exactly the keys it
   * absorbs on top of those already marked, and adds the result only when it is new.
   */
  lemma MergeIntoKeeps(entries: map<nat, Implicant>, m: Merge)
    requires m.p0 in entries && m.p1 in entries
    ensures var r := MergeInto(entries, m);
      r.Keys == entries.Keys + {m.result} &&
      (forall k :: k in entries ==> r[k].covers == entries[k].covers && r[k].totalcovers == entries[k].totalcovers) &&
      (forall k :: k in entries ==> (r[k].marked <==> entries[k].marked || k in MarkedBy(entries.Keys, m))) &&
      (m.result !in entries ==> r[m.result] == MergedEntry(entries[m.p0], entries[m.p1]))
  {
  }

  /** The merge of two label keys of width `n` that `check_adjacent` accepts, spelled out. */
  lemma MergeOfValid(guarded: bool, p0: nat, p1: nat, n: nat)
    requires LabelKey(p0, n) && LabelKey(p1, n) && AdjacencyOf(guarded, p0, p1).isValid
    ensures var m := MergeOf(p0, p1);
      m.lane < n && Width(m.result) == n && LabelKey(m.result, n) &&
      AgreeOutside(m.result, p0, m.lane, n) && AgreeOutside(m.result, p1, m.lane, n) &&
      Lane(m.result, m.lane) == DigitOp(OrOp, Lane(p0, m.lane), Lane(p1, m.lane)) &&
      Lane(p0, m.lane) != Lane(p1, m.lane) &&
      AdjacencyOf(guarded, p0, p1).changePos == -(m.lane + 1) && AdjacencyOf(guarded, p0, p1).octVal == Some(m.result)
  {
    MergeIsLabelKey(guarded, p0, p1, n);
    var lane := Width(Xor(p0, p1)) - 1;
    LaneOfBitwise(OrOp, p0, p1, lane);
    assert OnlyLaneDiffers(p0, p1, lane);
  }

  /** Two label keys that agree outside `lane` with a third and hold its digit there are that key. */
  lemma SameLanes(k: nat, r: nat, lane: nat, n: nat)
    requires LabelKey(k, n) && LabelKey(r, n) && AgreeOutside(k, r, lane, n) && Lane(k, lane) == Lane(r, lane)
    ensures k == r
  {
    forall i: nat ensures Lane(k, i) == Lane(r, i) {
      if i >= n {
        LaneAboveSpan(k, i);
        LaneAboveSpan(r, i);
      }
    }
    LaneExtensionality(k, r);
  }

  /**
   * With the `octx != res and octy != res` guard of minish_hat.py, every accepted merge of
   * label keys marks one of its operands, so that operand leaves the unmarked keys.
   */
  lemma GuardedMergeMarksOperand(keys: set<nat>, p0: nat, p1: nat, n: nat)
    requires LabelKey(p0, n) && LabelKey(p1, n) && AdjacencyOf(true, p0, p1).isValid
    requires p0 in keys && p1 in keys
    ensures var ks := MarkedBy(keys, MergeOf(p0, p1)); p0 in ks || p1 in ks
  {
    var m := MergeOf(p0, p1);
    MergeOfValid(true, p0, p1, n);
    var d0, d1 := Lane(p0, m.lane), Lane(p1, m.lane);
    assert IsCode(d0) && IsCode(d1);
    if Lane(m.result, m.lane) != 7 {
      if d0 == Lane(m.result, m.lane) {
        SameLanes(p0, m.result, m.lane, n);
      }
      if d1 == Lane(m.result, m.lane) {
        SameLanes(p1, m.result, m.lane, n);
      }
      assert d0 == 2 || d1 == 2;
    } else {
      assert forall i: nat :: i < n && i != m.lane ==> Lane(p0, i) == Lane(m.result, i);
      assert p0 != m.result;
    }
  }

  /**
   * Without the guard (minish-hat.py, minish-ruleset.py), a merge at a lane holding `0`
   * and `1`, `1` and `2`, or `z` and `o` marks one of its operands too. These are the only
   * lane pairs one step apart on the `get_adjval` weights of those scripts.
   */
  lemma UnguardedMergeMarksOperand(keys: set<nat>, p0: nat, p1: nat, n: nat)
    requires LabelKey(p0, n) && LabelKey(p1, n) && AdjacencyOf(false, p0, p1).isValid
    requires p0 in keys && p1 in keys
    requires var lane := MergeOf(p0, p1).lane; var d0, d1 := Lane(p0, lane), Lane(p1, lane);
      {d0, d1} == {1, 2} || {d0, d1} == {2, 4} || {d0, d1} == {3, 6}
    ensures var ks := MarkedBy(keys, MergeOf(p0, p1)); p0 in ks || p1 in ks
  {
    var m := MergeOf(p0, p1);
    MergeOfValid(false, p0, p1, n);
    var d0, d1 := Lane(p0, m.lane), Lane(p1, m.lane);
    if Lane(m.result, m.lane) == 7 {
      assert forall i: nat :: i < n && i != m.lane ==> Lane(p0, i) == Lane(m.result, i);
      assert p0 != m.result;
    } else {
      assert d0 == 2 || d1 == 2;
    }
  }

  /** Over well-formed entries, a merge keeps them well formed and covering the same minterms. */
  lemma MergeIntoWellFormed(entries: map<nat, Implicant>, p0: nat, p1: nat, n: nat)
    requires AllWellFormed(entries, n) && p0 in entries && p1 in entries
    requires AdjacencyOf(false, p0, p1).isValid
    ensures AllWellFormed(MergeInto(entries, MergeOf(p0, p1)), n)
    ensures AllCovers(MergeInto(entries, MergeOf(p0, p1))) == AllCovers(entries)
  {
    var m := MergeOf(p0, p1);
    var r := MergeInto(entries, m);
    MergeIntoKeeps(entries, m);
    var e0, e1 := entries[p0], entries[p1];
    assert WellFormed(p0, e0, n) && WellFormed(p1, e1, n);
    MergeOfValid(false, p0, p1, n);
    forall k | k in r ensures WellFormed(k, r[k], n) {
      if k in entries {
        assert WellFormed(k, entries[k], n);
        assert r[k].covers == entries[k].covers && r[k].totalcovers == entries[k].totalcovers;
      } else {
        assert k == m.result && r[k] == MergedEntry(e0, e1);
        MergeCovers(false, p0, p1, e0.covers, e1.covers, n);
        TotalCoversUnion(e0.covers, e0.totalcovers, e1.covers, e1.totalcovers);
      }
    }
    forall c | c in AllCovers(r) ensures c in AllCovers(entries) {
      var k :| k in r && c in r[k].covers;
      if k in entries {
        assert c in entries[k].covers;
      } else {
        assert c in e0.covers || c in e1.covers;
      }
    }
    forall c | c in AllCovers(entries) ensures c in AllCovers(r) {
      var k :| k in entries && c in entries[k].covers;
      assert c in r[k].covers;
    }
  }

  // ---------------------------------------------------------------- merging one pair

  /** The test of the `x` branch: `octmask & k == octmask & result` for a key other than `result`. */
  predicate Similar(octmask: nat, result: nat, k: nat)
  {
    And(octmask, k) == And(octmask, result) && k != result
  }

  /** `for k in minterm_dict.keys(): if ...: minterm_dict[k]['marked'] = True`. */
  method MarkSimilar(table: MintermTable, octmask: nat, result: nat)
    requires table.Ordered()
    modifies table
    ensures table.Ordered() && table.order == old(table.order)
    ensures table.entries == MarkAll(old(table.entries), set k | k in old(table.entries) && Similar(octmask, result, k))
  {
    ghost var e0 := table.entries;
    var keys := table.order;
    for i := 0 to |keys|
      invariant table.Ordered() && table.order == keys && table.entries.Keys == e0.Keys
      invariant forall k :: k in e0 ==> table.entries[k] == if k in keys[..i] && Similar(octmask, result, k) then e0[k].(marked := true) else e0[k]
    {
      var k := keys[i];
      ghost var before, after := keys[..i], keys[..i + 1];
      assert after == before + [k];
      assert k !in before;
      if Similar(octmask, result, k) {
        var _ := table.Mark(k);
      }
    }
    assert keys[..|keys|] == keys;
  }

  /** A character of `oct(k)` read at the changed lane is the digit of that lane. */
  lemma DigitCharAt(k: nat, lane: nat, d: nat)
    requires lane < Width(k) && d < 8
    ensures OctCharAt(k, -(lane + 1)) == Ok(DigitChar(d)) <==> Lane(k, lane) == d
  {
    OctCharLane(k, lane + 1);
  }

  /** The `x` branch: every key similar to `result` outside the changed lane is marked. */
  method MarkSimilarToResult(table: MintermTable, result: nat, chPos: int, ghost m: Merge)
    requires table.Ordered() && m.result == result && chPos == -(m.lane + 1) && m.lane < Width(result)
    requires Lane(result, m.lane) == 7
    modifies table
    ensures table.Ordered() && table.order == old(table.order)
    ensures table.entries == MarkAll(old(table.entries), MarkedBy(old(table.entries).Keys, m))
  {
    ghost var e0 := table.entries;
    var octmask := OctMask(result, -chPos);
    MarkSimilar(table, octmask, result);
    forall k ensures k in e0 && Similar(octmask, result, k) <==> k in MarkedBy(e0.Keys, m) {
      OctMaskSimilar(k, result, m.lane + 1);
    }
    assert (set k | k in e0 && Similar(octmask, result, k)) == MarkedBy(e0.Keys, m);
  }

  /** The other branch: an operand holding the symbol `1` at the changed lane is marked. */
  method MarkOperands(table: MintermTable, p0: nat, p1: nat, chPos: int, ghost m: Merge, ghost n: nat)
    requires table.Ordered() && p0 in table.entries && p1 in table.entries
    requires m.p0 == p0 && m.p1 == p1 && chPos == -(m.lane + 1) && m.lane < n && Width(m.result) == n
    requires LabelKey(p0, n) && LabelKey(p1, n) && Lane(m.result, m.lane) != 7
    modifies table
    ensures table.Ordered() && table.order == old(table.order)
    ensures table.entries == MarkAll(old(table.entries), MarkedBy(old(table.entries).Keys, m))
  {
    ghost var e0 := table.entries;
    DigitCharAt(p0, m.lane, 2);
    DigitCharAt(p1, m.lane, 2);
    if OctCharAt(p0, chPos) == Ok('2') {
      var _ := table.Mark(p0);
    }
    if OctCharAt(p1, chPos) == Ok('2') {
      var _ := table.Mark(p1);
    }
    assert table.entries == MarkAll(e0, MarkedBy(e0.Keys, m));
  }

  /** The `if adj['is_valid']:` body: mark what the merge absorbs, then insert the result if absent. */
  method MergePair(table: MintermTable, guarded: bool, p0: nat, p1: nat, adj: Adjacency, ghost n: nat)
    requires table.Ordered() && p0 in table.entries && p1 in table.entries
    requires LabelKey(p0, n) && LabelKey(p1, n)
    requires adj == AdjacencyOf(guarded, p0, p1) && adj.isValid
    modifies table
    ensures table.Ordered()
    ensures table.entries == MergeInto(old(table.entries), MergeOf(p0, p1))
  {
    ghost var m := MergeOf(p0, p1);
    MergeOfValid(guarded, p0, p1, n);
    var result := adj.octVal.value;
    var chPos := adj.changePos;
    DigitCharAt(result, m.lane, 7);
    if OctCharAt(result, chPos) == Ok('7') {
      MarkSimilarToResult(table, result, chPos, m);
    } else {
      MarkOperands(table, p0, p1, chPos, m, n);
    }
    if result !in table.entries {
      table.Put(result, MergedEntry(table.entries[p0], table.entries[p1]));
    }
  }

  // ---------------------------------------------------------------- the pairs loop

  /** The pairs loop so far: the entries and `adj_count`. */
  datatype Paired = Paired(entries: map<nat, Implicant>, count: nat)

  /** One candidate pair: merged and counted when `valid` (the variant's `check_adjacent`) accepts it. */
  ghost function PairOnce(s: Paired, p0: nat, p1: nat, valid: (nat, nat) -> bool): Paired
  {
    if p0 in s.entries && p1 in s.entries && valid(p0, p1) then Paired(MergeInto(s.entries, MergeOf(p0, p1)), s.count + 1)
    else s
  }

  /** The pairs loop over the candidate pairs `ps`, in order. */
  ghost function MergePairs(entries: map<nat, Implicant>, ps: seq<(nat, nat)>, valid: (nat, nat) -> bool): Paired
  {
    if |ps| == 0 then Paired(entries, 0)
    else PairOnce(MergePairs(entries, ps[..|ps| - 1], valid), ps[|ps| - 1].0, ps[|ps| - 1].1, valid)
  }

  /** The variant's `check_adjacent`: guarded in minish_hat.py only. */
  function AdjacentCheck(v: Variant): (nat, nat) -> bool
  {
    (a: nat, b: nat) => AdjacencyOf(v == Hat, a, b).isValid
  }

  /** `k` is a key of `entries` and marked. */
  ghost predicate MarkedIn(entries: map<nat, Implicant>, k: nat)
  {
    k in entries && entries[k].marked
  }

  /** The loop keeps every key with its covers and total covers, and unmarks nothing. */
  lemma {:induction false} MergePairsKeeps(entries: map<nat, Implicant>, ps: seq<(nat, nat)>, valid: (nat, nat) -> bool)
    ensures var r := MergePairs(entries, ps, valid).entries;
      entries.Keys <= r.Keys &&
      (forall k :: k in entries ==> r[k].covers == entries[k].covers && r[k].totalcovers == entries[k].totalcovers) &&
      (forall k :: MarkedIn(entries, k) ==> MarkedIn(r, k))
    decreases |ps|
  {
    if |ps| > 0 {
      var init := ps[..|ps| - 1];
      MergePairsKeeps(entries, init, valid);
      var s := MergePairs(entries, init, valid);
      var (p0, p1) := ps[|ps| - 1];
      if p0 in s.entries && p1 in s.entries && valid(p0, p1) {
        MergeIntoKeeps(s.entries, MergeOf(p0, p1));
      }
    }
  }

  /** A loop that counts no merge leaves the entries as they were. */
  lemma {:induction false} MergePairsIdle(entries: map<nat, Implicant>, ps: seq<(nat, nat)>, valid: (nat, nat) -> bool)
    requires MergePairs(entries, ps, valid).count == 0
    ensures MergePairs(entries, ps, valid).entries == entries
    decreases |ps|
  {
    if |ps| > 0 {
      MergePairsIdle(entries, ps[..|ps| - 1], valid);
    }
  }

  /** Every pair `valid` accepts is one `check_adjacent` of minish-hat.py accepts. */
  ghost predicate Adjacent(valid: (nat, nat) -> bool)
  {
    forall a, b :: valid(a, b) ==> AdjacencyOf(false, a, b).isValid
  }

  lemma AdjacentCheckAdjacent(v: Variant)
    ensures Adjacent(AdjacentCheck(v))
  {
    forall a, b | AdjacentCheck(v)(a, b) ensures AdjacencyOf(false, a, b).isValid {
    }
  }

  /** Over well-formed entries, the loop keeps them well formed and covering the same minterms. */
  lemma {:induction false} MergePairsWellFormed(entries: map<nat, Implicant>, ps: seq<(nat, nat)>, valid: (nat, nat) -> bool, n: nat)
    requires AllWellFormed(entries, n) && Adjacent(valid)
    ensures AllWellFormed(MergePairs(entries, ps, valid).entries, n)
    ensures AllCovers(MergePairs(entries, ps, valid).entries) == AllCovers(entries)
    decreases |ps|
  {
    if |ps| > 0 {
      var init := ps[..|ps| - 1];
      MergePairsWellFormed(entries, init, valid, n);
      var s := MergePairs(entries, init, valid);
      var (p0, p1) := ps[|ps| - 1];
      if p0 in s.entries && p1 in s.entries && valid(p0, p1) {
        MergeIntoWellFormed(s.entries, p0, p1, n);
      }
    }
  }

  /** Every accepted pair of `ps`, whatever keys sit beside it, marks one of its operands. */
  ghost predicate Absorbing(ps: seq<(nat, nat)>, valid: (nat, nat) -> bool)
  {
    forall i, keys: set<nat> :: 0 <= i < |ps| && valid(ps[i].0, ps[i].1) && ps[i].0 in keys && ps[i].1 in keys ==>
      ps[i].0 in MarkedBy(keys, MergeOf(ps[i].0, ps[i].1)) || ps[i].1 in MarkedBy(keys, MergeOf(ps[i].0, ps[i].1))
  }

  /** When such a loop counts a merge, an operand of one of its pairs ends up marked. */
  lemma {:induction false} MergePairsProgress(entries: map<nat, Implicant>, ps: seq<(nat, nat)>, valid: (nat, nat) -> bool)
    requires Absorbing(ps, valid)
    ensures var r := MergePairs(entries, ps, valid);
      r.count > 0 ==> exists i :: 0 <= i < |ps| && (MarkedIn(r.entries, ps[i].0) || MarkedIn(r.entries, ps[i].1))
    decreases |ps|
  {
    if |ps| > 0 {
      var init := ps[..|ps| - 1];
      var last := |ps| - 1;
      assert Absorbing(init, valid) by {
        forall i, keys: set<nat> | 0 <= i < |init| && valid(init[i].0, init[i].1) && init[i].0 in keys && init[i].1 in keys
          ensures init[i].0 in MarkedBy(keys, MergeOf(init[i].0, init[i].1)) || init[i].1 in MarkedBy(keys, MergeOf(init[i].0, init[i].1))
        {
          assert init[i] == ps[i];
        }
      }
      MergePairsProgress(entries, init, valid);
      var s := MergePairs(entries, init, valid);
      var r := MergePairs(entries, ps, valid);
      var (p0, p1) := ps[last];
      if p0 in s.entries && p1 in s.entries && valid(p0, p1) {
        var m := MergeOf(p0, p1);
        MergeIntoKeeps(s.entries, m);
        assert p0 in MarkedBy(s.entries.Keys, m) || p1 in MarkedBy(s.entries.Keys, m);
        assert MarkedIn(r.entries, ps[last].0) || MarkedIn(r.entries, ps[last].1);
      } else if s.count > 0 {
        var i :| 0 <= i < |init| && (MarkedIn(s.entries, init[i].0) || MarkedIn(s.entries, init[i].1));
        assert init[i] == ps[i];
      }
    }
  }

  /**
   * `for p0, p1 in ...: adj = check_adjacent(p0, p1); if adj['is_valid']: ...; adj_count += 1`
   * over the candidate pairs `pairs`, all of them keys of the table.
   */
  method MergeAll(table: MintermTable, v: Variant, pairs: seq<(nat, nat)>, ghost n: nat) returns (adjCount: nat)
    requires table.Ordered() && AllWellFormed(table.entries, n)
    requires forall p :: p in pairs ==> p.0 in table.entries && p.1 in table.entries
    modifies table
    ensures table.Ordered()
    ensures var r := MergePairs(old(table.entries), pairs, AdjacentCheck(v));
      table.entries == r.entries && adjCount == r.count
  {
    ghost var e0 := table.entries;
    ghost var valid := AdjacentCheck(v);
    AdjacentCheckAdjacent(v);
    adjCount := 0;
    for i := 0 to |pairs|
      invariant table.Ordered()
      invariant var r := MergePairs(e0, pairs[..i], valid); table.entries == r.entries && adjCount == r.count
    {
      MergePairsKeeps(e0, pairs[..i], valid);
      MergePairsWellFormed(e0, pairs[..i], valid, n);
      assert pairs[i] in pairs;
      var (p0, p1) := pairs[i];
      assert WellFormed(p0, table.entries[p0], n) && WellFormed(p1, table.entries[p1], n);
      var adj := CheckAdjacent(v == Hat, p0, p1);
      if adj.isValid {
        MergePair(table, v == Hat, p0, p1, adj, n);
        adjCount := adjCount + 1;
      }
      assert pairs[..i + 1][..i] == pairs[..i];
    }
    assert pairs[..|pairs|] == pairs;
  }

  // ---------------------------------------------------------------- buckets

  /** `get_adjval(k)` with the variant's weights. */
  function AdjOf(v: Variant, k: nat): Result<nat>
  {
    KeyWeight(AdjTable(v), k)
  }

  /** `adjval_dict[a]`: the keys of `keys`, in order, whose adjacency value is `a`. */
  function Bucket(v: Variant, keys: seq<nat>, a: nat): (r: seq<nat>)
    ensures forall k :: k in r <==> k in keys && AdjOf(v, k) == Ok(a)
  {
    if |keys| == 0 then []
    else
      var init, k := keys[..|keys| - 1], keys[|keys| - 1];
      assert forall x :: x in keys <==> x in init || x == k;
      Bucket(v, init, a) + if AdjOf(v, k) == Ok(a) then [k] else []
  }

  /** The adjacency values of the keys `keys`. */
  ghost function AdjValues(v: Variant, keys: seq<nat>): set<nat>
  {
    set k | k in keys && AdjOf(v, k).Ok? :: AdjOf(v, k).value
  }

  /** `adjval_dict.keys()`: the adjacency values in the order they first occur. */
  function BucketValues(v: Variant, keys: seq<nat>): (r: seq<nat>)
    ensures NoDuplicates(r) && forall a :: a in r <==> a in AdjValues(v, keys)
  {
    if |keys| == 0 then []
    else
      var init, k := keys[..|keys| - 1], keys[|keys| - 1];
      var r := BucketValues(v, init);
      assert forall x :: x in keys <==> x in init || x == k;
      assert AdjValues(v, keys) == AdjValues(v, init) + if AdjOf(v, k).Ok? then {AdjOf(v, k).value} else {};
      if AdjOf(v, k).Ok? && AdjOf(v, k).value !in r then r + [AdjOf(v, k).value] else r
  }

  /** `x` inserted into the increasing `ys`, which lacks it. */
  function Insert(x: nat, ys: seq<nat>): (r: seq<nat>)
    requires Increasing(ys) && x !in ys
    ensures Increasing(r) && forall z :: z in r <==> z == x || z in ys
  {
    if |ys| == 0 then [x]
    else if x < ys[0] then [x] + ys
    else
      assert ys[0] < x;
      assert forall z :: z in ys[1..] ==> z in ys;
      forall z | z in ys[1..] ensures ys[0] < z {
        var i :| 0 <= i < |ys[1..]| && ys[1..][i] == z;
        assert ys[0] < ys[i + 1];
      }
      var rest := Insert(x, ys[1..]);
      forall j | 0 <= j < |rest| ensures ys[0] < rest[j] {
        assert rest[j] in rest;
      }
      [ys[0]] + rest
  }

  /** `sorted(xs)` of distinct values. */
  function Sorted(xs: seq<nat>): (r: seq<nat>)
    requires NoDuplicates(xs)
    ensures Increasing(r) && forall z :: z in r <==> z in xs
  {
    if |xs| == 0 then []
    else
      assert forall z :: z in xs[1..] ==> z in xs;
      assert xs[0] !in xs[1..];
      Insert(xs[0], Sorted(xs[1..]))
  }

  /** How far apart the paired buckets may lie: `0 < dif < 3` in minish_hat.py, 1 elsewhere. */
  function MaxDiff(v: Variant): nat
  {
    if v == Hat then 2 else 1
  }

  /** The pairs `(a, b)` with `b` from `ys` and `0 < b - a <= d`, in the order of `ys`. */
  function Partners(a: nat, ys: seq<nat>, d: nat): (r: seq<(nat, nat)>)
    ensures forall p :: p in r <==> p.0 == a && p.1 in ys && a < p.1 <= a + d
  {
    if |ys| == 0 then []
    else
      var init, y := ys[..|ys| - 1], ys[|ys| - 1];
      assert forall z :: z in ys <==> z in init || z == y;
      Partners(a, init, d) + if a < y <= a + d then [(a, y)] else []
  }

  /** `[(p0, p1) for (p0, p1) in product(xs, ys) if 0 < p1 - p0 <= d]`. */
  function ProductPairs(xs: seq<nat>, ys: seq<nat>, d: nat): (r: seq<(nat, nat)>)
    ensures forall p :: p in r <==> p.0 in xs && p.1 in ys && p.0 < p.1 <= p.0 + d
  {
    if |xs| == 0 then []
    else
      var init, x := xs[..|xs| - 1], xs[|xs| - 1];
      assert forall z :: z in xs <==> z in init || z == x;
      ProductPairs(init, ys, d) + Partners(x, ys, d)
  }

  /** `(sorted[x], sorted[x + 1])` for each `x` where the two differ by one. */
  function Consecutive(s: seq<nat>): (r: seq<(nat, nat)>)
    ensures forall p :: p in r ==> p.0 in s && p.1 in s && p.1 == p.0 + 1
  {
    if |s| < 2 then []
    else
      var init := s[..|s| - 1];
      assert forall z :: z in init ==> z in s;
      Consecutive(init) + if s[|s| - 1] == s[|s| - 2] + 1 then [(s[|s| - 2], s[|s| - 1])] else []
  }

  /** Over increasing values, two values one apart are always neighbours. */
  lemma {:induction false} ConsecutiveComplete(s: seq<nat>, a: nat)
    requires Increasing(s) && a in s && a + 1 in s
    ensures (a, a + 1) in Consecutive(s)
    decreases |s|
  {
    var last := |s| - 1;
    var j :| 0 <= j < |s| && s[j] == a + 1;
    var i :| 0 <= i < |s| && s[i] == a;
    assert i < j;
    if j == last {
      assert i + 1 <= j;
      assert s[i] < s[j - 1] || i == j - 1;
      assert i == j - 1;
    } else {
      var init := s[..last];
      assert init[i] == a && init[j] == a + 1;
      ConsecutiveComplete(init, a);
    }
  }

  /** The bucket pairs the variant pairs, from the sorted adjacency values. */
  function BucketPairs(v: Variant, sorted: seq<nat>): seq<(nat, nat)>
  {
    if v == Hat then ProductPairs(sorted, sorted, 2) else Consecutive(sorted)
  }

  /** Over increasing values, the bucket pairs are the values less than `MaxDiff` apart, neighbours or not. */
  lemma BucketPairsMember(v: Variant, sorted: seq<nat>, a: nat, b: nat)
    requires Increasing(sorted)
    ensures (a, b) in BucketPairs(v, sorted) <==> a in sorted && b in sorted && a < b <= a + MaxDiff(v)
  {
    if v != Hat && a in sorted && b in sorted && a < b <= a + 1 {
      ConsecutiveComplete(sorted, a);
    }
  }

  /** `product(xs, ys)`. */
  function Cross(xs: seq<nat>, ys: seq<nat>): (r: seq<(nat, nat)>)
    ensures forall p :: p in r <==> p.0 in xs && p.1 in ys
  {
    if |xs| == 0 then []
    else
      var init, x := xs[..|xs| - 1], xs[|xs| - 1];
      assert forall z :: z in xs <==> z in init || z == x;
      var row := seq(|ys|, j requires 0 <= j < |ys| => (x, ys[j]));
      assert forall p: (nat, nat) :: p in row <==> p.0 == x && p.1 in ys by {
        forall p: (nat, nat) | p.0 == x && p.1 in ys ensures p in row {
          var j :| 0 <= j < |ys| && ys[j] == p.1;
          assert row[j] == p;
        }
      }
      Cross(init, ys) + row
  }

  /** The candidate pairs of the bucket pairs `bps`, one bucket pair after another. */
  function CandidatesOf(v: Variant, keys: seq<nat>, bps: seq<(nat, nat)>): seq<(nat, nat)>
  {
    if |bps| == 0 then []
    else
      var q := bps[|bps| - 1];
      CandidatesOf(v, keys, bps[..|bps| - 1]) + Cross(Bucket(v, keys, q.0), Bucket(v, keys, q.1))
  }

  /** A candidate is a pair of keys from the two buckets of some bucket pair. */
  lemma {:induction false} CandidatesOfMember(v: Variant, keys: seq<nat>, bps: seq<(nat, nat)>, p: (nat, nat))
    ensures p in CandidatesOf(v, keys, bps) <==> exists q :: q in bps && p.0 in Bucket(v, keys, q.0) && p.1 in Bucket(v, keys, q.1)
    decreases |bps|
  {
    if |bps| > 0 {
      var init, q := bps[..|bps| - 1], bps[|bps| - 1];
      CandidatesOfMember(v, keys, init, p);
      assert forall x :: x in bps <==> x in init || x == q;
      if p in Cross(Bucket(v, keys, q.0), Bucket(v, keys, q.1)) {
        assert q in bps;
      }
    }
  }

  /** Every pair one round of the pairs loop tries over the unmarked keys `keys`, in order. */
  function Candidates(v: Variant, keys: seq<nat>): seq<(nat, nat)>
  {
    CandidatesOf(v, keys, BucketPairs(v, Sorted(BucketValues(v, keys))))
  }

  /**
   * A round tries exactly the pairs of unmarked keys whose adjacency values lie 1 apart
   * (1 or 2 apart in minish_hat.py), the lower value first.
   */
  lemma CandidatesMember(v: Variant, keys: seq<nat>, p0: nat, p1: nat)
    ensures (p0, p1) in Candidates(v, keys) <==>
      p0 in keys && p1 in keys && AdjOf(v, p0).Ok? && AdjOf(v, p1).Ok? &&
      AdjOf(v, p0).value < AdjOf(v, p1).value <= AdjOf(v, p0).value + MaxDiff(v)
  {
    var sorted := Sorted(BucketValues(v, keys));
    CandidatesOfMember(v, keys, BucketPairs(v, sorted), (p0, p1));
    if (p0, p1) in Candidates(v, keys) {
      var q :| q in BucketPairs(v, sorted) && p0 in Bucket(v, keys, q.0) && p1 in Bucket(v, keys, q.1);
      BucketPairsMember(v, sorted, q.0, q.1);
    }
    if p0 in keys && p1 in keys && AdjOf(v, p0).Ok? && AdjOf(v, p1).Ok? &&
      AdjOf(v, p0).value < AdjOf(v, p1).value <= AdjOf(v, p0).value + MaxDiff(v) {
      var q := (AdjOf(v, p0).value, AdjOf(v, p1).value);
      assert q.0 in AdjValues(v, keys) && q.1 in AdjValues(v, keys);
      BucketPairsMember(v, sorted, q.0, q.1);
      assert p0 in Bucket(v, keys, q.0) && p1 in Bucket(v, keys, q.1);
    }
  }

  // ---------------------------------------------------------------- progress

  /** Two keys that agree outside `lane` weigh the same outside it. */
  lemma {:induction false} SumLanesOneLane(t: Table, a: nat, b: nat, lane: nat, m: nat)
    requires forall i: nat :: i < m ==> DigitWeight(t, Lane(a, i)).Some? && DigitWeight(t, Lane(b, i)).Some?
    requires forall i: nat :: i < m && i != lane ==> Lane(a, i) == Lane(b, i)
    ensures SumLanes(t, a, m).Ok? && SumLanes(t, b, m).Ok?
    ensures lane >= m ==> SumLanes(t, a, m) == SumLanes(t, b, m)
    ensures lane < m ==>
      (SumLanes(t, b, m).value + DigitWeight(t, Lane(a, lane)).value == SumLanes(t, a, m).value + DigitWeight(t, Lane(b, lane)).value)
    decreases m
  {
    if m > 0 {
      SumLanesOneLane(t, a, b, lane, m - 1);
    }
  }

  /**
   * On the weights of minish-hat.py and minish-ruleset.py, an accepted merge whose second
   * operand weighs one more than the first changes `0` to `1`, `1` to `2` or `z` to `o`.
   */
  lemma AdjvalOneStep(p0: nat, p1: nat, n: nat)
    requires LabelKey(p0, n) && LabelKey(p1, n) && AdjacencyOf(false, p0, p1).isValid
    requires KeyWeight(Adjval, p0).Ok? && KeyWeight(Adjval, p1).Ok?
    requires KeyWeight(Adjval, p1).value == KeyWeight(Adjval, p0).value + 1
    ensures var lane := MergeOf(p0, p1).lane; var d0, d1 := Lane(p0, lane), Lane(p1, lane);
      (d0 == 1 && d1 == 2) || (d0 == 2 && d1 == 4) || (d0 == 3 && d1 == 6)
  {
    var m := MergeOf(p0, p1);
    MergeOfValid(false, p0, p1, n);
    assert forall i: nat :: i < n ==> IsCode(Lane(p0, i)) && IsCode(Lane(p1, i));
    assert forall i: nat :: i < n && i != m.lane ==> Lane(p0, i) == Lane(m.result, i) == Lane(p1, i);
    SumLanesOneLane(Adjval, p0, p1, m.lane, n);
  }

  /** Every accepted candidate pair of a round marks one of its operands. */
  lemma CandidatesAbsorbing(v: Variant, keys: seq<nat>, n: nat)
    requires forall k :: k in keys ==> LabelKey(k, n)
    ensures Absorbing(Candidates(v, keys), AdjacentCheck(v))
  {
    var ps := Candidates(v, keys);
    var valid := AdjacentCheck(v);
    forall i, ks: set<nat> | 0 <= i < |ps| && valid(ps[i].0, ps[i].1) && ps[i].0 in ks && ps[i].1 in ks
      ensures ps[i].0 in MarkedBy(ks, MergeOf(ps[i].0, ps[i].1)) || ps[i].1 in MarkedBy(ks, MergeOf(ps[i].0, ps[i].1))
    {
      var (p0, p1) := ps[i];
      assert ps[i] in ps;
      CandidatesMember(v, keys, p0, p1);
      if v == Hat {
        GuardedMergeMarksOperand(ks, p0, p1, n);
      } else {
        AdjvalOneStep(p0, p1, n);
        UnguardedMergeMarksOperand(ks, p0, p1, n);
      }
    }
  }

  /**
   * A round that counts a merge marks at least one of the keys that were unmarked when it
   * started: this is what lets the pair loop make progress.
   */
  lemma PairStepProgress(entries: map<nat, Implicant>, v: Variant, keys: seq<nat>, n: nat)
    requires forall k :: k in keys ==> LabelKey(k, n)
    ensures var r := MergePairs(entries, Candidates(v, keys), AdjacentCheck(v));
      r.count > 0 ==> exists k :: k in keys && MarkedIn(r.entries, k)
  {
    var ps := Candidates(v, keys);
    CandidatesAbsorbing(v, keys, n);
    MergePairsProgress(entries, ps, AdjacentCheck(v));
    var r := MergePairs(entries, ps, AdjacentCheck(v));
    if r.count > 0 {
      var i :| 0 <= i < |ps| && (MarkedIn(r.entries, ps[i].0) || MarkedIn(r.entries, ps[i].1));
      assert ps[i] in ps;
      CandidatesMember(v, keys, ps[i].0, ps[i].1);
    }
  }

  // ---------------------------------------------------------------- one round of pairing

  /** One more key extends its bucket, and the values when its value is new. */
  lemma BucketSnoc(v: Variant, keys: seq<nat>, k: nat, b: nat)
    ensures Bucket(v, keys + [k], b) == Bucket(v, keys, b) + if AdjOf(v, k) == Ok(b) then [k] else []
  {
    assert (keys + [k])[..|keys|] == keys;
  }

  lemma ValuesSnoc(v: Variant, keys: seq<nat>, k: nat, a: nat)
    requires AdjOf(v, k) == Ok(a)
    ensures BucketValues(v, keys + [k]) == if a in BucketValues(v, keys) then BucketValues(v, keys) else BucketValues(v, keys) + [a]
  {
    assert (keys + [k])[..|keys|] == keys;
  }

  /** The bucket of a value no key has is empty. */
  lemma {:induction false} BucketEmpty(v: Variant, keys: seq<nat>, a: nat)
    requires a !in BucketValues(v, keys)
    ensures Bucket(v, keys, a) == []
    decreases |keys|
  {
    if |keys| > 0 {
      BucketEmpty(v, keys[..|keys| - 1], a);
    }
  }

  /** `buckets` and `values` are `adjval_dict` and its key order after the keys `keys`. */
  ghost predicate Grouped(v: Variant, keys: seq<nat>, buckets: map<nat, seq<nat>>, values: seq<nat>)
  {
    && values == BucketValues(v, keys)
    && (forall a :: a in buckets <==> a in values)
    && (forall a :: a in buckets ==> buckets[a] == Bucket(v, keys, a))
  }

  /** Every bucket of `buckets` after appending the key `k` to the one of its value `a`. */
  lemma BucketsAfter(v: Variant, keys: seq<nat>, k: nat, a: nat, buckets: map<nat, seq<nat>>)
    requires forall b :: b in buckets ==> buckets[b] == Bucket(v, keys, b)
    requires AdjOf(v, k) == Ok(a) && Bucket(v, keys, a) == if a in buckets then buckets[a] else []
    ensures var buckets' := buckets[a := (if a in buckets then buckets[a] else []) + [k]];
      forall b :: b in buckets' ==> buckets'[b] == Bucket(v, keys + [k], b)
  {
    var buckets' := buckets[a := (if a in buckets then buckets[a] else []) + [k]];
    forall b | b in buckets' ensures buckets'[b] == Bucket(v, keys + [k], b) {
      BucketSnoc(v, keys, k, b);
      if b != a {
        assert buckets'[b] == buckets[b];
      }
    }
  }

  /** A key whose value has no bucket yet opens one, at the end of the key order. */
  lemma GroupedNew(v: Variant, keys: seq<nat>, k: nat, a: nat, buckets: map<nat, seq<nat>>, values: seq<nat>)
    requires Grouped(v, keys, buckets, values) && AdjOf(v, k) == Ok(a) && a !in buckets
    ensures Grouped(v, keys + [k], buckets[a := [k]], values + [a])
  {
    assert a !in BucketValues(v, keys);
    ValuesSnoc(v, keys, k, a);
    BucketEmpty(v, keys, a);
    BucketsAfter(v, keys, k, a, buckets);
    GroupedIntro(v, keys + [k], buckets[a := [k]], values + [a]);
  }

  /** A key whose value has a bucket is appended to it. */
  lemma GroupedOld(v: Variant, keys: seq<nat>, k: nat, a: nat, buckets: map<nat, seq<nat>>, values: seq<nat>)
    requires Grouped(v, keys, buckets, values) && AdjOf(v, k) == Ok(a) && a in buckets
    ensures Grouped(v, keys + [k], buckets[a := buckets[a] + [k]], values)
  {
    OldValues(v, keys, k, a, buckets, values);
    OldBuckets(v, keys, k, a, buckets, values);
    GroupedIntro(v, keys + [k], buckets[a := buckets[a] + [k]], values);
  }

  /** A value that already has a bucket leaves the list of values and the bucket keys as they are. */
  lemma OldValues(v: Variant, keys: seq<nat>, k: nat, a: nat, buckets: map<nat, seq<nat>>, values: seq<nat>)
    requires Grouped(v, keys, buckets, values) && AdjOf(v, k) == Ok(a) && a in buckets
    ensures values == BucketValues(v, keys + [k])
    ensures forall b :: b in buckets[a := buckets[a] + [k]] <==> b in values
  {
    assert a in BucketValues(v, keys);
    ValuesSnoc(v, keys, k, a);
    assert buckets[a := buckets[a] + [k]].Keys == buckets.Keys;
  }

  /** Appending the key to the bucket of its value gives the buckets of the longer key list. */
  lemma OldBuckets(v: Variant, keys: seq<nat>, k: nat, a: nat, buckets: map<nat, seq<nat>>, values: seq<nat>)
    requires Grouped(v, keys, buckets, values) && AdjOf(v, k) == Ok(a) && a in buckets
    ensures forall b :: b in buckets[a := buckets[a] + [k]] ==> buckets[a := buckets[a] + [k]][b] == Bucket(v, keys + [k], b)
  {
    assert Bucket(v, keys, a) == buckets[a];
    BucketsAfter(v, keys, k, a, buckets);
  }

  /** The three facts `Grouped` collects. */
  lemma GroupedIntro(v: Variant, keys: seq<nat>, buckets: map<nat, seq<nat>>, values: seq<nat>)
    requires values == BucketValues(v, keys)
    requires forall a :: a in buckets <==> a in values
    requires forall a :: a in buckets ==> buckets[a] == Bucket(v, keys, a)
    ensures Grouped(v, keys, buckets, values)
  {
  }

  /** The loop building `adjval_dict` from the unmarked keys `keys`, in dictionary order. */
  method GroupByAdjval(v: Variant, keys: seq<nat>, ghost n: nat) returns (buckets: map<nat, seq<nat>>, values: seq<nat>)
    requires forall k :: k in keys ==> LabelKey(k, n)
    ensures values == BucketValues(v, keys)
    ensures forall a :: a in buckets <==> a in values
    ensures forall a :: a in buckets ==> buckets[a] == Bucket(v, keys, a)
  {
    buckets, values := map[], [];
    for i := 0 to |keys|
      invariant Grouped(v, keys[..i], buckets, values)
    {
      var k := keys[i];
      assert keys[..i + 1] == keys[..i] + [k];
      assert k in keys;
      LabelKeyWeighs(AdjTable(v), k, n, n);
      var w := LaneSum(AdjTable(v), k);
      var keyadjval := w.value;
      if keyadjval !in buckets {
        GroupedNew(v, keys[..i], k, keyadjval, buckets, values);
        buckets := buckets[keyadjval := [k]];
        values := values + [keyadjval];
      } else {
        GroupedOld(v, keys[..i], k, keyadjval, buckets, values);
        buckets := buckets[keyadjval := buckets[keyadjval] + [k]];
      }
    }
    assert keys[..|keys|] == keys;
  }

  /** The `for (p0, p1) in product(sorted_adjval, repeat=2)` loop of minish_hat.py. */
  method HatBucketPairs(sorted: seq<nat>) returns (validPairs: seq<(nat, nat)>)
    ensures validPairs == ProductPairs(sorted, sorted, 2)
  {
    validPairs := [];
    for i := 0 to |sorted|
      invariant validPairs == ProductPairs(sorted[..i], sorted, 2)
    {
      assert sorted[..i + 1][..i] == sorted[..i];
      var row := HatPartners(sorted[i], sorted);
      validPairs := validPairs + row;
    }
    assert sorted[..|sorted|] == sorted;
  }

  /** The inner `p1` loop of `HatBucketPairs` for one `p0`. */
  method HatPartners(p0: nat, sorted: seq<nat>) returns (row: seq<(nat, nat)>)
    ensures row == Partners(p0, sorted, 2)
  {
    row := [];
    for j := 0 to |sorted|
      invariant row == Partners(p0, sorted[..j], 2)
    {
      var p1 := sorted[j];
      assert sorted[..j + 1][..j] == sorted[..j];
      var dif := p1 as int - p0 as int;
      if dif > 0 && dif < 3 {
        row := row + [(p0, p1)];
      }
    }
    assert sorted[..|sorted|] == sorted;
  }

  /** The candidate pairs, bucket pair by bucket pair: `product(adjval_dict[l], adjval_dict[r])`. */
  method CandidatePairs(v: Variant, ghost keys: seq<nat>, buckets: map<nat, seq<nat>>, bucketPairs: seq<(nat, nat)>) returns (pairs: seq<(nat, nat)>)
    requires forall q :: q in bucketPairs ==> q.0 in buckets && q.1 in buckets
    requires forall a :: a in buckets ==> buckets[a] == Bucket(v, keys, a)
    ensures pairs == CandidatesOf(v, keys, bucketPairs)
  {
    pairs := [];
    for i := 0 to |bucketPairs|
      invariant pairs == CandidatesOf(v, keys, bucketPairs[..i])
    {
      var (l, r) := bucketPairs[i];
      assert bucketPairs[i] in bucketPairs;
      assert bucketPairs[..i + 1][..i] == bucketPairs[..i];
      pairs := pairs + Cross(buckets[l], buckets[r]);
    }
    assert bucketPairs[..|bucketPairs|] == bucketPairs;
  }

  /**
   * The pairing step of one round: every candidate pair of unmarked keys that
   * `check_adjacent` accepts is merged and counted in `adj_count`. The table stays well
   * formed and covers the same minterms.
   */
  method PairStep(table: MintermTable, v: Variant, ghost n: nat) returns (adjCount: nat)
    requires table.Valid(n)
    modifies table
    ensures table.Valid(n)
    ensures var r := MergePairs(old(table.entries), Candidates(v, old(table.Unmarked())), AdjacentCheck(v));
      table.entries == r.entries && adjCount == r.count
    ensures AllCovers(table.entries) == AllCovers(old(table.entries))
  {
    ghost var e0 := table.entries;
    var keys := table.Unmarked();
    forall k | k in keys ensures LabelKey(k, n) {
      assert WellFormed(k, e0[k], n);
    }
    var buckets, values := GroupByAdjval(v, keys, n);
    var sorted := Sorted(values);
    var bucketPairs;
    if v == Hat {
      bucketPairs := HatBucketPairs(sorted);
    } else {
      bucketPairs := Consecutive(sorted);
    }
    assert bucketPairs == BucketPairs(v, sorted);
    var pairs := CandidatePairs(v, keys, buckets, bucketPairs);
    forall p | p in pairs ensures p.0 in e0 && p.1 in e0 {
      CandidatesMember(v, keys, p.0, p.1);
    }
    adjCount := MergeAll(table, v, pairs, n);
    AdjacentCheckAdjacent(v);
    MergePairsWellFormed(e0, pairs, AdjacentCheck(v), n);
  }
}
