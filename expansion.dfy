/**
 * The expansion step of the pair loop (minish_hat.py:446-479, minish-hat.py:363-392,
 * minish-ruleset.py:250-281): every partially adjacent pair of unmarked keys has its
 * aggregated keys expanded into their minterms, which are inserted when absent; an
 * aggregated key whose expansion inserted something is deleted once the scan is over.
 */
module Expansion {
  import opened Wrappers
  import opened Octal
  import opened Weights
  import opened Expand
  import opened Adjacency
  import opened Keys
  import opened Implicants
  import opened Pipeline

  /** `combinations(ks, 2)`: each element paired with every later one, in order. */
  function Combinations(ks: seq<nat>): (r: seq<(nat, nat)>)
    ensures forall p :: p in r ==> p.0 in ks && p.1 in ks
    decreases |ks|
  {
    if |ks| == 0 then []
    else
      var rest := Combinations(ks[1..]);
      assert forall p :: p in rest ==> p.0 in ks && p.1 in ks;
      seq(|ks| - 1, j requires 0 <= j < |ks| - 1 => (ks[0], ks[j + 1])) + rest
  }

  /** The pairs of `combinations`: exactly the earlier element paired with a later one. */
  lemma {:induction false} CombinationsMember(ks: seq<nat>, a: nat, b: nat)
    ensures (a, b) in Combinations(ks) <==> exists i, j :: 0 <= i < j < |ks| && ks[i] == a && ks[j] == b
    decreases |ks|
  {
    if |ks| > 0 {
      CombinationsMember(ks[1..], a, b);
      var head := seq(|ks| - 1, j requires 0 <= j < |ks| - 1 => (ks[0], ks[j + 1]));
      assert Combinations(ks) == head + Combinations(ks[1..]);
      if (a, b) in Combinations(ks) {
        if (a, b) in head {
          var j :| 0 <= j < |head| && head[j] == (a, b);
          assert ks[0] == a && ks[j + 1] == b;
        } else {
          var i, j :| 0 <= i < j < |ks[1..]| && ks[1..][i] == a && ks[1..][j] == b;
          assert ks[i + 1] == a && ks[j + 1] == b;
        }
      }
      if exists i, j :: 0 <= i < j < |ks| && ks[i] == a && ks[j] == b {
        var i, j :| 0 <= i < j < |ks| && ks[i] == a && ks[j] == b;
        if i == 0 {
          assert head[j - 1] == (a, b);
        } else {
          assert ks[1..][i - 1] == a && ks[1..][j - 1] == b;
        }
      }
    }
  }

  /**
   * What the scan asks of a pair and of a key, and the entry it gives a new minterm. The
   * scan is stated over these; the pair loops use `PairLoopChecks`.
   */
  datatype Checks = Checks(partial: (nat, nat) -> bool, aggregated: nat -> bool, entry: nat -> Implicant)

  /**
   * The entry the pair loops insert for a minterm: unmarked, covering itself, and
   * totally covering itself and its totalizations (which a minterm always has).
   */
  function MintermEntry(c: nat): Implicant
  {
    var t := Totalization(c);
    Implicant(false, {c}, {c} + if t.Ok? then t.value else {})
  }

  /** The variant's `check_partial_adj`, `get_weight(k) > 0` and new-minterm entry. */
  function PairLoopChecks(v: Variant): Checks
  {
    Checks((a: nat, b: nat) => PartialPair(v, a, b), Aggregated, MintermEntry)
  }

  /** New minterm entries are well formed, and no minterm counts as aggregated. */
  ghost predicate ChecksFit(ch: Checks, n: nat)
  {
    forall c :: ConcreteKey(c, n) ==> WellFormed(c, ch.entry(c), n) && !ch.aggregated(c)
  }

  /** The entry of a minterm is well formed. */
  lemma MintermEntryWellFormed(c: nat, n: nat)
    requires ConcreteKey(c, n)
    ensures Totalization(c).Ok? && WellFormed(c, MintermEntry(c), n)
  {
    TotalizationLanes(c, n);
    ConcreteCoversItself(c, n);
    forall t | t in MintermEntry(c).totalcovers ensures TotalizedFrom({c}, t) {
      assert c in {c} && TotalizesTo(c, t);
    }
  }

  lemma PairLoopChecksFit(v: Variant, n: nat)
    ensures ChecksFit(PairLoopChecks(v), n)
  {
    forall c | ConcreteKey(c, n) ensures WellFormed(c, MintermEntry(c), n) && !Aggregated(c) {
      MintermEntryWellFormed(c, n);
      ConcreteNotAggregated(c, n);
    }
  }

  /** The minterms a partially adjacent pair is expanded into: the covers of its aggregated keys. */
  function Expanded(entries: map<nat, Implicant>, a: nat, b: nat, aggregated: nat -> bool): set<nat>
    requires a in entries && b in entries
  {
    (if aggregated(a) then entries[a].covers else {}) + (if aggregated(b) then entries[b].covers else {})
  }

  /** The aggregated keys among `a` and `b`, which go on the delete list. */
  function AggregatedOf(a: nat, b: nat, aggregated: nat -> bool): seq<nat>
  {
    (if aggregated(a) then [a] else []) + (if aggregated(b) then [b] else [])
  }

  /** The entries after inserting every minterm of `e` that is missing. */
  function WithMinterms(entries: map<nat, Implicant>, e: set<nat>, entry: nat -> Implicant): (r: map<nat, Implicant>)
    ensures r.Keys == entries.Keys + e
  {
    map k | k in entries.Keys + e :: if k in entries then entries[k] else entry(k)
  }

  /** The entries after inserting the minterms of `xs` one by one, each only if missing. */
  function InsertEach(entries: map<nat, Implicant>, xs: seq<nat>, entry: nat -> Implicant): map<nat, Implicant>
  {
    if |xs| == 0 then entries
    else
      var m := InsertEach(entries, xs[..|xs| - 1], entry);
      var x := xs[|xs| - 1];
      if x in m then m else m[x := entry(x)]
  }

  /** The keys after inserting `xs` are the keys before and those of `xs`. */
  lemma {:induction false} InsertEachMember(entries: map<nat, Implicant>, xs: seq<nat>, entry: nat -> Implicant, k: nat)
    ensures k in InsertEach(entries, xs, entry) <==> k in entries || k in xs
    decreases |xs|
  {
    if |xs| > 0 {
      InsertEachMember(entries, xs[..|xs| - 1], entry, k);
      assert k in xs <==> k in xs[..|xs| - 1] || k == xs[|xs| - 1];
    }
  }

  /** The elements of a list, as a set. */
  function Elems(xs: seq<nat>): set<nat>
  {
    set x | x in xs
  }

  /** In whatever order the minterms come, the outcome is the same. */
  lemma {:induction false} InsertEachAll(entries: map<nat, Implicant>, xs: seq<nat>, entry: nat -> Implicant)
    ensures InsertEach(entries, xs, entry) == WithMinterms(entries, Elems(xs), entry)
    decreases |xs|
  {
    if |xs| > 0 {
      var init, x := xs[..|xs| - 1], xs[|xs| - 1];
      InsertEachAll(entries, init, entry);
      assert Elems(xs) == Elems(init) + {x};
      WithMintermsAdd(entries, Elems(init), x, entry);
    }
  }

  /** Adding one minterm to the set inserts its entry unless it is already there. */
  lemma WithMintermsAdd(entries: map<nat, Implicant>, e: set<nat>, x: nat, entry: nat -> Implicant)
    ensures var m := WithMinterms(entries, e, entry);
      WithMinterms(entries, e + {x}, entry) == if x in m then m else m[x := entry(x)]
  {
    var m, r := WithMinterms(entries, e, entry), WithMinterms(entries, e + {x}, entry);
    if x in m {
      assert m == r;
    } else {
      assert m[x := entry(x)] == r;
    }
  }

  /** Where the scan over the pairs stands: the entries, the keys queued for deletion, `exp_count`. */
  datatype Scan = Scan(entries: map<nat, Implicant>, queued: seq<nat>, count: nat)

  /**
   * One pair of the scan: a partially adjacent pair inserts the minterms of its
   * aggregated keys and, when one of them was new, queues those keys for deletion.
   */
  function ScanPair(s: Scan, a: nat, b: nat, ch: Checks): Scan
  {
    if a in s.entries && b in s.entries && ch.partial(a, b) then
      var e := Expanded(s.entries, a, b, ch.aggregated);
      var added := |e - s.entries.Keys|;
      Scan(WithMinterms(s.entries, e, ch.entry), if added > 0 then s.queued + AggregatedOf(a, b, ch.aggregated) else s.queued, s.count + added)
    else s
  }

  /** The scan after the pairs `ps`, in order. */
  function ScanPairs(entries: map<nat, Implicant>, ps: seq<(nat, nat)>, ch: Checks): Scan
  {
    if |ps| == 0 then Scan(entries, [], 0)
    else ScanPair(ScanPairs(entries, ps[..|ps| - 1], ch), ps[|ps| - 1].0, ps[|ps| - 1].1, ch)
  }

  /** The entries after an expansion step over the pairs `ps`: the scan, less the queued keys. */
  function Expansion(entries: map<nat, Implicant>, ps: seq<(nat, nat)>, ch: Checks): map<nat, Implicant>
  {
    var s := ScanPairs(entries, ps, ch);
    s.entries - set k | k in s.queued
  }

  // ---------------------------------------------------------------- what a scan does

  /** The pairs of `ps` are keys of `entries`. */
  ghost predicate PairsIn(ps: seq<(nat, nat)>, entries: map<nat, Implicant>)
  {
    forall p :: p in ps ==> p.0 in entries && p.1 in entries
  }

  lemma PairsInPrefix(ps: seq<(nat, nat)>, i: nat, entries: map<nat, Implicant>)
    requires PairsIn(ps, entries) && i <= |ps|
    ensures PairsIn(ps[..i], entries)
  {
    assert forall p :: p in ps[..i] ==> p in ps;
  }

  /** The scan keeps every entry it started from, and adds only entries made by `ch.entry`. */
  lemma {:induction false} ScanKeeps(entries: map<nat, Implicant>, ps: seq<(nat, nat)>, ch: Checks)
    ensures var s := ScanPairs(entries, ps, ch);
      entries.Keys <= s.entries.Keys &&
      (forall k :: k in entries ==> s.entries[k] == entries[k]) &&
      (forall k :: k in s.entries && k !in entries ==> s.entries[k] == ch.entry(k))
    decreases |ps|
  {
    if |ps| > 0 {
      ScanKeeps(entries, ps[..|ps| - 1], ch);
    }
  }

  /** One pair adds to `exp_count` the number of keys it adds. */
  lemma ScanPairCounts(keys: set<nat>, s: Scan, a: nat, b: nat, ch: Checks)
    requires keys <= s.entries.Keys && s.count == |s.entries.Keys - keys| && (s.count == 0 ==> s.queued == [])
    ensures var t := ScanPair(s, a, b, ch);
      keys <= t.entries.Keys && t.count == |t.entries.Keys - keys| && (t.count == 0 ==> t.queued == [])
  {
    if a in s.entries && b in s.entries && ch.partial(a, b) {
      var e := Expanded(s.entries, a, b, ch.aggregated);
      var k1 := s.entries.Keys;
      var d0, d1 := k1 - keys, e - k1;
      assert (k1 + e) - keys == d0 + d1;
      assert d0 !! d1;
      assert |d0 + d1| == |d0| + |d1|;
    }
  }

  /** `exp_count` is the number of keys the scan added, and nothing is queued before something is added. */
  lemma {:induction false} ScanCounts(entries: map<nat, Implicant>, ps: seq<(nat, nat)>, ch: Checks)
    ensures var s := ScanPairs(entries, ps, ch);
      entries.Keys <= s.entries.Keys && s.count == |s.entries.Keys - entries.Keys| &&
      (s.count == 0 ==> s.queued == [])
    decreases |ps|
  {
    if |ps| > 0 {
      ScanCounts(entries, ps[..|ps| - 1], ch);
      ScanPairCounts(entries.Keys, ScanPairs(entries, ps[..|ps| - 1], ch), ps[|ps| - 1].0, ps[|ps| - 1].1, ch);
    } else {
      assert entries.Keys - entries.Keys == {};
    }
  }

  /** Only aggregated keys the scan started from are queued. */
  lemma {:induction false} ScanQueues(entries: map<nat, Implicant>, ps: seq<(nat, nat)>, ch: Checks)
    requires PairsIn(ps, entries)
    ensures forall k :: k in ScanPairs(entries, ps, ch).queued ==> k in entries && ch.aggregated(k)
    decreases |ps|
  {
    if |ps| > 0 {
      PairsInPrefix(ps, |ps| - 1, entries);
      assert ps[|ps| - 1] in ps;
      ScanQueues(entries, ps[..|ps| - 1], ch);
    }
  }

  /** A scan that counts nothing changes nothing. */
  lemma ScanIdle(entries: map<nat, Implicant>, ps: seq<(nat, nat)>, ch: Checks)
    requires ScanPairs(entries, ps, ch).count == 0
    ensures Expansion(entries, ps, ch) == entries
  {
    ScanCounts(entries, ps, ch);
    ScanKeeps(entries, ps, ch);
    var s := ScanPairs(entries, ps, ch);
    assert s.entries.Keys - entries.Keys == {};
    assert (set k | k in s.queued) == {};
  }

  /** The minterms of a pair of well-formed entries. */
  lemma ExpandedMinterms(entries: map<nat, Implicant>, a: nat, b: nat, aggregated: nat -> bool, n: nat)
    requires AllWellFormed(entries, n) && a in entries && b in entries
    ensures forall c :: c in Expanded(entries, a, b, aggregated) ==> ConcreteKey(c, n) && c in AllCovers(entries)
  {
    assert WellFormed(a, entries[a], n) && WellFormed(b, entries[b], n);
    forall c | c in Expanded(entries, a, b, aggregated) ensures ConcreteKey(c, n) && c in AllCovers(entries) {
      WellFormedCovers(a, entries[a], n);
      WellFormedCovers(b, entries[b], n);
    }
  }

  /** A minterm covers itself and nothing else. */
  lemma ConcreteCoversOnlyItself(k: nat, cs: set<nat>, c: nat, n: nat)
    requires ConcreteKey(k, n) && CoversExactly(k, cs, n)
    ensures c in cs <==> c == k
  {
    ConcreteCoversItself(k, n);
    assert k in {k};
    if c in cs {
      assert ConcreteKey(c, n) && Subsumes(k, c);
      assert c in {k};
    }
  }

  /** Inserting minterms some entry already covers keeps the entries well formed and their covers. */
  lemma InsertMintermsWellFormed(entries: map<nat, Implicant>, e: set<nat>, ch: Checks, n: nat)
    requires AllWellFormed(entries, n) && ChecksFit(ch, n)
    requires forall c :: c in e ==> ConcreteKey(c, n) && c in AllCovers(entries)
    ensures AllWellFormed(WithMinterms(entries, e, ch.entry), n)
    ensures AllCovers(WithMinterms(entries, e, ch.entry)) == AllCovers(entries)
  {
    var r := WithMinterms(entries, e, ch.entry);
    forall k | k in r ensures WellFormed(k, r[k], n) {
      if k in entries {
        assert WellFormed(k, entries[k], n);
      }
    }
    forall c | c in AllCovers(r) ensures c in AllCovers(entries) {
      var k :| k in r && c in r[k].covers;
      if k !in entries {
        assert WellFormed(k, ch.entry(k), n);
        ConcreteCoversOnlyItself(k, ch.entry(k).covers, c, n);
      }
    }
    forall c | c in AllCovers(entries) ensures c in AllCovers(r) {
      var k :| k in entries && c in entries[k].covers;
      assert r[k] == entries[k];
    }
  }

  /** One pair keeps the entries well formed and their covers. */
  lemma ScanPairWellFormed(s: Scan, a: nat, b: nat, ch: Checks, n: nat)
    requires AllWellFormed(s.entries, n) && ChecksFit(ch, n)
    ensures var t := ScanPair(s, a, b, ch);
      AllWellFormed(t.entries, n) && AllCovers(t.entries) == AllCovers(s.entries)
  {
    if a in s.entries && b in s.entries && ch.partial(a, b) {
      var e := Expanded(s.entries, a, b, ch.aggregated);
      ExpandedMinterms(s.entries, a, b, ch.aggregated, n);
      InsertMintermsWellFormed(s.entries, e, ch, n);
    }
  }

  /** After one pair, every minterm a queued key covers is a key of the table. */
  lemma ScanPairQueuesCovers(entries: map<nat, Implicant>, s: Scan, a: nat, b: nat, ch: Checks)
    requires a in entries && b in entries
    requires forall k :: k in entries ==> k in s.entries && s.entries[k] == entries[k]
    requires forall k :: k in s.queued ==> k in entries && entries[k].covers <= s.entries.Keys
    ensures var t := ScanPair(s, a, b, ch);
      forall k :: k in t.queued ==> k in entries && entries[k].covers <= t.entries.Keys
  {
    var t := ScanPair(s, a, b, ch);
    if ch.partial(a, b) {
      var e := Expanded(s.entries, a, b, ch.aggregated);
      assert t.entries.Keys == s.entries.Keys + e;
      var q := AggregatedOf(a, b, ch.aggregated);
      assert t.queued == s.queued || t.queued == s.queued + q;
      forall k | k in t.queued ensures k in entries && entries[k].covers <= t.entries.Keys {
        if k !in s.queued {
          assert k in q;
          assert k == a || k == b;
          assert ch.aggregated(k);
          assert entries[k].covers == s.entries[k].covers <= e;
        }
      }
    }
  }

  /**
   * Over well-formed entries, the scan keeps them well formed, covers the same minterms,
   * and every minterm a queued key covers is by then a key of its own.
   */
  lemma {:induction false} ScanWellFormed(entries: map<nat, Implicant>, ps: seq<(nat, nat)>, ch: Checks, n: nat)
    requires AllWellFormed(entries, n) && ChecksFit(ch, n) && PairsIn(ps, entries)
    ensures var s := ScanPairs(entries, ps, ch);
      AllWellFormed(s.entries, n) && AllCovers(s.entries) == AllCovers(entries) &&
      forall k :: k in s.queued ==> k in entries && entries[k].covers <= s.entries.Keys
    decreases |ps|
  {
    if |ps| > 0 {
      var init := ps[..|ps| - 1];
      PairsInPrefix(ps, |ps| - 1, entries);
      assert ps[|ps| - 1] in ps;
      ScanWellFormed(entries, init, ch, n);
      ScanKeeps(entries, init, ch);
      ScanPairWellFormed(ScanPairs(entries, init, ch), ps[|ps| - 1].0, ps[|ps| - 1].1, ch, n);
      ScanPairQueuesCovers(entries, ScanPairs(entries, init, ch), ps[|ps| - 1].0, ps[|ps| - 1].1, ch);
    }
  }

  /** Removing keys keeps the rest well formed. */
  lemma AllWellFormedRestrict(entries: map<nat, Implicant>, ks: set<nat>, n: nat)
    requires AllWellFormed(entries, n)
    ensures AllWellFormed(entries - ks, n)
  {
    forall k | k in entries - ks ensures WellFormed(k, (entries - ks)[k], n) {
      assert WellFormed(k, entries[k], n);
    }
  }

  /**
   * An expansion step over well-formed entries leaves them well formed and covering the
   * same minterms: what a deleted aggregate covered, its inserted minterms now cover.
   */
  lemma ExpansionWellFormed(entries: map<nat, Implicant>, ps: seq<(nat, nat)>, ch: Checks, n: nat)
    requires AllWellFormed(entries, n) && ChecksFit(ch, n) && PairsIn(ps, entries)
    ensures AllWellFormed(Expansion(entries, ps, ch), n)
    ensures AllCovers(Expansion(entries, ps, ch)) == AllCovers(entries)
  {
    var s := ScanPairs(entries, ps, ch);
    ScanWellFormed(entries, ps, ch, n);
    ScanQueues(entries, ps, ch);
    var r := Expansion(entries, ps, ch);
    ghost var queued := set k | k in s.queued;
    AllWellFormedRestrict(s.entries, queued, n);
    forall c | c in AllCovers(r) ensures c in AllCovers(s.entries) {
      var k :| k in r && c in r[k].covers;
      assert k in s.entries && c in s.entries[k].covers;
    }
    forall c | c in AllCovers(entries) ensures c in AllCovers(r) {
      var k :| k in entries && c in entries[k].covers;
      assert WellFormed(k, entries[k], n);
      WellFormedCovers(k, entries[k], n);
      if k in queued {
        assert c in s.entries && !ch.aggregated(c);
        assert c !in queued;
        assert WellFormed(c, s.entries[c], n);
        ConcreteCoversOnlyItself(c, s.entries[c].covers, c, n);
        assert c in r && c in r[c].covers;
      } else {
        ScanKeeps(entries, ps, ch);
        assert k in r && c in r[k].covers;
      }
    }
  }

  // ---------------------------------------------------------------- the step

  /**
   * One round of `for ek in expanded_list`: a minterm missing from the table is inserted
   * unmarked, covering itself and its totalizations.
   */
  method InsertMinterm(table: MintermTable, ek: nat) returns (isNew: bool)
    requires table.Ordered() && Totalization(ek).Ok?
    modifies table
    ensures table.Ordered()
    ensures isNew <==> ek !in old(table.entries)
    ensures table.entries == if isNew then old(table.entries)[ek := MintermEntry(ek)] else old(table.entries)
  {
    isNew := ek !in table.entries;
    if isNew {
      var ts := TotalizeKey(ek);
      table.Put(ek, Implicant(false, {ek}, {ek} + ts.value));
    }
  }

  /** `list(s)`: the elements of a set, each once, in the order the set yields them. */
  method ListOf(s: set<nat>) returns (xs: seq<nat>)
    ensures NoDuplicates(xs) && forall x :: x in xs <==> x in s
  {
    xs := [];
    var rest := s;
    while rest != {}
      invariant NoDuplicates(xs)
      invariant forall x :: x in xs <==> x in s && x !in rest
      invariant rest <= s
      decreases rest
    {
      var x :| x in rest;
      xs := xs + [x];
      rest := rest - {x};
    }
  }

  /** How many elements of `xs` lie outside `keys`. */
  function CountOutside(xs: seq<nat>, keys: set<nat>): nat
  {
    if |xs| == 0 then 0
    else CountOutside(xs[..|xs| - 1], keys) + (if xs[|xs| - 1] in keys then 0 else 1)
  }

  /** Without duplicates, that is the size of the part of `xs` outside `keys`. */
  lemma {:induction false} CountOutsideSize(xs: seq<nat>, keys: set<nat>)
    requires NoDuplicates(xs)
    ensures CountOutside(xs, keys) == |Elems(xs) - keys|
    decreases |xs|
  {
    if |xs| > 0 {
      var init, last := xs[..|xs| - 1], xs[|xs| - 1];
      assert NoDuplicates(init);
      CountOutsideSize(init, keys);
      assert last !in Elems(init);
      assert Elems(xs) == Elems(init) + {last};
      OutsideAdd(Elems(init), last, keys);
    } else {
      assert Elems(xs) == {};
    }
  }

  /** A new element adds one to the part outside `keys` exactly when it is outside `keys`. */
  lemma OutsideAdd(s: set<nat>, x: nat, keys: set<nat>)
    requires x !in s
    ensures |(s + {x}) - keys| == |s - keys| + (if x in keys then 0 else 1)
  {
    var d0 := s - keys;
    if x in keys {
      assert (s + {x}) - keys == d0;
    } else {
      assert (s + {x}) - keys == d0 + {x};
      assert x !in d0;
    }
  }

  /**
   * The `for ek in expanded_list` loop: every minterm of `e` missing from the table is
   * inserted; `added` counts them.
   */
  method InsertMinterms(table: MintermTable, e: set<nat>) returns (added: nat)
    requires table.Ordered()
    requires forall c :: c in e ==> Totalization(c).Ok?
    modifies table
    ensures table.Ordered()
    ensures table.entries == WithMinterms(old(table.entries), e, MintermEntry)
    ensures added == |e - old(table.entries).Keys|
  {
    ghost var e0 := table.entries;
    var expandedList := ListOf(e);
    added := 0;
    for i := 0 to |expandedList|
      invariant table.Ordered()
      invariant table.entries == InsertEach(e0, expandedList[..i], MintermEntry)
      invariant added == CountOutside(expandedList[..i], e0.Keys)
    {
      var ek := expandedList[i];
      ghost var before, after := expandedList[..i], expandedList[..i + 1];
      assert after[..i] == before && after[i] == ek;
      assert ek !in before;
      InsertEachMember(e0, before, MintermEntry, ek);
      var isNew := InsertMinterm(table, ek);
      if isNew {
        added := added + 1;
      }
    }
    ghost var all := Elems(expandedList);
    assert all == e;
    assert expandedList[..|expandedList|] == expandedList;
    assert table.entries == InsertEach(e0, expandedList, MintermEntry);
    InsertEachAll(e0, expandedList, MintermEntry);
    CountOutsideSize(expandedList, e0.Keys);
    assert table.entries == WithMinterms(e0, all, MintermEntry);
  }

  /** `get_weight(k) > 0`, which is false when the weight table meets an unknown digit. */
  method IsAggregated(k: nat) returns (b: bool)
    ensures b == Aggregated(k)
  {
    var w := LaneSum(Weight, k);
    b := w.Ok? && w.value > 0;
  }

  /** `expanded`: the covers of the aggregated operands. */
  method ExpandedCovers(table: MintermTable, k1: nat, k2: nat, a1: bool, a2: bool) returns (expanded: set<nat>)
    requires k1 in table.entries && k2 in table.entries
    requires a1 == Aggregated(k1) && a2 == Aggregated(k2)
    ensures expanded == Expanded(table.entries, k1, k2, Aggregated)
  {
    expanded := {};
    if a1 {
      expanded := expanded + table.entries[k1].covers;
    }
    if a2 {
      expanded := expanded + table.entries[k2].covers;
    }
  }

  /** `delete_list.append` of the aggregated operands, once something was added. */
  method Queued(k1: nat, k2: nat, a1: bool, a2: bool, added: nat) returns (queue: seq<nat>)
    requires a1 == Aggregated(k1) && a2 == Aggregated(k2)
    ensures queue == if added > 0 then AggregatedOf(k1, k2, Aggregated) else []
  {
    queue := [];
    if added > 0 {
      if a1 {
        queue := queue + [k1];
      }
      if a2 {
        queue := queue + [k2];
      }
    }
  }

  /** Every minterm a pair expands to totalizes. */
  lemma ExpandedTotalize(entries: map<nat, Implicant>, a: nat, b: nat, n: nat)
    requires AllWellFormed(entries, n) && a in entries && b in entries
    ensures forall c :: c in Expanded(entries, a, b, Aggregated) ==> Totalization(c).Ok?
  {
    ExpandedMinterms(entries, a, b, Aggregated, n);
    forall c | c in Expanded(entries, a, b, Aggregated) ensures Totalization(c).Ok? {
      TotalizationLanes(c, n);
    }
  }

  /**
   * The body of `if partial:`: the covers of the aggregated keys among `k1` and `k2` are
   * inserted, and those keys are queued when that added something.
   */
  method ExpandAggregates(table: MintermTable, k1: nat, k2: nat, ghost n: nat) returns (queue: seq<nat>, added: nat)
    requires table.Ordered() && AllWellFormed(table.entries, n)
    requires k1 in table.entries && k2 in table.entries
    modifies table
    ensures table.Ordered()
    ensures var e := Expanded(old(table.entries), k1, k2, Aggregated);
      table.entries == WithMinterms(old(table.entries), e, MintermEntry) && added == |e - old(table.entries).Keys| &&
      queue == if added > 0 then AggregatedOf(k1, k2, Aggregated) else []
  {
    var a1 := IsAggregated(k1);
    var a2 := IsAggregated(k2);
    var expanded := ExpandedCovers(table, k1, k2, a1, a2);
    ExpandedTotalize(table.entries, k1, k2, n);
    added := InsertMinterms(table, expanded);
    queue := Queued(k1, k2, a1, a2, added);
  }

  /** One turn of `for k1, k2 in combinations(minkeys, 2)`; `queue` is what it adds to the delete list. */
  method ExpandPair(table: MintermTable, v: Variant, k1: nat, k2: nat, ghost s: Scan, ghost n: nat) returns (queue: seq<nat>, added: nat)
    requires table.Ordered() && table.entries == s.entries && AllWellFormed(s.entries, n)
    requires k1 in s.entries && k2 in s.entries
    modifies table
    ensures table.Ordered()
    ensures var t := ScanPair(s, k1, k2, PairLoopChecks(v));
      table.entries == t.entries && t.queued == s.queued + queue && t.count == s.count + added
  {
    ghost var ch := PairLoopChecks(v);
    var partial;
    if v == Hat {
      partial := CheckPartialAdj(k1, k2);
    } else {
      partial := CheckPartialAdjMasked(k1, k2);
    }
    assert partial == ch.partial(k1, k2);
    if partial {
      queue, added := ExpandAggregates(table, k1, k2, n);
    } else {
      queue, added := [], 0;
    }
  }
  /** The `for k1, k2 in combinations(minkeys, 2)` loop, over the pairs `pairs`. */
  method ScanAll(table: MintermTable, v: Variant, pairs: seq<(nat, nat)>, ghost n: nat) returns (deleteList: seq<nat>, expCount: nat)
    requires table.Ordered() && AllWellFormed(table.entries, n) && PairsIn(pairs, table.entries)
    modifies table
    ensures table.Ordered()
    ensures var s := ScanPairs(old(table.entries), pairs, PairLoopChecks(v));
      table.entries == s.entries && deleteList == s.queued && expCount == s.count
  {
    ghost var e0 := table.entries;
    ghost var ch := PairLoopChecks(v);
    PairLoopChecksFit(v, n);
    deleteList, expCount := [], 0;
    for p := 0 to |pairs|
      invariant table.Ordered()
      invariant var s := ScanPairs(e0, pairs[..p], ch);
        table.entries == s.entries && deleteList == s.queued && expCount == s.count
    {
      ghost var s := ScanPairs(e0, pairs[..p], ch);
      PairsInPrefix(pairs, p, e0);
      ScanWellFormed(e0, pairs[..p], ch, n);
      ScanKeeps(e0, pairs[..p], ch);
      assert pairs[p] in pairs;
      var (k1, k2) := pairs[p];
      var queue, added := ExpandPair(table, v, k1, k2, s, n);
      deleteList := deleteList + queue;
      expCount := expCount + added;
      assert pairs[..p + 1][..p] == pairs[..p];
    }
    assert pairs[..|pairs|] == pairs;
  }

  /** `for k in delete_list: minterm_dict.pop(k, None)`. */
  method DeleteAll(table: MintermTable, deleteList: seq<nat>)
    requires table.Ordered()
    modifies table
    ensures table.Ordered()
    ensures table.entries == old(table.entries) - set k | k in deleteList
  {
    ghost var e0 := table.entries;
    for d := 0 to |deleteList|
      invariant table.Ordered()
      invariant table.entries == e0 - set k | k in deleteList[..d]
    {
      ghost var before, after := deleteList[..d], deleteList[..d + 1];
      assert after == before + [deleteList[d]];
      assert (set k | k in after) == (set k | k in before) + {deleteList[d]};
      table.Pop(deleteList[d]);
    }
    assert deleteList[..|deleteList|] == deleteList;
  }

  /**
   * The expansion step of one round (minish_hat.py:446-479): every pair of unmarked keys
   * whose check_partial_adj holds has the covers of its aggregated keys inserted as
   * minterms, and the aggregates that gained something are dropped. The table stays well
   * formed and covers the same minterms.
   */
  method ExpansionStep(table: MintermTable, v: Variant, ghost n: nat) returns (expCount: nat)
    requires table.Valid(n)
    modifies table
    ensures table.Valid(n)
    ensures var ps := Combinations(old(table.Unmarked()));
      table.entries == Expansion(old(table.entries), ps, PairLoopChecks(v)) &&
      expCount == ScanPairs(old(table.entries), ps, PairLoopChecks(v)).count
    ensures AllCovers(table.entries) == AllCovers(old(table.entries))
  {
    ghost var e0 := table.entries;
    var minkeys := table.Unmarked();
    var pairs := Combinations(minkeys);
    assert PairsIn(pairs, e0);
    var deleteList;
    deleteList, expCount := ScanAll(table, v, pairs, n);
    DeleteAll(table, deleteList);
    PairLoopChecksFit(v, n);
    ExpansionWellFormed(e0, pairs, PairLoopChecks(v), n);
  }
}
