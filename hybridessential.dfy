/**
 * The extraction of essential primes in hybrid-minterms.py: passes over the minterms of
 * `cover_dict` not yet used; a minterm with a single coverer makes that prime essential,
 * and every minterm the prime covers is marked used, until a pass finds nothing new or
 * every minterm is used.
 */
module HybridEssential {
  import opened Wrappers
  import opened HybridLoop
  import opened HybridCover

  /** An entry of `essential_implicates`: the label and the extended cover of the prime. */
  datatype Essential = Essential(lbl: string, covers: set<nat>)

  /** What the extraction changes: `cover_dict`, `extended_cover_unmarked`, `essential_implicates`. */
  datatype Extraction = Extraction(cd: Dict<Ids, Covered>, ext: Dict<Ids, Prime>, ess: Dict<Ids, Essential>)

  /** How the ids an essential prime covers are marked used. */
  datatype Marking =
    | AsWritten  // `cover_dict[frozenset([minid])]` for every id of the extended cover
    | Guarded    // only the ids whose singleton is a minterm of `cover_dict`

  /** The minterm `k` is `frozenset([minid])` for an id of `cov`. */
  predicate Hit(k: Ids, cov: set<nat>)
  {
    |k| == 1 && k <= cov
  }

  /** A set of one element is the singleton of that element. */
  lemma Singleton(k: Ids, y: nat)
    requires |k| == 1 && y in k
    ensures k == {y}
  {
    var rest := k - {y};
    assert k == rest + {y};
    assert |rest| == 0;
  }

  /** A hit is exactly the singleton of an id of the cover. */
  lemma HitMeaning(k: Ids, cov: set<nat>)
    ensures Hit(k, cov) <==> exists x :: x in cov && k == {x}
  {
    if Hit(k, cov) {
      var y :| y in k;
      Singleton(k, y);
      assert y in cov && k == {y};
    }
  }

  /** Adding one id to the cover adds its singleton to the hits. */
  lemma HitAdd(k: Ids, s: set<nat>, x: nat)
    ensures Hit(k, s + {x}) <==> Hit(k, s) || k == {x}
  {
    if Hit(k, s + {x}) {
      var y :| y in k;
      Singleton(k, y);
    }
  }

  /**
   * The marking loop of an essential prime with cover `cov`. As written it fails with a
   * KeyError exactly when some id of the cover has no minterm in `cover_dict`; otherwise
   * the minterms used afterwards are those used before and the singletons of the ids of
   * `cov`, and nothing else changes.
   */
  function MarkUsed(cd: Dict<Ids, Covered>, cov: set<nat>, m: Marking): (r: Result<Dict<Ids, Covered>>)
    ensures r.Err? <==> m == AsWritten && exists x :: x in cov && {x} !in cd.items
    ensures r.Err? ==> r.fault == KeyError
    ensures r.Ok? ==> r.value.order == cd.order && r.value.items.Keys == cd.items.Keys
    ensures r.Ok? ==> forall k :: k in cd.items ==>
      r.value.items[k].coveredBy == cd.items[k].coveredBy && r.value.items[k].lbl == cd.items[k].lbl &&
      (r.value.items[k].used <==> cd.items[k].used || exists x :: x in cov && k == {x})
  {
    assert forall k :: Hit(k, cov) <==> exists x :: x in cov && k == {x} by {
      forall k: Ids {
        HitMeaning(k, cov);
      }
    }
    if m == AsWritten && exists x :: x in cov && {x} !in cd.items then Err(KeyError)
    else Ok(Dict(cd.order, map k | k in cd.items :: cd.items[k].(used := cd.items[k].used || Hit(k, cov))))
  }

  /** `for minid in list(essential_cover)`, marking `cover_dict[frozenset([minid])]` used. */
  method MarkCovered(cd: Dict<Ids, Covered>, cov: set<nat>, m: Marking) returns (r: Result<Dict<Ids, Covered>>)
    ensures r == MarkUsed(cd, cov, m)
  {
    var cur := cd;
    var left := cov;
    while left != {}
      invariant left <= cov
      invariant m == AsWritten ==> forall x :: x in cov - left ==> {x} in cd.items
      invariant cur == Dict(cd.order, map k | k in cd.items :: cd.items[k].(used := cd.items[k].used || Hit(k, cov - left)))
      decreases left
    {
      var x :| x in left;
      ghost var done := cov - left;
      assert cov - (left - {x}) == done + {x};
      forall k | k in cd.items
        ensures Hit(k, done + {x}) <==> Hit(k, done) || k == {x}
      {
        HitAdd(k, done, x);
      }
      if {x} in cur.items {
        cur := Dict(cur.order, cur.items[{x} := cur.items[{x}].(used := true)]);
      } else if m == AsWritten {
        return Err(KeyError);
      }
      left := left - {x};
    }
    assert cov - left == cov;
    return Ok(cur);
  }

  // ---------------------------------------------------------------- invariants

  /**
   * The shape `cover_dict` and the primes have from the cover stage: `cover_dict` is ordered
   * and the primes list their keys; every minterm is a singleton with at least one coverer, and every coverer
   * is a prime whose label it carries and whose extended cover holds the minterm.
   */
  ghost predicate Fits(x: Extraction)
  {
    Ordered(x.cd) && Listed(x.ext) &&
    forall ck :: ck in x.cd.items ==>
      |ck| == 1 && x.cd.items[ck].coveredBy != [] &&
      forall p :: p in x.cd.items[ck].coveredBy ==>
        p.0 in x.ext.items && p.1 == x.ext.items[p.0].lbl && ck <= x.ext.items[p.0].covers
  }

  /** `essential_implicates` holds exactly the primes flagged essential, with their labels and covers. */
  ghost predicate Agreed(x: Extraction)
  {
    Ordered(x.ess) &&
    (forall k :: k in x.ext.items ==> (x.ext.items[k].essential <==> k in x.ess.items)) &&
    forall k :: k in x.ess.items ==>
      k in x.ext.items && x.ess.items[k] == Essential(x.ext.items[k].lbl, x.ext.items[k].covers)
  }

  /** From `x` to `y` only flags change, and a minterm once used stays used. */
  ghost predicate Keeps(x: Extraction, y: Extraction)
  {
    y.cd.order == x.cd.order && y.cd.items.Keys == x.cd.items.Keys &&
    (forall k :: k in x.cd.items ==>
      y.cd.items[k].coveredBy == x.cd.items[k].coveredBy && y.cd.items[k].lbl == x.cd.items[k].lbl &&
      (x.cd.items[k].used ==> y.cd.items[k].used)) &&
    y.ext.order == x.ext.order && y.ext.items.Keys == x.ext.items.Keys &&
    forall k :: k in x.ext.items ==> y.ext.items[k].lbl == x.ext.items[k].lbl && y.ext.items[k].covers == x.ext.items[k].covers
  }

  lemma KeepsFits(x: Extraction, y: Extraction)
    requires Fits(x) && Keeps(x, y)
    ensures Fits(y)
  {
  }

  lemma KeepsTrans(x: Extraction, y: Extraction, z: Extraction)
    requires Keeps(x, y) && Keeps(y, z)
    ensures Keeps(x, z)
  {
  }

  // ---------------------------------------------------------------- one pass

  /** One unused minterm with coverers `cb`: a single coverer becomes essential and marks what it covers. */
  function Process(x: Extraction, cb: seq<(Ids, string)>, m: Marking): Result<Extraction>
  {
    if |cb| != 1 then Ok(x)
    else
      var ek, ev := cb[0].0, cb[0].1;
      if ek !in x.ext.items then Err(KeyError)
      else
        var cov := x.ext.items[ek].covers;
        match MarkUsed(x.cd, cov, m)
        case Err(f) => Err(f)
        case Ok(cd) =>
          Ok(Extraction(cd, Dict(x.ext.order, x.ext.items[ek := x.ext.items[ek].(essential := true)]),
                        Put(x.ess, ek, Essential(ev, cov))))
  }

  /** Processing a minterm changes only flags, and guarded it cannot fail. */
  lemma ProcessKeeps(x: Extraction, ck: Ids, m: Marking)
    requires Fits(x) && ck in x.cd.items
    ensures var r := Process(x, x.cd.items[ck].coveredBy, m);
      (m == Guarded ==> r.Ok?) && (r.Ok? ==> Keeps(x, r.value))
  {
    var cb := x.cd.items[ck].coveredBy;
    if |cb| == 1 {
      assert cb[0] in cb;
    }
  }

  /** Processing a minterm keeps `essential_implicates` in step with the essential flags. */
  lemma ProcessAgreed(x: Extraction, ck: Ids, m: Marking)
    requires Fits(x) && Agreed(x) && ck in x.cd.items
    ensures var r := Process(x, x.cd.items[ck].coveredBy, m);
      r.Ok? ==> Agreed(r.value)
  {
    var cb := x.cd.items[ck].coveredBy;
    if |cb| == 1 {
      assert cb[0] in cb;
      var ek, ev := cb[0].0, cb[0].1;
      var cov := x.ext.items[ek].covers;
      var mk := MarkUsed(x.cd, cov, m);
      if mk.Ok? {
        var y := Extraction(mk.value, Dict(x.ext.order, x.ext.items[ek := x.ext.items[ek].(essential := true)]),
                            Put(x.ess, ek, Essential(ev, cov)));
        assert Process(x, cb, m) == Ok(y);
        PutOrdered(x.ess, ek, Essential(ev, cov));
      }
    }
  }

  /** A minterm with a single coverer is used once it has been processed. */
  lemma ProcessUses(x: Extraction, ck: Ids, m: Marking)
    requires Fits(x) && ck in x.cd.items
    ensures var cb := x.cd.items[ck].coveredBy;
      var r := Process(x, cb, m);
      |cb| == 1 && r.Ok? ==> r.value.cd.items[ck].used
  {
    var cb := x.cd.items[ck].coveredBy;
    if |cb| == 1 {
      assert cb[0] in cb;
      var cov := x.ext.items[cb[0].0].covers;
      var z :| z in ck;
      Singleton(ck, z);
      assert z in cov && ck == {z};
    }
  }

  /** The minterms of a snapshot, each with its coverers. */
  type Snapshot = seq<(Ids, seq<(Ids, string)>)>

  /** The `for ck, cv in unused_cover_dict.items()` loop, counting the minterms with one coverer. */
  function PassFrom(x: Extraction, count: nat, snap: Snapshot, j: nat, m: Marking): Result<(Extraction, nat)>
    requires j <= |snap|
    decreases |snap| - j
  {
    if j == |snap| then Ok((x, count))
    else
      match Process(x, snap[j].1, m)
      case Err(f) => Err(f)
      case Ok(x1) => PassFrom(x1, count + (if |snap[j].1| == 1 then 1 else 0), snap, j + 1, m)
  }

  /** The minterms of `snap[j..]` with a single coverer. */
  function Singles(snap: Snapshot, j: nat): (r: nat)
    requires j <= |snap|
    ensures r <= |snap| - j
    decreases |snap| - j
  {
    if j == |snap| then 0 else (if |snap[j].1| == 1 then 1 else 0) + Singles(snap, j + 1)
  }

  /** Some minterm of the snapshot has a single coverer exactly when `Singles` is not zero. */
  lemma {:induction false} SinglesMeaning(snap: Snapshot, j: nat)
    requires j <= |snap|
    ensures Singles(snap, j) != 0 <==> exists i :: j <= i < |snap| && |snap[i].1| == 1
    decreases |snap| - j
  {
    if j < |snap| {
      SinglesMeaning(snap, j + 1);
      if Singles(snap, j) != 0 && |snap[j].1| != 1 {
        var i :| j + 1 <= i < |snap| && |snap[i].1| == 1;
      }
    }
  }

  /** A pass adds to `essential_count` one for every minterm with a single coverer. */
  lemma {:induction false} PassCount(x: Extraction, count: nat, snap: Snapshot, j: nat, m: Marking)
    requires j <= |snap|
    ensures PassFrom(x, count, snap, j, m).Ok? ==> PassFrom(x, count, snap, j, m).value.1 == count + Singles(snap, j)
    decreases |snap| - j
  {
    if j < |snap| {
      match Process(x, snap[j].1, m)
      case Err(_) =>
      case Ok(x1) =>
        PassCount(x1, count + (if |snap[j].1| == 1 then 1 else 0), snap, j + 1, m);
    }
  }

  /** A pass that meets no minterm with a single coverer changes nothing. */
  lemma {:induction false} PassIdle(x: Extraction, count: nat, snap: Snapshot, j: nat, m: Marking)
    requires j <= |snap| && Singles(snap, j) == 0
    ensures PassFrom(x, count, snap, j, m) == Ok((x, count))
    decreases |snap| - j
  {
    if j < |snap| {
      assert Process(x, snap[j].1, m) == Ok(x);
      PassIdle(x, count, snap, j + 1, m);
    }
  }

  /** The snapshot lists minterms of `x0` with their coverers. */
  ghost predicate Taken(snap: Snapshot, x0: Extraction)
  {
    forall p :: p in snap ==> p.0 in x0.cd.items && p.1 == x0.cd.items[p.0].coveredBy
  }

  /** A pass over a snapshot of `x0` changes only flags, and guarded it cannot fail. */
  lemma {:induction false} PassKeeps(x0: Extraction, x: Extraction, count: nat, snap: Snapshot, j: nat, m: Marking)
    requires Fits(x0) && Keeps(x0, x) && j <= |snap| && Taken(snap, x0)
    ensures m == Guarded ==> PassFrom(x, count, snap, j, m).Ok?
    ensures PassFrom(x, count, snap, j, m).Ok? ==> Keeps(x, PassFrom(x, count, snap, j, m).value.0)
    decreases |snap| - j
  {
    if j < |snap| {
      assert snap[j] in snap;
      var ck := snap[j].0;
      KeepsFits(x0, x);
      ProcessKeeps(x, ck, m);
      var p := Process(x, snap[j].1, m);
      if p.Ok? {
        var x1 := p.value;
        KeepsTrans(x0, x, x1);
        var c1 := count + (if |snap[j].1| == 1 then 1 else 0);
        assert PassFrom(x, count, snap, j, m) == PassFrom(x1, c1, snap, j + 1, m);
        PassKeeps(x0, x1, c1, snap, j + 1, m);
        if PassFrom(x1, c1, snap, j + 1, m).Ok? {
          KeepsTrans(x, x1, PassFrom(x1, c1, snap, j + 1, m).value.0);
        }
      }
    }
  }

  /** A pass keeps `essential_implicates` in step with the essential flags. */
  lemma {:induction false} PassAgreed(x0: Extraction, x: Extraction, count: nat, snap: Snapshot, j: nat, m: Marking)
    requires Fits(x0) && Keeps(x0, x) && Agreed(x) && j <= |snap| && Taken(snap, x0)
    ensures PassFrom(x, count, snap, j, m).Ok? ==> Agreed(PassFrom(x, count, snap, j, m).value.0)
    decreases |snap| - j
  {
    if j < |snap| {
      assert snap[j] in snap;
      var ck := snap[j].0;
      KeepsFits(x0, x);
      ProcessKeeps(x, ck, m);
      ProcessAgreed(x, ck, m);
      var p := Process(x, snap[j].1, m);
      if p.Ok? {
        var x1 := p.value;
        KeepsTrans(x0, x, x1);
        var c1 := count + (if |snap[j].1| == 1 then 1 else 0);
        assert PassFrom(x, count, snap, j, m) == PassFrom(x1, c1, snap, j + 1, m);
        PassAgreed(x0, x1, c1, snap, j + 1, m);
      }
    }
  }

  /** Every minterm of `snap[j..]` with a single coverer is used in `cd`. */
  ghost predicate UsedAll(snap: Snapshot, j: nat, cd: Dict<Ids, Covered>)
  {
    forall i :: j <= i < |snap| && |snap[i].1| == 1 ==> snap[i].0 !in UnusedSet(cd)
  }

  /** A minterm used before the rest of the pass stays used after it. */
  lemma UsedStays(snap: Snapshot, j: nat, x: Extraction, y: Extraction)
    requires j < |snap| && Keeps(x, y) && UsedAll(snap, j + 1, y.cd)
    requires |snap[j].1| == 1 ==> snap[j].0 in x.cd.items && x.cd.items[snap[j].0].used
    ensures UsedAll(snap, j, y.cd)
  {
  }

  /** Position `j` of the pass: what it processes keeps the shape of `x0`, and a single coverer uses its minterm. */
  lemma PassStep(x0: Extraction, x: Extraction, snap: Snapshot, j: nat, m: Marking)
    requires Fits(x0) && Keeps(x0, x) && j < |snap| && Taken(snap, x0)
    ensures var p := Process(x, snap[j].1, m);
      p.Ok? ==> (Keeps(x0, p.value) && Keeps(x, p.value) &&
                 (|snap[j].1| == 1 ==> snap[j].0 in x.cd.items && p.value.cd.items[snap[j].0].used))
  {
    assert snap[j] in snap;
    var ck := snap[j].0;
    KeepsFits(x0, x);
    ProcessKeeps(x, ck, m);
    ProcessUses(x, ck, m);
    var p := Process(x, snap[j].1, m);
    if p.Ok? {
      KeepsTrans(x0, x, p.value);
    }
  }

  /** After a pass every minterm of the snapshot with a single coverer is used. */
  lemma {:induction false} PassUses(x0: Extraction, x: Extraction, count: nat, snap: Snapshot, j: nat, m: Marking)
    requires Fits(x0) && Keeps(x0, x) && j <= |snap| && Taken(snap, x0)
    ensures PassFrom(x, count, snap, j, m).Ok? ==> UsedAll(snap, j, PassFrom(x, count, snap, j, m).value.0.cd)
    decreases |snap| - j
  {
    if j < |snap| {
      PassStep(x0, x, snap, j, m);
      var p := Process(x, snap[j].1, m);
      if p.Ok? {
        var x1 := p.value;
        var c1 := count + (if |snap[j].1| == 1 then 1 else 0);
        assert PassFrom(x, count, snap, j, m) == PassFrom(x1, c1, snap, j + 1, m);
        PassUses(x0, x1, c1, snap, j + 1, m);
        PassKeeps(x0, x1, c1, snap, j + 1, m);
        var q := PassFrom(x1, c1, snap, j + 1, m);
        if q.Ok? {
          UsedStays(snap, j, x1, q.value.0);
        }
      }
    }
  }

  // ---------------------------------------------------------------- the while loop

  /** `unused_cover_dict`, in the order of `cover_dict`: the minterms not yet used, with their coverers. */
  function UnusedFrom(ks: seq<Ids>, items: map<Ids, Covered>): Snapshot
    requires forall k :: k in ks ==> k in items
    decreases |ks|
  {
    if |ks| == 0 then []
    else
      var rest, k := ks[..|ks| - 1], ks[|ks| - 1];
      assert forall a :: a in rest ==> a in ks;
      var un := UnusedFrom(rest, items);
      if items[k].used then un else un + [(k, items[k].coveredBy)]
  }

  /** The snapshot holds the unused minterms of `ks` with their coverers, and no other entry. */
  lemma {:induction false} UnusedFromMeaning(ks: seq<Ids>, items: map<Ids, Covered>)
    requires forall k :: k in ks ==> k in items
    ensures forall p :: p in UnusedFrom(ks, items) ==> p.0 in ks && !items[p.0].used && p.1 == items[p.0].coveredBy
    ensures forall k :: k in ks && !items[k].used ==> (k, items[k].coveredBy) in UnusedFrom(ks, items)
    decreases |ks|
  {
    if |ks| > 0 {
      var rest, k := ks[..|ks| - 1], ks[|ks| - 1];
      assert forall a :: a in rest ==> a in ks;
      assert forall a :: a in ks ==> a in rest || a == k;
      UnusedFromMeaning(rest, items);
    }
  }

  function UnusedOf(cd: Dict<Ids, Covered>): Snapshot
    requires Listed(cd)
  {
    UnusedFrom(cd.order, cd.items)
  }

  /** The minterms not yet used; the measure of the extraction loop. */
  ghost function UnusedSet(cd: Dict<Ids, Covered>): set<Ids>
  {
    set k | k in cd.items && !cd.items[k].used
  }

  /** The snapshot of `cover_dict` lists its unused minterms. */
  lemma UnusedTaken(x: Extraction)
    requires Ordered(x.cd)
    ensures Taken(UnusedOf(x.cd), x)
    ensures forall p :: p in UnusedOf(x.cd) ==> p.0 in UnusedSet(x.cd)
    ensures UnusedOf(x.cd) == [] <==> UnusedSet(x.cd) == {}
  {
    UnusedFromMeaning(x.cd.order, x.cd.items);
    if UnusedSet(x.cd) != {} {
      var k :| k in UnusedSet(x.cd);
      assert k in x.cd.order;
      assert (k, x.cd.items[k].coveredBy) in UnusedOf(x.cd);
    }
    if UnusedOf(x.cd) != [] {
      assert UnusedOf(x.cd)[0] in UnusedOf(x.cd);
    }
  }

  /** A minterm unused in `x` and used in a later state `y` shrinks the unused set. */
  lemma UsedShrinks(x: Extraction, y: Extraction, k: Ids)
    requires Keeps(x, y) && k in UnusedSet(x.cd) && k !in UnusedSet(y.cd)
    ensures |UnusedSet(y.cd)| < |UnusedSet(x.cd)|
  {
    var ux, uy := UnusedSet(x.cd), UnusedSet(y.cd);
    forall a | a in uy
      ensures a in ux
    {
      assert a in x.cd.items;
    }
    assert ux == uy + (ux - uy);
    assert |ux - uy| >= 1 by {
      assert k in ux - uy;
    }
  }

  /** A pass that counts an essential prime uses up at least one minterm that was unused. */
  lemma PassProgress(x: Extraction, m: Marking)
    requires Fits(x) && Agreed(x)
    ensures var p := PassFrom(x, 0, UnusedOf(x.cd), 0, m);
      p.Ok? && p.value.1 != 0 ==>
        Fits(p.value.0) && Agreed(p.value.0) && |UnusedSet(p.value.0.cd)| < |UnusedSet(x.cd)|
  {
    var un := UnusedOf(x.cd);
    UnusedTaken(x);
    PassCount(x, 0, un, 0, m);
    PassKeeps(x, x, 0, un, 0, m);
    PassAgreed(x, x, 0, un, 0, m);
    PassUses(x, x, 0, un, 0, m);
    var p := PassFrom(x, 0, un, 0, m);
    if p.Ok? && p.value.1 != 0 {
      var y := p.value.0;
      KeepsFits(x, y);
      SinglesMeaning(un, 0);
      var i :| 0 <= i < |un| && |un[i].1| == 1;
      assert un[i] in un;
      assert un[i].0 !in UnusedSet(y.cd);
      UsedShrinks(x, y, un[i].0);
    }
  }

  /** How the extraction ended: with every minterm used, or with the last snapshot of unused ones. */
  datatype Ending = Ending(full: bool, unused: Snapshot, x: Extraction)

  /** The `while True` loop: passes until every minterm is used or a pass finds no essential prime. */
  function Extract(x: Extraction, m: Marking): Result<Ending>
    requires Fits(x) && Agreed(x)
    decreases |UnusedSet(x.cd)|
  {
    var un := UnusedOf(x.cd);
    if un == [] then Ok(Ending(true, un, x))
    else
      match PassFrom(x, 0, un, 0, m)
      case Err(f) => Err(f)
      case Ok(res) =>
        if res.1 == 0 then Ok(Ending(false, un, res.0))
        else
          PassProgress(x, m);
          Extract(res.0, m)
  }

  /** The extraction changes only flags, keeps the invariants and, guarded, cannot fail. */
  lemma {:induction false} ExtractKeeps(x: Extraction, m: Marking)
    requires Fits(x) && Agreed(x)
    ensures m == Guarded ==> Extract(x, m).Ok?
    ensures Extract(x, m).Ok? ==>
      var e := Extract(x, m).value;
      Keeps(x, e.x) && Fits(e.x) && Agreed(e.x)
    decreases |UnusedSet(x.cd)|
  {
    var un := UnusedOf(x.cd);
    if un != [] {
      UnusedTaken(x);
      PassKeeps(x, x, 0, un, 0, m);
      var p := PassFrom(x, 0, un, 0, m);
      if p.Ok? {
        var res := p.value;
        if res.1 == 0 {
          PassCount(x, 0, un, 0, m);
          PassIdle(x, 0, un, 0, m);
          assert Extract(x, m) == Ok(Ending(false, un, x));
        } else {
          PassProgress(x, m);
          assert Extract(x, m) == Extract(res.0, m);
          ExtractKeeps(res.0, m);
          if Extract(res.0, m).Ok? {
            KeepsTrans(x, res.0, Extract(res.0, m).value.x);
          }
        }
      }
    }
  }

  /**
   * How the extraction ends. With full coverage every minterm is used; otherwise the last
   * snapshot lists the unused minterms, and each has two or more coverers, so no prime is
   * essential for it.
   */
  lemma {:induction false} ExtractEnds(x: Extraction, m: Marking)
    requires Fits(x) && Agreed(x)
    ensures Extract(x, m).Ok? ==>
      var e := Extract(x, m).value;
      Listed(e.x.cd) && e.unused == UnusedOf(e.x.cd) &&
      (e.full ==> forall k :: k in e.x.cd.items ==> e.x.cd.items[k].used) &&
      (!e.full ==> e.unused != [] && forall p :: p in e.unused ==> |p.1| >= 2)
    decreases |UnusedSet(x.cd)|
  {
    var un := UnusedOf(x.cd);
    UnusedTaken(x);
    if un != [] {
      var p := PassFrom(x, 0, un, 0, m);
      if p.Ok? {
        var res := p.value;
        if res.1 == 0 {
          PassCount(x, 0, un, 0, m);
          PassIdle(x, 0, un, 0, m);
          SinglesMeaning(un, 0);
          assert Extract(x, m) == Ok(Ending(false, un, x));
          forall q | q in un
            ensures |q.1| >= 2
          {
            var i :| 0 <= i < |un| && un[i] == q;
          }
        } else {
          PassProgress(x, m);
          assert Extract(x, m) == Extract(res.0, m);
          ExtractEnds(res.0, m);
        }
      }
    } else {
      assert Extract(x, m) == Ok(Ending(true, un, x));
      forall k | k in x.cd.items
        ensures x.cd.items[k].used
      {
        assert k !in UnusedSet(x.cd);
      }
    }
  }

  // ---------------------------------------------------------------- what the essentials cover

  /** Every used minterm lies in the cover of a prime of `essential_implicates`. */
  ghost predicate Covering(x: Extraction)
  {
    forall k :: k in x.cd.items && x.cd.items[k].used ==>
      exists e :: e in x.ess.items && k <= x.ess.items[e].covers
  }

  /** Processing a minterm marks used only what the prime it makes essential covers. */
  lemma ProcessCovering(x: Extraction, ck: Ids, m: Marking)
    requires Fits(x) && Agreed(x) && Covering(x) && ck in x.cd.items
    ensures var r := Process(x, x.cd.items[ck].coveredBy, m);
      r.Ok? ==> Covering(r.value)
  {
    var cb := x.cd.items[ck].coveredBy;
    if |cb| == 1 {
      assert cb[0] in cb;
      var ek, ev := cb[0].0, cb[0].1;
      var cov := x.ext.items[ek].covers;
      var mk := MarkUsed(x.cd, cov, m);
      if mk.Ok? {
        var ess := Put(x.ess, ek, Essential(ev, cov));
        var y := Extraction(mk.value, Dict(x.ext.order, x.ext.items[ek := x.ext.items[ek].(essential := true)]), ess);
        assert Process(x, cb, m) == Ok(y);
        assert ek in ess.items && ess.items[ek].covers == cov;
        forall k | k in y.cd.items && y.cd.items[k].used
          ensures exists e :: e in ess.items && k <= ess.items[e].covers
        {
          if x.cd.items[k].used {
            var e :| e in x.ess.items && k <= x.ess.items[e].covers;
            assert e in ess.items && ess.items[e].covers == x.ess.items[e].covers;
          } else {
            var z :| z in cov && k == {z};
            assert k <= ess.items[ek].covers;
          }
        }
      }
    }
  }

  /** A pass keeps every used minterm covered by an essential prime. */
  lemma {:induction false} PassCovering(x0: Extraction, x: Extraction, count: nat, snap: Snapshot, j: nat, m: Marking)
    requires Fits(x0) && Keeps(x0, x) && Agreed(x) && Covering(x) && j <= |snap| && Taken(snap, x0)
    ensures PassFrom(x, count, snap, j, m).Ok? ==> Covering(PassFrom(x, count, snap, j, m).value.0)
    decreases |snap| - j
  {
    if j < |snap| {
      assert snap[j] in snap;
      var ck := snap[j].0;
      KeepsFits(x0, x);
      ProcessKeeps(x, ck, m);
      ProcessAgreed(x, ck, m);
      ProcessCovering(x, ck, m);
      var p := Process(x, snap[j].1, m);
      if p.Ok? {
        var x1 := p.value;
        KeepsTrans(x0, x, x1);
        var c1 := count + (if |snap[j].1| == 1 then 1 else 0);
        assert PassFrom(x, count, snap, j, m) == PassFrom(x1, c1, snap, j + 1, m);
        PassCovering(x0, x1, c1, snap, j + 1, m);
      }
    }
  }

  /**
   * The extraction keeps every used minterm covered by an essential prime; so with full
   * coverage every minterm of `cover_dict` lies in the cover of an essential prime.
   */
  lemma {:induction false} ExtractCovering(x: Extraction, m: Marking)
    requires Fits(x) && Agreed(x) && Covering(x)
    ensures Extract(x, m).Ok? ==> Covering(Extract(x, m).value.x)
    ensures Extract(x, m).Ok? && Extract(x, m).value.full ==>
      var y := Extract(x, m).value.x;
      forall k :: k in y.cd.items ==> exists e :: e in y.ess.items && k <= y.ess.items[e].covers
    decreases |UnusedSet(x.cd)|
  {
    ExtractEnds(x, m);
    var un := UnusedOf(x.cd);
    if un != [] {
      UnusedTaken(x);
      PassKeeps(x, x, 0, un, 0, m);
      PassCovering(x, x, 0, un, 0, m);
      var p := PassFrom(x, 0, un, 0, m);
      if p.Ok? && p.value.1 != 0 {
        PassProgress(x, m);
        assert Extract(x, m) == Extract(p.value.0, m);
        ExtractCovering(p.value.0, m);
      }
    }
  }

  // ---------------------------------------------------------------- the marking as written

  /** A pass that succeeds as written is the guarded pass: the guard only removes the KeyError. */
  lemma {:induction false} PassAgrees(x: Extraction, count: nat, snap: Snapshot, j: nat)
    requires j <= |snap|
    ensures PassFrom(x, count, snap, j, AsWritten).Ok? ==> PassFrom(x, count, snap, j, AsWritten) == PassFrom(x, count, snap, j, Guarded)
    decreases |snap| - j
  {
    if j < |snap| {
      var p := Process(x, snap[j].1, AsWritten);
      if p.Ok? {
        assert Process(x, snap[j].1, Guarded) == p;
        PassAgrees(p.value, count + (if |snap[j].1| == 1 then 1 else 0), snap, j + 1);
      }
    }
  }

  /** An extraction that succeeds as written is the guarded extraction. */
  lemma {:induction false} ExtractAgrees(x: Extraction)
    requires Fits(x) && Agreed(x)
    ensures Extract(x, AsWritten).Ok? ==> Extract(x, AsWritten) == Extract(x, Guarded)
    decreases |UnusedSet(x.cd)|
  {
    var un := UnusedOf(x.cd);
    if un != [] {
      PassAgrees(x, 0, un, 0);
      var p := PassFrom(x, 0, un, 0, AsWritten);
      if p.Ok? && p.value.1 != 0 {
        PassProgress(x, AsWritten);
        ExtractAgrees(p.value.0);
      }
    }
  }

  /** One pass of the extraction loop over the snapshot `un`: the `for ck, cv` loop. */
  method RunPass(x: Extraction, un: Snapshot, m: Marking) returns (r: Result<(Extraction, nat)>)
    ensures r == PassFrom(x, 0, un, 0, m)
  {
    var next, count := x, 0;
    for j := 0 to |un|
      invariant PassFrom(next, count, un, j, m) == PassFrom(x, 0, un, 0, m)
    {
      var cb := un[j].1;
      if |cb| == 1 {
        count := count + 1;
        var ek, ev := cb[0].0, cb[0].1;
        if ek !in next.ext.items {
          return Err(KeyError);
        }
        var cov := next.ext.items[ek].covers;
        var ess := Put(next.ess, ek, Essential(ev, cov));
        var ext := Dict(next.ext.order, next.ext.items[ek := next.ext.items[ek].(essential := true)]);
        var cd := MarkCovered(next.cd, cov, m);
        if cd.Err? {
          return Err(cd.fault);
        }
        next := Extraction(cd.value, ext, ess);
      }
    }
    return Ok((next, count));
  }

  /** The `while True` extraction loop of hybrid-minterms.py. */
  method ExtractEssentials(x: Extraction, m: Marking) returns (r: Result<Ending>)
    requires Fits(x) && Agreed(x)
    ensures r == Extract(x, m)
  {
    var cur := x;
    while true
      invariant Fits(cur) && Agreed(cur) && Extract(cur, m) == Extract(x, m)
      decreases |UnusedSet(cur.cd)|
    {
      var un := UnusedOf(cur.cd);
      if un == [] {
        return Ok(Ending(true, un, cur));
      }
      var pass := RunPass(cur, un, m);
      if pass.Err? {
        return Err(pass.fault);
      }
      var (next, count) := pass.value;
      if count == 0 {
        return Ok(Ending(false, un, next));
      }
      PassProgress(cur, m);
      cur := next;
    }
  }
}
