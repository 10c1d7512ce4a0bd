/**
 * What hybrid-minterms.py hands to the Petrick solver when the essential primes leave
 * minterms uncovered: the primes not found essential (`prime_left`), the ids of the
 * uncovered minterms (`minids`), each remaining prime's cover limited to those ids
 * (`label_cover`), and the facts `mincover_facts` writes for it.
 */
module HybridPetrick {
  import opened Wrappers
  import opened Numerals
  import opened Text
  import opened Ordering
  import opened HybridLoop
  import opened HybridCover
  import opened HybridEssential

  // ---------------------------------------------------------------- prime_left

  /** The keys of `ks` whose primes are not essential, in order. */
  function LeftKeys(ks: seq<Ids>, items: map<Ids, Prime>): seq<Ids>
    requires forall k :: k in ks ==> k in items
    decreases |ks|
  {
    if |ks| == 0 then []
    else
      var rest, k := ks[..|ks| - 1], ks[|ks| - 1];
      assert forall a :: a in rest ==> a in ks;
      var l := LeftKeys(rest, items);
      if items[k].essential then l else l + [k]
  }

  /** The keys kept are those of `ks` whose primes are not essential. */
  lemma {:induction false} LeftKeysMeaning(ks: seq<Ids>, items: map<Ids, Prime>)
    requires forall k :: k in ks ==> k in items
    ensures forall k :: k in LeftKeys(ks, items) <==> k in ks && !items[k].essential
    decreases |ks|
  {
    if |ks| > 0 {
      var rest, k := ks[..|ks| - 1], ks[|ks| - 1];
      assert forall a :: a in rest ==> a in ks;
      assert forall a :: a in ks ==> a in rest || a == k;
      LeftKeysMeaning(rest, items);
    }
  }

  /** `prime_left`: `{k: v for k, v in extended_cover_unmarked.items() if not v['is_essential']}`. */
  function PrimeLeft(ext: Dict<Ids, Prime>): (r: Dict<Ids, Prime>)
    requires Listed(ext)
  {
    Dict(LeftKeys(ext.order, ext.items), map k | k in ext.items && !ext.items[k].essential :: ext.items[k])
  }

  /** `prime_left` keeps, in order and unchanged, exactly the primes not flagged essential. */
  lemma PrimeLeftMeaning(ext: Dict<Ids, Prime>)
    requires Listed(ext)
    ensures Listed(PrimeLeft(ext))
    ensures forall k :: k in PrimeLeft(ext).order <==> k in ext.order && !ext.items[k].essential
    ensures forall k :: k in PrimeLeft(ext).items <==> k in ext.items && !ext.items[k].essential
    ensures forall k :: k in PrimeLeft(ext).items ==> PrimeLeft(ext).items[k] == ext.items[k]
  {
    LeftKeysMeaning(ext.order, ext.items);
  }

  // ---------------------------------------------------------------- minids

  /**
   * `list(k)[0]`: the first id of a minterm in the order the set is listed (ascending
   * here), an IndexError for the empty set.
   */
  function FirstId(k: Ids): (r: Result<nat>)
    ensures r.Err? <==> |k| == 0
    ensures r.Err? ==> r.fault == IndexError
  {
    if |k| == 0 then Err(IndexError) else Ok(Ascending(k)[0])
  }

  /** The first id is the least id of the minterm. */
  lemma FirstIdLeast(k: Ids)
    requires |k| > 0
    ensures FirstId(k).value in k && forall x :: x in k ==> FirstId(k).value <= x
  {
    var xs := Ascending(k);
    assert xs[0] in xs;
    forall x | x in k
      ensures xs[0] <= x
    {
      var i :| 0 <= i < |xs| && xs[i] == x;
      if i > 0 {
        IncreasingAt(xs, 0, i);
      }
    }
  }

  /** An increasing sequence grows from any position to any later one. */
  lemma {:induction false} IncreasingAt(xs: seq<nat>, i: nat, j: nat)
    requires Increasing(xs) && i < j < |xs|
    ensures xs[i] < xs[j]
    decreases j - i
  {
    if j > i + 1 {
      IncreasingAt(xs, i, j - 1);
    }
  }

  /** The `minids` loop over the minterms of the snapshot `un` from position `j`, adding to `acc`. */
  function MinIdsFrom(acc: set<nat>, un: Snapshot, j: nat): Result<set<nat>>
    requires j <= |un|
    decreases |un| - j
  {
    if j == |un| then Ok(acc)
    else
      match FirstId(un[j].0)
      case Err(f) => Err(f)
      case Ok(x) => MinIdsFrom(acc + {x}, un, j + 1)
  }

  /** The loop fails, with an IndexError, exactly when some minterm from `j` on is empty. */
  lemma {:induction false} MinIdsFails(acc: set<nat>, un: Snapshot, j: nat)
    requires j <= |un|
    ensures MinIdsFrom(acc, un, j).Err? <==> exists i :: j <= i < |un| && |un[i].0| == 0
    ensures MinIdsFrom(acc, un, j).Err? ==> MinIdsFrom(acc, un, j).fault == IndexError
    decreases |un| - j
  {
    if j < |un| && |un[j].0| > 0 {
      var y := FirstId(un[j].0).value;
      assert MinIdsFrom(acc, un, j) == MinIdsFrom(acc + {y}, un, j + 1);
      MinIdsFails(acc + {y}, un, j + 1);
      if MinIdsFrom(acc, un, j).Err? {
        var i :| j + 1 <= i < |un| && |un[i].0| == 0;
      }
    }
  }

  /** When every minterm from `j` on is a singleton, the loop adds exactly their ids. */
  lemma {:induction false} MinIdsCollects(acc: set<nat>, un: Snapshot, j: nat)
    requires j <= |un| && forall i :: j <= i < |un| ==> |un[i].0| == 1
    ensures MinIdsFrom(acc, un, j).Ok?
    ensures forall x :: x in MinIdsFrom(acc, un, j).value <==> x in acc || exists i :: j <= i < |un| && x in un[i].0
    decreases |un| - j
  {
    if j < |un| {
      var k := un[j].0;
      FirstIdLeast(k);
      var y := FirstId(k).value;
      Singleton(k, y);
      assert MinIdsFrom(acc, un, j) == MinIdsFrom(acc + {y}, un, j + 1);
      MinIdsCollects(acc + {y}, un, j + 1);
      CollectStep(acc, y, MinIdsFrom(acc, un, j).value, un, j);
    }
  }

  /** Adding the id of the minterm at `j` extends the ids collected from `j + 1` on to those from `j` on. */
  lemma CollectStep(acc: set<nat>, y: nat, r: set<nat>, un: Snapshot, j: nat)
    requires j < |un| && un[j].0 == {y}
    requires forall x :: x in r <==> x in acc + {y} || exists i :: j + 1 <= i < |un| && x in un[i].0
    ensures forall x :: x in r <==> x in acc || exists i :: j <= i < |un| && x in un[i].0
  {
    forall x | x in r
      ensures x in acc || exists i :: j <= i < |un| && x in un[i].0
    {
      if x == y {
        assert x in un[j].0;
      }
    }
  }

  /** `for k in unused_cover_dict.keys(): minids.add(list(k)[0])`. */
  method MinIds(un: Snapshot) returns (r: Result<set<nat>>)
    ensures r == MinIdsFrom({}, un, 0)
  {
    var ids := {};
    for i := 0 to |un|
      invariant MinIdsFrom(ids, un, i) == MinIdsFrom({}, un, 0)
    {
      var x := FirstId(un[i].0);
      if x.Err? {
        return Err(x.fault);
      }
      ids := ids + {x.value};
    }
    return Ok(ids);
  }

  // ---------------------------------------------------------------- label_cover

  /** `label_cover` over the primes `ks`: each label's cover limited to `minids`, when not empty. */
  function LabelCoverOf(ks: seq<Ids>, items: map<Ids, Prime>, minids: set<nat>): Dict<string, set<nat>>
    requires forall k :: k in ks ==> k in items
    decreases |ks|
  {
    if |ks| == 0 then Dict([], map[])
    else
      var rest, k := ks[..|ks| - 1], ks[|ks| - 1];
      assert forall a :: a in rest ==> a in ks;
      var d := LabelCoverOf(rest, items, minids);
      var lim := items[k].covers * minids;
      if |lim| > 0 then Put(d, items[k].lbl, lim) else d
  }

  /**
   * `label_cover` lists each label once. Each entry is a non-empty set of uncovered ids,
   * the cover of a prime of `ks` with that label limited to `minids`; and every prime
   * covering an uncovered id has its label in it.
   */
  lemma {:induction false} LabelCoverMeaning(ks: seq<Ids>, items: map<Ids, Prime>, minids: set<nat>)
    requires forall k :: k in ks ==> k in items
    ensures Ordered(LabelCoverOf(ks, items, minids))
    ensures forall l :: l in LabelCoverOf(ks, items, minids).items ==>
      LabelCoverOf(ks, items, minids).items[l] != {} &&
      exists k :: k in ks && items[k].lbl == l && LabelCoverOf(ks, items, minids).items[l] == items[k].covers * minids
    ensures forall k :: k in ks && items[k].covers * minids != {} ==> items[k].lbl in LabelCoverOf(ks, items, minids).items
    decreases |ks|
  {
    if |ks| > 0 {
      var rest, k := ks[..|ks| - 1], ks[|ks| - 1];
      assert forall a :: a in rest ==> a in ks;
      assert forall a :: a in ks ==> a in rest || a == k;
      LabelCoverMeaning(rest, items, minids);
      var d := LabelCoverOf(rest, items, minids);
      var lim := items[k].covers * minids;
      if |lim| > 0 {
        PutOrdered(d, items[k].lbl, lim);
      }
    }
  }

  /** The `for k, v in prime_left.items()` loop building `label_cover`. */
  method LabelCover(left: Dict<Ids, Prime>, minids: set<nat>) returns (lc: Dict<string, set<nat>>)
    requires Listed(left)
    ensures lc == LabelCoverOf(left.order, left.items, minids)
  {
    lc := Dict([], map[]);
    var ks := left.order;
    for i := 0 to |ks|
      invariant lc == LabelCoverOf(ks[..i], left.items, minids)
    {
      assert ks[..i + 1][..i] == ks[..i];
      var v := left.items[ks[i]];
      var lim := v.covers * minids;
      if |lim| > 0 {
        lc := Put(lc, v.lbl, lim);
      }
    }
    assert ks[..|ks|] == ks;
  }

  // ---------------------------------------------------------------- mincover_facts

  /** `"leftid(\"{0}\"). ".format(k)` for a label `k`. */
  function LeftIdFact(k: string): string
  {
    "leftid(\"" + k + "\"). "
  }

  /** `"covers(\"{0}\", {1}). ".format(k, val)`: the label quoted, the id not. */
  function CoversFact(k: string, val: nat): string
  {
    "covers(\"" + k + "\", " + Decimal(val) + "). "
  }

  /** The `covers` facts of the label `k` for the ids `vals`, in order. */
  function CoversFacts(k: string, vals: seq<nat>): string
    decreases |vals|
  {
    if |vals| == 0 then ""
    else CoversFacts(k, vals[..|vals| - 1]) + CoversFact(k, vals[|vals| - 1])
  }

  /** The facts of one entry of `label_cover`: its `leftid`, its `covers` (ascending), a line break. */
  function EntryFacts(k: string, vals: set<nat>): string
  {
    LeftIdFact(k) + CoversFacts(k, Ascending(vals)) + "\n"
  }

  /** `mincover_facts(label_cover)` over the labels `ks`. */
  function MincoverFacts(ks: seq<string>, items: map<string, set<nat>>): string
    requires forall k :: k in ks ==> k in items
    decreases |ks|
  {
    if |ks| == 0 then ""
    else
      var rest := ks[..|ks| - 1];
      assert forall a :: a in rest ==> a in ks;
      MincoverFacts(rest, items) + EntryFacts(ks[|ks| - 1], items[ks[|ks| - 1]])
  }

  /** One round of the outer loop of `mincover_facts`. */
  method WriteEntryFacts(k: string, v: set<nat>) returns (line: string)
    ensures line == EntryFacts(k, v)
  {
    var vals := Ascending(v);
    var covers := "";
    for j := 0 to |vals|
      invariant covers == CoversFacts(k, vals[..j])
    {
      assert vals[..j + 1][..j] == vals[..j];
      covers := covers + CoversFact(k, vals[j]);
    }
    assert vals[..|vals|] == vals;
    line := LeftIdFact(k) + covers + "\n";
  }

  /** The loops of `mincover_facts`, appending to `facts`. */
  method WriteMincoverFacts(lc: Dict<string, set<nat>>) returns (facts: string)
    requires Listed(lc)
    ensures facts == MincoverFacts(lc.order, lc.items)
  {
    facts := "";
    var ks := lc.order;
    for i := 0 to |ks|
      invariant facts == MincoverFacts(ks[..i], lc.items)
    {
      assert ks[..i + 1][..i] == ks[..i];
      var line := WriteEntryFacts(ks[i], lc.items[ks[i]]);
      facts := facts + line;
    }
    assert ks[..|ks|] == ks;
  }

  /** A fact about a label without line breaks holds none. */
  lemma FactsOneLine(k: string, val: nat)
    requires '\n' !in k
    ensures LineBreaks(LeftIdFact(k)) == 0 && LineBreaks(CoversFact(k, val)) == 0
  {
    NoLineBreaks(LeftIdFact(k));
    NoLineBreaks(CoversFact(k, val));
  }

  /** The `covers` facts of a label without line breaks hold none. */
  lemma {:induction false} CoversFactsOneLine(k: string, vals: seq<nat>)
    requires '\n' !in k
    ensures LineBreaks(CoversFacts(k, vals)) == 0
    decreases |vals|
  {
    if |vals| > 0 {
      CoversFactsOneLine(k, vals[..|vals| - 1]);
      FactsOneLine(k, vals[|vals| - 1]);
      LineBreaksAppend(CoversFacts(k, vals[..|vals| - 1]), CoversFact(k, vals[|vals| - 1]));
    }
  }

  /** `mincover_facts` writes one line per label of `label_cover` when no label holds a line break. */
  lemma {:induction false} MincoverFactsLines(ks: seq<string>, items: map<string, set<nat>>)
    requires forall k :: k in ks ==> k in items && '\n' !in k
    ensures LineBreaks(MincoverFacts(ks, items)) == |ks|
    decreases |ks|
  {
    if |ks| > 0 {
      var rest, k := ks[..|ks| - 1], ks[|ks| - 1];
      assert forall a :: a in rest ==> a in ks;
      var v := items[k];
      MincoverFactsLines(rest, items);
      FactsOneLine(k, 0);
      CoversFactsOneLine(k, Ascending(v));
      LineBreaksAppend(LeftIdFact(k), CoversFacts(k, Ascending(v)));
      LineBreaksAppend(LeftIdFact(k) + CoversFacts(k, Ascending(v)), "\n");
      OneLineBreak();
      LineBreaksAppend(MincoverFacts(rest, items), EntryFacts(k, v));
    }
  }
}
