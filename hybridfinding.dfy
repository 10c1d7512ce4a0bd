/**
 * hybrid-minterms.py on the one-line input `02`. The label is total: `totalize` gives `01`
 * and `02`, so its extended cover holds the ids 1 and 2, and the essential extraction marks
 * `cover_dict[frozenset([1])]`, a minterm the input does not hold. As written this raises a
 * KeyError; marking only the minterms `cover_dict` holds reaches full coverage with `02`.
 */
module HybridFinding {
  import opened Wrappers
  import opened Codec
  import opened Text
  import opened HybridLabels
  import opened HybridLoop
  import opened HybridCover
  import opened HybridEssential
  import opened HybridMain
  import Minterms
  import Numerals
  import Expand

  /** The parsed table of `02`: its id 2 (`02` in base 6), weight 0 and adjacency value 2. */
  const Parsed: Dict<Ids, Entry> := Dict([{2}], map[{2} := Entry("02", false, 0, 2)])

  /** `init_minterms` of `02`: total, covering the ids of `01` and `02`. */
  const Init: Dict<Ids, Initial> := Dict([{2}], map[{2} := Initial("02", true, {1, 2})])

  /** `extended_cover_unmarked` of `02`: the one prime, `02` itself, extended by its total cover. */
  const Primes: Dict<Ids, Prime> := Dict([{2}], map[{2} := Prime("02", {1, 2}, false)])

  /** `cover_dict` of `02`: its minterm, covered by the prime `02`. */
  const Covers: Dict<Ids, Covered> := Dict([{2}], map[{2} := Covered([({2}, "02")], "02", false)])

  /** The start of the essential extraction for `02`. */
  const Begin: Extraction := Extraction(Covers, Primes, Dict([], map[]))

  /** The end of the guarded extraction: the minterm used, the prime `02` essential. */
  const Done: Extraction := Extraction(Dict([{2}], map[{2} := Covered([({2}, "02")], "02", true)]),
                                       Dict([{2}], map[{2} := Prime("02", {1, 2}, true)]),
                                       Dict([{2}], map[{2} := Essential("02", {1, 2})]))

  /** The id of a label of two base-6 digits. */
  lemma IdPair(s: string)
    requires |s| == 2 && IdDigit(s[0]).Some? && IdDigit(s[1]).Some?
    ensures Id(s) == Ok(IdDigit(s[0]).value * 6 + IdDigit(s[1]).value)
  {
    var ds := IdDigitsOf(s);
    assert ds[..1][..0] == [];
    assert Numerals.FromBase(ds[..1], 6) == ds[0];
  }

  /** The text `02` is one line, an input line, already stripped. */
  lemma OneLine()
    ensures Split("02", "\n") == ["02"]
    ensures Minterms.InputLine(Minterms.Old, "02") && Strip("02") == "02"
  {
    assert "02"[..1] == "0" && "02"[1..] == "2" && "2"[..1] == "2" && "2"[1..] == "";
    assert Find("2", "\n") == None;
    assert Find("02", "\n") == None;
    assert Minterms.SymbolSpan(Minterms.Old, "") == 0;
    assert Minterms.SymbolSpan(Minterms.Old, "2") == 1;
    assert Minterms.SymbolSpan(Minterms.Old, "02") == 2;
    StripFixed("02");
  }

  /** `parse_input("02")`. */
  lemma ParseTotal()
    ensures ParseLines(Split("02", "\n")) == Ok(Parsed)
  {
    OneLine();
    assert ["02"][..0] == [];
    IdPair("02");
    assert LabelWeight("02") == Ok(0) && AdjVal("02") == Ok(2);
    assert NewEntry("02") == Ok(Entry("02", false, 0, 2));
    assert ParseLine(Dict([], map[]), "02") == Ok(Put(Dict([], map[]), {2}, Entry("02", false, 0, 2)));
    assert Put(Dict([], map[]), {2}, Entry("02", false, 0, 2)) == Parsed;
  }

  /** The `init_minterms` entry of `02`: total, its totalizations `01` and `02` with ids 1 and 2. */
  lemma InitialTotal()
    ensures InitialOf("02") == Ok(Initial("02", true, {1, 2}))
  {
    InitialMeaning("02");
    var tc := InitialOf("02").value.totalCover;
    IdPair("01");
    IdPair("02");
    assert Expand.PatternOf("01", "02") && Expand.PatternOf("02", "02");
    forall x | x in tc
      ensures x == 1 || x == 2
    {
      var t :| Expand.PatternOf(t, "02") && Id(t) == Ok(x);
      assert t[0] == '0' && (t[1] == '1' || t[1] == '2');
      IdPair(t);
    }
    assert tc == {1, 2};
  }

  /** `init_minterms` of the parsed table. */
  lemma InitTotal()
    ensures InitMintermsOf(Parsed) == Ok(Init)
  {
    InitialTotal();
    var e0: Dict<Ids, Initial> := Dict([], map[]);
    var e1 := Put(e0, {2}, Initial("02", true, {1, 2}));
    assert InitFrom(e0, Parsed.order, Parsed.items, 0) == InitFrom(e1, Parsed.order, Parsed.items, 1);
    assert e1 == Init;
  }

  /** At step 0 the one entry, of weight 0 and unmarked, is selected. */
  lemma SelectZero()
    ensures var d := Dict([{2}], map[{2} := Entry("02", false, 0, 2)]);
      Selected(d, 0) == d
  {
    var d := Dict([{2}], map[{2} := Entry("02", false, 0, 2)]);
    SelectedMeaning(d, 0);
    assert Selected(d, 0).items == d.items;
    assert Weighing(d.order, d.items, 0) == [{2}] by {
      assert d.order[..0] == [];
    }
  }

  /** The one entry makes one bucket, and one bucket has no neighbour to pair with. */
  lemma OneBucket()
    ensures var d := Dict([{2}], map[{2} := Entry("02", false, 0, 2)]);
      |AdjKeys(d)| == 1 && SelPairs(d) == []
  {
    var d := Dict([{2}], map[{2} := Entry("02", false, 0, 2)]);
    assert Buckets(d.order, d.items).order == [2] by {
      assert d.order[..0] == [];
    }
    assert |AdjKeys(d)| == 1;
  }

  /** Step 0 of the pair loop selects the entry, pairs nothing and keeps the loop going. */
  lemma StepZero()
    ensures var st := State(Dict([{2}], map[{2} := Entry("02", false, 0, 2)]), Dict(["02"], map["02" := {2}]));
      StepOf(st, 0) == Ok((st, true))
  {
    SelectZero();
    OneBucket();
  }

  /** Step 1 of the pair loop selects nothing, so the loop stops. */
  lemma StepOne()
    ensures var st := State(Dict([{2}], map[{2} := Entry("02", false, 0, 2)]), Dict(["02"], map["02" := {2}]));
      StepOf(st, 1) == Ok((st, false))
  {
    var d := Dict([{2}], map[{2} := Entry("02", false, 0, 2)]);
    var s1 := Selected(d, 1);
    SelectedMeaning(d, 1);
    assert s1.items == map[];
    assert Weighing(d.order, d.items, 1) == [] by {
      assert d.order[..0] == [];
    }
    assert s1 == Dict([], map[]);
    assert AdjKeys(s1) == [];
  }

  /** The pair loop over the single entry pairs nothing and leaves the state as it was. */
  lemma StepsIdle()
    ensures var st := State(Dict([{2}], map[{2} := Entry("02", false, 0, 2)]), Dict(["02"], map["02" := {2}]));
      Steps(st, 0, 4) == Ok(st)
  {
    var st := State(Dict([{2}], map[{2} := Entry("02", false, 0, 2)]), Dict(["02"], map["02" := {2}]));
    StepZero();
    StepOne();
    assert Steps(st, 1, 4) == Ok(st);
  }

  /** The one entry of the parsed table is unmarked. */
  lemma UnmarkedTotal()
    ensures var d := Dict([{2}], map[{2} := Entry("02", false, 0, 2)]);
      Unmarked(d) == d
  {
    var d := Dict([{2}], map[{2} := Entry("02", false, 0, 2)]);
    assert UnmarkedKeys(d.order, d.items) == [{2}] by {
      assert d.order[..0] == [];
    }
  }

  /** The prime `02` extends to its own id and the ids of its totalizations. */
  lemma ExtCoverTotal()
    ensures ExtCoverOf({2}, Init.items) == Ok({1, 2})
  {
    var init := map[{2} := Initial("02", true, {1, 2})];
    assert forall e :: e in {2} ==> {e} in init;
    assert TotalsOf({2}, init) == {1, 2};
    assert {2} + {1, 2} == {1, 2};
  }

  /** The extended cover of the prime `02`: its own id and the ids of its totalizations. */
  lemma ExtendTotal()
    ensures var d := Dict([{2}], map[{2} := Entry("02", false, 0, 2)]);
      ExtendedOf(Unmarked(d), Init.items) == Ok(Primes)
  {
    var d := Dict([{2}], map[{2} := Entry("02", false, 0, 2)]);
    UnmarkedTotal();
    ExtCoverTotal();
    var p0: Dict<Ids, Prime> := Dict([], map[]);
    var p1 := Put(p0, {2}, Prime("02", {1, 2}, false));
    assert ExtFrom(p0, d.order, d.items, Init.items, 0) == ExtFrom(p1, d.order, d.items, Init.items, 1);
    assert p1 == Primes;
  }

  /** `extended_cover_unmarked` of the parsed table: the pair loop leaves the one prime `02`. */
  lemma PrimesTotal()
    ensures PrimesFrom(Parsed, Init.items, None) == Ok(Primes)
  {
    var d := Dict([{2}], map[{2} := Entry("02", false, 0, 2)]);
    var rev := Dict(["02"], map["02" := {2}]);
    assert RevOf(d.order, d.items) == rev by {
      assert d.order[..0] == [];
    }
    assert MaxStep(None, rev) == Ok(4);
    StepsIdle();
    ExtendTotal();
  }

  /** `parse_input`, `init_minterms` and `extended_cover_unmarked` of the text `02`. */
  lemma PrimesOfTotal()
    ensures PrimesOf("02", None) == Ok((Init, Primes))
  {
    ParseTotal();
    InitTotal();
    PrimesTotal();
  }

  /** `cover_dict` of the tables of `02`: the prime `02` covers the minterm `02`. */
  lemma StartTotal()
    ensures Start(Init, Primes) == Begin
  {
    var init := Dict([{2}], map[{2} := Initial("02", true, {1, 2})]);
    var ext := Dict([{2}], map[{2} := Prime("02", {1, 2}, false)]);
    assert {2} * {1, 2} == {2};
    assert Coverers({2}, ext.order, ext.items) == [({2}, "02")] by {
      assert ext.order[..0] == [];
    }
    assert init.order[..0] == [];
    var c0: Dict<Ids, Covered> := Dict([], map[]);
    assert CoverDictOf(init.order, init.items, ext) == Put(c0, {2}, Covered([({2}, "02")], "02", false));
  }

  /** As written, the essential `02` marks `cover_dict[frozenset([1])]`, which is not there. */
  lemma ExtractAsWritten()
    ensures Fits(Begin) && Agreed(Begin) && Extract(Begin, AsWritten) == Err(KeyError)
  {
    assert Fits(Begin) && Agreed(Begin);
    var un := [({2}, [({2}, "02")])];
    assert Covers.order[..0] == [];
    assert UnusedOf(Covers) == un;
    assert 1 in {1, 2} && {1} !in Covers.items;
    assert MarkUsed(Covers, {1, 2}, AsWritten) == Err(KeyError);
    assert PassFrom(Begin, 0, un, 0, AsWritten) == Err(KeyError);
  }

  /** Guarded, the first pass makes `02` essential and uses its minterm. */
  lemma PassGuarded()
    ensures PassFrom(Begin, 0, [({2}, [({2}, "02")])], 0, Guarded) == Ok((Done, 1))
  {
    var mk := MarkUsed(Covers, {1, 2}, Guarded);
    assert mk.Ok?;
    assert 2 in {1, 2};
    assert mk.value.items[{2}] == Done.cd.items[{2}];
    assert mk.value.items == Done.cd.items;
    var e0: Dict<Ids, Essential> := Dict([], map[]);
    assert Put(e0, {2}, Essential("02", {1, 2})) == Done.ess;
    assert Primes.items[{2} := Primes.items[{2}].(essential := true)] == Done.ext.items;
    assert Process(Begin, [({2}, "02")], Guarded) == Ok(Done);
  }

  /** Guarded, the extraction reaches full coverage after one pass. */
  lemma ExtractGuarded()
    ensures Fits(Begin) && Agreed(Begin) && Extract(Begin, Guarded) == Ok(Ending(true, [], Done))
  {
    assert Fits(Begin) && Agreed(Begin);
    var un := [({2}, [({2}, "02")])];
    assert Covers.order[..0] == [];
    assert UnusedOf(Covers) == un;
    PassGuarded();
    PassProgress(Begin, Guarded);
    assert UnusedOf(Done.cd) == [];
    assert Extract(Begin, Guarded) == Extract(Done, Guarded);
  }

  /** With full coverage the result lists the one essential, `02`, and no Petrick facts. */
  lemma FinishDone()
    ensures Finish(Ending(true, [], Done)) == Ok(Outcome(["02"], true, ""))
  {
    var ess := Dict([{2}], map[{2} := Essential("02", {1, 2})]);
    assert Labels(ess)[0] == "02";
    assert Labels(ess) == ["02"];
  }

  /** hybrid-minterms.py as written raises a KeyError on the input `02`. */
  lemma RunAsWritten()
    ensures Run("02", None, AsWritten) == Err(KeyError)
  {
    PrimesOfTotal();
    StartTotal();
    ExtractAsWritten();
  }

  /** Marking only the minterms `cover_dict` holds, `02` is essential and covers the input. */
  lemma RunGuarded()
    ensures Run("02", None, Guarded) == Ok(Outcome(["02"], true, ""))
  {
    PrimesOfTotal();
    StartTotal();
    ExtractGuarded();
    FinishDone();
  }
}
