/**
 * `main` of hybrid-minterms.py up to the Petrick solver: parse the input, build
 * `init_minterms` and `rev_dict`, run the pair loop, extend the covers of the prime
 * implicants, build `cover_dict`, extract the essential primes and, without full coverage,
 * write the Petrick facts.
 */
module HybridMain {
  import opened Wrappers
  import opened Codec
  import opened Text
  import opened HybridLabels
  import opened HybridLoop
  import opened HybridCover
  import opened HybridEssential
  import opened HybridPetrick
  import Minterms
  import Frontier

  // ---------------------------------------------------------------- the parsed table

  /** Every entry holds a label. */
  ghost predicate Labelled(d: Dict<Ids, Entry>)
  {
    forall k :: k in d.items ==> IsLabel(d.items[k].lbl)
  }

  /** Whatever the widths, `parse_input` lists each key once, under the singleton of the id of its label. */
  lemma {:induction false} ParseShape(lines: seq<string>)
    ensures Ordered(ParseLines(lines).value) && Singletons(ParseLines(lines).value) && Labelled(ParseLines(lines).value)
    decreases |lines|
  {
    if |lines| > 0 {
      var init, line := lines[..|lines| - 1], lines[|lines| - 1];
      ParseShape(init);
      var d := ParseLines(init).value;
      if Minterms.InputLine(Minterms.Old, line) {
        Frontier.InputLineLabel(line);
        var m := Strip(line);
        LabelMeasures(m);
        assert ParseLines(lines).value == Put(d, {Id(m).value}, NewEntry(m).value);
        PutSingleton(d, m);
      }
    }
  }

  /** The label of every input line is stored, under the singleton of its id. */
  lemma {:induction false} ParseHolds(lines: seq<string>, j: nat)
    requires j < |lines| && Minterms.InputLine(Minterms.Old, lines[j])
    ensures IsLabel(Strip(lines[j])) && {Id(Strip(lines[j])).value} in ParseLines(lines).value.items
    decreases |lines|
  {
    Frontier.InputLineLabel(lines[j]);
    var init := lines[..|lines| - 1];
    if j < |lines| - 1 {
      assert init[j] == lines[j];
      ParseHolds(init, j);
    }
    if Minterms.InputLine(Minterms.Old, lines[|lines| - 1]) {
      var m := Strip(lines[|lines| - 1]);
      Frontier.InputLineLabel(lines[|lines| - 1]);
      LabelMeasures(m);
      assert ParseLines(lines).value == Put(ParseLines(init).value, {Id(m).value}, NewEntry(m).value);
    }
  }

  /** Text without an input line parses to the empty table. */
  lemma {:induction false} ParseNone(lines: seq<string>)
    requires forall j :: 0 <= j < |lines| ==> !Minterms.InputLine(Minterms.Old, lines[j])
    ensures ParseLines(lines) == Ok(Dict([], map[]))
    decreases |lines|
  {
    if |lines| > 0 {
      var init := lines[..|lines| - 1];
      assert forall j :: 0 <= j < |init| ==> init[j] == lines[j];
      ParseNone(init);
    }
  }

  /** `init_minterms` of a parsed table: it never raises, and it has the keys of the table, in order. */
  lemma InitShape(d: Dict<Ids, Entry>)
    requires Ordered(d) && Labelled(d)
    ensures InitMintermsOf(d).Ok? && Ordered(InitMintermsOf(d).value)
    ensures InitMintermsOf(d).value.items.Keys == d.items.Keys
  {
    var e: Dict<Ids, Initial> := Dict([], map[]);
    assert Ordered(e);
    InitFromMeaning(e, d.order, d.items, 0);
    assert d.order[0..] == d.order;
  }

  // ---------------------------------------------------------------- the tables the cover stage reads

  /** `init_minterms` lists its minterms, each a singleton, and no prime is flagged essential yet. */
  ghost predicate Shaped(init: Dict<Ids, Initial>, ext: Dict<Ids, Prime>)
  {
    Ordered(init) && (forall k :: k in init.items ==> |k| == 1) &&
    Listed(ext) && forall k :: k in ext.items ==> !ext.items[k].essential
  }

  /**
   * From the text to `init_minterms` and `extended_cover_unmarked`: parsing, then
   * `init_minterms`, then the primes of the parsed table.
   */
  function PrimesOf(text: string, arg: Option<int>): (r: Result<(Dict<Ids, Initial>, Dict<Ids, Prime>)>)
    ensures r.Ok? ==> Shaped(r.value.0, r.value.1)
  {
    var lines := Split(text, "\n");
    ParseShape(lines);
    var d := ParseLines(lines).value;
    InitShape(d);
    var init := InitMintermsOf(d).value;
    match PrimesFrom(d, init.items, arg)
    case Err(f) => Err(f)
    case Ok(ext) => Ok((init, ext))
  }

  /**
   * The primes of the parsed table `d` with the extended covers `init` gives: `rev_dict`,
   * `maxstep`, the pair loop, the unmarked entries and their extended covers, none flagged essential.
   */
  function PrimesFrom(d: Dict<Ids, Entry>, init: map<Ids, Initial>, arg: Option<int>): (r: Result<Dict<Ids, Prime>>)
    requires Listed(d)
    ensures r.Ok? ==> Listed(r.value) && forall k :: k in r.value.items ==> !r.value.items[k].essential
  {
    RevOfMeaning(d.order, d.items);
    var rev := RevOf(d.order, d.items);
    match MaxStep(arg, rev)
    case Err(f) => Err(f)
    case Ok(maxstep) =>
      match Steps(State(d, rev), 0, maxstep)
      case Err(f) => Err(f)
      case Ok(st) => ExtendedOf(Unmarked(st.input), init)
  }

  /** A singleton meeting a set in one element lies in it. */
  lemma MeetsOne(k: Ids, s: set<nat>)
    requires |k| == 1 && |k * s| == 1
    ensures k <= s
  {
    assert k * s <= k;
    var y :| y in k * s;
    Singleton(k, y);
    Singleton(k * s, y);
  }

  /** The start of the extraction is in the shape it keeps. */
  lemma StartFits(init: Dict<Ids, Initial>, ext: Dict<Ids, Prime>)
    requires Shaped(init, ext)
    ensures var x := Extraction(CoverDictOf(init.order, init.items, ext), ext, Dict([], map[]));
      Fits(x) && Agreed(x)
  {
    CoverDictMeaning(init.order, init.items, ext);
    var cd := CoverDictOf(init.order, init.items, ext);
    forall ck | ck in cd.items
      ensures forall p :: p in cd.items[ck].coveredBy ==>
        p.0 in ext.items && p.1 == ext.items[p.0].lbl && ck <= ext.items[p.0].covers
    {
      CoverersMeaning(ck, ext.order, ext.items);
      forall p | p in cd.items[ck].coveredBy
        ensures p.0 in ext.items && p.1 == ext.items[p.0].lbl && ck <= ext.items[p.0].covers
      {
        MeetsOne(ck, ext.items[p.0].covers);
      }
    }
    var e: Dict<Ids, Essential> := Dict([], map[]);
    assert Ordered(e);
  }

  /** `cover_dict` over `init_minterms` and the primes, with no essential prime found yet. */
  function Start(init: Dict<Ids, Initial>, ext: Dict<Ids, Prime>): (x: Extraction)
    requires Shaped(init, ext)
    ensures Fits(x) && Agreed(x)
  {
    StartFits(init, ext);
    Extraction(CoverDictOf(init.order, init.items, ext), ext, Dict([], map[]))
  }

  // ---------------------------------------------------------------- the outcome

  /**
   * What `main` hands on: `essential_labels`, whether coverage is full, and the Petrick
   * facts the solver is given (empty with full coverage, where no solver runs).
   */
  datatype Outcome = Outcome(essentials: seq<string>, full: bool, facts: string)

  /** `[v['label'] for k, v in essential_implicates.items()]`. */
  function Labels(ess: Dict<Ids, Essential>): seq<string>
    requires Listed(ess)
  {
    seq(|ess.order|, i requires 0 <= i < |ess.order| => ess.items[ess.order[i]].lbl)
  }

  /**
   * After the extraction: with full coverage no Petrick; otherwise `minids` from the
   * unused minterms, `label_cover` from the primes left, and `mincover_facts`.
   */
  function Finish(e: Ending): (r: Result<Outcome>)
    requires Listed(e.x.ext) && Listed(e.x.ess)
  {
    if e.full then Ok(Outcome(Labels(e.x.ess), true, ""))
    else
      match MinIdsFrom({}, e.unused, 0)
      case Err(f) => Err(f)
      case Ok(minids) =>
        PrimeLeftMeaning(e.x.ext);
        var left := PrimeLeft(e.x.ext);
        LabelCoverMeaning(left.order, left.items, minids);
        var lc := LabelCoverOf(left.order, left.items, minids);
        Ok(Outcome(Labels(e.x.ess), false, MincoverFacts(lc.order, lc.items)))
  }

  /** `main` on the text `text` and the `--maxstep` argument `arg`, marking used minterms by `m`. */
  function Run(text: string, arg: Option<int>, m: Marking): Result<Outcome>
  {
    match PrimesOf(text, arg)
    case Err(f) => Err(f)
    case Ok(p) =>
      var x := Start(p.0, p.1);
      ExtractKeeps(x, m);
      match Extract(x, m)
      case Err(f) => Err(f)
      case Ok(e) => Finish(e)
  }

  // ---------------------------------------------------------------- the methods

  /** The stages of `main` up to `extended_cover_unmarked`, each by its loop. */
  method FindPrimes(text: string, arg: Option<int>) returns (r: Result<(Dict<Ids, Initial>, Dict<Ids, Prime>)>)
    ensures r == PrimesOf(text, arg)
  {
    var d := ParseInput(text);
    ParseShape(Split(text, "\n"));
    InitShape(d);
    var init := InitMinterms(d);
    var rev := ReverseDict(d);
    RevOfMeaning(d.order, d.items);
    var maxstep := MaxStep(arg, rev);
    if maxstep.Err? {
      return Err(maxstep.fault);
    }
    var st := PairLoop(State(d, rev), maxstep.value);
    if st.Err? {
      return Err(st.fault);
    }
    var ext := ExtendedCovers(Unmarked(st.value.input), init.value.items);
    if ext.Err? {
      return Err(ext.fault);
    }
    return Ok((init.value, ext.value));
  }

  /** What follows the extraction, by the loops of `minids`, `label_cover` and `mincover_facts`. */
  method Conclude(e: Ending) returns (r: Result<Outcome>)
    requires Listed(e.x.ext) && Listed(e.x.ess)
    ensures r == Finish(e)
  {
    var essentials := Labels(e.x.ess);
    if e.full {
      return Ok(Outcome(essentials, true, ""));
    }
    var minids := MinIds(e.unused);
    if minids.Err? {
      return Err(minids.fault);
    }
    PrimeLeftMeaning(e.x.ext);
    var left := PrimeLeft(e.x.ext);
    var lc := LabelCover(left, minids.value);
    LabelCoverMeaning(left.order, left.items, minids.value);
    var facts := WriteMincoverFacts(lc);
    return Ok(Outcome(essentials, false, facts));
  }

  /** `main` of hybrid-minterms.py up to the Petrick solver. */
  method HybridMinterms(text: string, arg: Option<int>, m: Marking) returns (r: Result<Outcome>)
    ensures r == Run(text, arg, m)
  {
    var p := FindPrimes(text, arg);
    if p.Err? {
      return Err(p.fault);
    }
    var init, ext := p.value.0, p.value.1;
    var cd := BuildCoverDict(init, ext);
    var x := Extraction(cd, ext, Dict([], map[]));
    assert x == Start(init, ext);
    var e := ExtractEssentials(x, m);
    if e.Err? {
      return Err(e.fault);
    }
    ExtractKeeps(x, m);
    r := Conclude(e.value);
  }

  // ---------------------------------------------------------------- what a run promises

  /** Some line of `lines` is an input line. */
  predicate HasInput(lines: seq<string>)
  {
    exists j :: 0 <= j < |lines| && Minterms.InputLine(Minterms.Old, lines[j])
  }

  /**
   * Over labels of width `n`, given `--maxstep` or a key, finding the primes never raises:
   * every id of a prime is that of a parsed minterm, which has its `init_minterms` entry.
   */
  lemma PrimesFromSafe(d: Dict<Ids, Entry>, init: map<Ids, Initial>, arg: Option<int>, n: nat)
    requires Ordered(d) && Singletons(d) && Entries(d, n) && d.items.Keys <= init.Keys
    requires arg.Some? || |d.order| > 0
    ensures PrimesFrom(d, init, arg).Ok?
  {
    StartInv(d, n);
    RevOfMeaning(d.order, d.items);
    var rev := RevOf(d.order, d.items);
    var maxstep := MaxStep(arg, rev).value;
    StepsSafe(State(d, rev), 0, maxstep, n, d.items.Keys);
    var st := Steps(State(d, rev), 0, maxstep).value;
    var u := Unmarked(st.input);
    UnmarkedFromBase(st, n, d.items.Keys, init);
    ExtFromMeaning(Dict([], map[]), u.order, u.items, init, 0);
  }

  /** Every id in a key the loop leaves unmarked is a key of the parsed table, so it has an initial entry. */
  lemma UnmarkedFromBase(st: State, n: nat, base: set<Ids>, init: map<Ids, Initial>)
    requires Inv(st, n, base) && base <= init.Keys
    ensures forall k, e :: k in Unmarked(st.input).order && e in k ==> {e} in init
  {
    var u := Unmarked(st.input);
    forall k, e | k in u.order && e in k
      ensures {e} in init
    {
      assert k in st.input.items;
      assert FromBase(k, base);
    }
  }

  /** Over input lines of one width, given `--maxstep` or an input line, the primes are found. */
  lemma PrimesSafe(text: string, arg: Option<int>, n: nat)
    requires Frontier.Widths(Split(text, "\n"), n)
    requires arg.Some? || HasInput(Split(text, "\n"))
    ensures PrimesOf(text, arg).Ok?
  {
    var lines := Split(text, "\n");
    ParseShape(lines);
    ParseLinesMeaning(lines, n);
    var d := ParseLines(lines).value;
    InitShape(d);
    if arg.None? {
      var j :| 0 <= j < |lines| && Minterms.InputLine(Minterms.Old, lines[j]);
      ParseHolds(lines, j);
      assert {Id(Strip(lines[j])).value} in d.order;
    }
    PrimesFromSafe(d, InitMintermsOf(d).value.items, arg, n);
  }

  /**
   * Marked guarded, a run over input lines of one width never raises, given `--maxstep`
   * or an input line: no minterm of `unused_cover_dict` is empty, so `list(k)[0]` holds.
   */
  lemma RunSafe(text: string, arg: Option<int>, n: nat)
    requires Frontier.Widths(Split(text, "\n"), n)
    requires arg.Some? || HasInput(Split(text, "\n"))
    ensures Run(text, arg, Guarded).Ok?
  {
    PrimesSafe(text, arg, n);
    var p := PrimesOf(text, arg).value;
    var x := Start(p.0, p.1);
    ExtractKeeps(x, Guarded);
    ExtractEnds(x, Guarded);
    var e := Extract(x, Guarded).value;
    if !e.full {
      MinIdsFails({}, e.unused, 0);
      UnusedFromMeaning(e.x.cd.order, e.x.cd.items);
      forall i | 0 <= i < |e.unused|
        ensures |e.unused[i].0| == 1
      {
        assert e.unused[i] in e.unused;
      }
    }
  }

  /** Without `--maxstep` and without an input line, `list(rev_dict.keys())[0]` raises an IndexError. */
  lemma RunNoInput(text: string, m: Marking)
    requires !HasInput(Split(text, "\n"))
    ensures Run(text, None, m) == Err(IndexError)
  {
    var lines := Split(text, "\n");
    ParseNone(lines);
    var d: Dict<Ids, Entry> := Dict([], map[]);
    assert RevOf(d.order, d.items) == Dict([], map[]);
    assert PrimesFrom(d, InitMintermsOf(d).value.items, None) == Err(IndexError);
  }

  /** A run that succeeds as written is the guarded run. */
  lemma RunAgrees(text: string, arg: Option<int>)
    ensures Run(text, arg, AsWritten).Ok? ==> Run(text, arg, AsWritten) == Run(text, arg, Guarded)
  {
    if PrimesOf(text, arg).Ok? {
      var p := PrimesOf(text, arg).value;
      ExtractAgrees(Start(p.0, p.1));
    }
  }

  /**
   * With full coverage every minterm of `init_minterms` that some prime covers lies in the
   * cover of an essential prime.
   */
  lemma FullCovers(init: Dict<Ids, Initial>, ext: Dict<Ids, Prime>, m: Marking)
    requires Shaped(init, ext)
    ensures var x := Start(init, ext);
      Extract(x, m).Ok? && Extract(x, m).value.full ==>
        var y := Extract(x, m).value.x;
        forall k :: k in init.items && Coverers(k, ext.order, ext.items) != [] ==>
          exists e :: e in y.ess.items && k <= y.ess.items[e].covers
  {
    var x := Start(init, ext);
    CoverDictMeaning(init.order, init.items, ext);
    assert Covering(x);
    ExtractKeeps(x, m);
    ExtractCovering(x, m);
  }
}
