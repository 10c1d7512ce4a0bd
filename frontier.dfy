/**
 * The two scripts that pair only the keys a round produced: minish-countermodels.py
 * (countermodels of aggregated labels as minterms) and bitwise-minterms.py (every label
 * one key). Both read the input labels into `minterm_dict`, replace the covers of every
 * label over `0` and `2` by its totalizations, then run rounds that pair the keys of the
 * previous round's results (the frontier) until a round produces none, and finally build
 * `cover_dict` and extract essential primes.
 */
module Frontier {
  import opened Wrappers
  import opened Octal
  import opened Codec
  import opened Weights
  import opened Expand
  import opened Adjacency
  import opened Keys
  import opened Implicants
  import opened Pipeline
  import opened Pairing
  import opened Text
  import Minterms
  import Cover

  /** Which script runs. */
  datatype Script =
    | Countermodels // minish-countermodels.py
    | Bitwise       // bitwise-minterms.py

  /** `minterm_dict` as a value: the keys in insertion order and their entries. */
  datatype Dict = Dict(order: seq<nat>, entries: map<nat, Implicant>)

  /** The insertion order lists every key exactly once. */
  ghost predicate DictOrdered(d: Dict)
  {
    NoDuplicates(d.order) && forall k :: k in d.order <==> k in d.entries
  }

  // ---------------------------------------------------------------- parse_input

  /** A symbol that stands for several values: `z`, `o` or `x`. */
  predicate IsAggregate(c: char)
  {
    c == 'z' || c == 'o' || c == 'x'
  }

  /** The label holds an aggregate symbol (`re.match('[012ozx]*[zox][012ozx]*', line)`). */
  predicate HasAggregate(m: string)
  {
    exists i :: 0 <= i < |m| && IsAggregate(m[i])
  }

  /**
   * The keys one input label `m` stands for: in minish-countermodels.py its countermodels
   * when it holds an aggregate, otherwise (and always in bitwise-minterms.py) its own key.
   */
  function LineKeys(s: Script, m: string): Result<seq<nat>>
  {
    if s == Countermodels && HasAggregate(m) then Expand.Countermodels(m)
    else match Encode(Pipeline, m)
      case Err(f) => Err(f)
      case Ok(k) => Ok([k])
  }

  /** The entry `parse_input` stores for a key: unmarked, covering the key itself. */
  function Fresh(k: nat): Implicant
  {
    Implicant(false, {k}, {})
  }

  /** `dict.update({k: e})`: a new key goes to the end of the order. */
  function Store(d: Dict, k: nat, e: Implicant): Dict
  {
    Dict(if k in d.entries then d.order else d.order + [k], d.entries[k := e])
  }

  /** The `for id in eids` loop: each key stored with a fresh entry. */
  function StoreAll(d: Dict, ks: seq<nat>): Dict
    decreases |ks|
  {
    if |ks| == 0 then d
    else Store(StoreAll(d, ks[..|ks| - 1]), ks[|ks| - 1], Fresh(ks[|ks| - 1]))
  }

  /** `parse_input` over the lines `lines` of the input: lines that are not labels are skipped. */
  function ParseLines(s: Script, lines: seq<string>): Result<Dict>
    decreases |lines|
  {
    if |lines| == 0 then Ok(Dict([], map[]))
    else match ParseLines(s, lines[..|lines| - 1])
      case Err(f) => Err(f)
      case Ok(d) => AddLine(s, d, lines[|lines| - 1])
  }

  /** One line of `parse_input`: a label line stores its keys, any other line is skipped. */
  function AddLine(s: Script, d: Dict, line: string): Result<Dict>
  {
    if !Minterms.InputLine(Minterms.Old, line) then Ok(d)
    else match LineKeys(s, Strip(line))
      case Err(f) => Err(f)
      case Ok(ks) => Ok(StoreAll(d, ks))
  }

  /** The keys of the input lines `lines`. */
  ghost function KeysOfLines(s: Script, lines: seq<string>): set<nat>
    decreases |lines|
  {
    if |lines| == 0 then {}
    else
      var line := lines[|lines| - 1];
      KeysOfLines(s, lines[..|lines| - 1]) +
        if Minterms.InputLine(Minterms.Old, line) && LineKeys(s, Strip(line)).Ok? then set k | k in LineKeys(s, Strip(line)).value else {}
  }

  /** The symbols of an input line form a label. */
  lemma InputLineLabel(line: string)
    requires Minterms.InputLine(Minterms.Old, line)
    ensures IsLabel(Strip(line)) && |Strip(line)| == Minterms.SymbolSpan(Minterms.Old, line)
  {
    Minterms.InputLineStrip(Minterms.Old, line);
  }

  /**
   * What one label stands for: in minish-countermodels.py an aggregated label stands for
   * exactly the minterms it subsumes; any other label stands for its own key. Every key is
   * a label key of the label's width.
   */
  lemma LineKeysMeaning(s: Script, m: string)
    requires IsLabel(m)
    ensures LineKeys(s, m).Ok?
    ensures s == Countermodels && HasAggregate(m) ==>
      CoversExactly(Encode(Pipeline, m).value, set k | k in LineKeys(s, m).value, |m|)
    ensures !(s == Countermodels && HasAggregate(m)) ==> LineKeys(s, m) == Ok([Encode(Pipeline, m).value])
    ensures forall k :: k in LineKeys(s, m).value ==> LabelKey(k, |m|)
  {
    LabelKeyOfLabel(m);
    if s == Countermodels && HasAggregate(m) {
      CountermodelsExactly(m);
      var ks := LineKeys(s, m).value;
      var cs := set c | c in ks;
      assert CoversExactly(Encode(Pipeline, m).value, cs, |m|);
      forall k | k in ks ensures LabelKey(k, |m|) {
        assert k in cs;
        assert ConcreteKey(k, |m|);
      }
    }
  }

  /** Storing one fresh entry. */
  lemma StoreKeeps(d: Dict, k: nat)
    requires DictOrdered(d)
    ensures var r := Store(d, k, Fresh(k));
      DictOrdered(r) && r.entries.Keys == d.entries.Keys + {k} && r.entries[k] == Fresh(k) &&
      forall x :: x in d.entries && x != k ==> r.entries[x] == d.entries[x]
  {
    var r := Store(d, k, Fresh(k));
    if k !in d.entries {
      assert forall i :: 0 <= i < |d.order| ==> r.order[i] == d.order[i];
      assert r.order[|d.order|] == k;
    }
  }

  /** Storing fresh entries keeps the order, stores every key fresh and leaves other keys alone. */
  lemma StoreAllKeeps(d: Dict, ks: seq<nat>)
    requires DictOrdered(d)
    ensures DictOrdered(StoreAll(d, ks))
    ensures StoreAll(d, ks).entries.Keys == d.entries.Keys + (set k | k in ks)
    ensures forall k :: k in ks ==> StoreAll(d, ks).entries[k] == Fresh(k)
    ensures forall k :: k in d.entries && k !in ks ==> StoreAll(d, ks).entries[k] == d.entries[k]
  {
    StoreAllKeys(d, ks);
    StoreAllEntries(d, ks);
    var sk := set k | k in ks;
    assert forall x :: x in StoreAll(d, ks).entries.Keys <==> x in d.entries.Keys + sk;
  }

  /** Storing fresh entries keeps the order and adds exactly the stored keys. */
  lemma {:induction false} StoreAllKeys(d: Dict, ks: seq<nat>)
    requires DictOrdered(d)
    ensures DictOrdered(StoreAll(d, ks))
    ensures forall x :: x in StoreAll(d, ks).entries <==> x in d.entries || x in ks
    decreases |ks|
  {
    if |ks| > 0 {
      var init, k := ks[..|ks| - 1], ks[|ks| - 1];
      StoreAllKeys(d, init);
      StoreKeeps(StoreAll(d, init), k);
      assert forall x :: x in ks <==> x in init || x == k;
    }
  }

  /** Storing fresh entries stores every key fresh and leaves other keys alone. */
  lemma {:induction false} StoreAllEntries(d: Dict, ks: seq<nat>)
    requires DictOrdered(d)
    ensures forall k :: k in ks ==> k in StoreAll(d, ks).entries && StoreAll(d, ks).entries[k] == Fresh(k)
    ensures forall k :: k in d.entries && k !in ks ==> k in StoreAll(d, ks).entries && StoreAll(d, ks).entries[k] == d.entries[k]
    decreases |ks|
  {
    if |ks| > 0 {
      var init, k := ks[..|ks| - 1], ks[|ks| - 1];
      StoreAllEntries(d, init);
      StoreAllKeys(d, init);
      var p := StoreAll(d, init);
      StoreKeeps(p, k);
      var r := StoreAll(d, ks);
      assert r == Store(p, k, Fresh(k));
      forall x | x in ks
        ensures x in r.entries && r.entries[x] == Fresh(x)
      {
        if x != k {
          assert x in init;
        }
      }
      forall x | x in d.entries && x !in ks
        ensures x in r.entries && r.entries[x] == d.entries[x]
      {
        assert x !in init;
      }
    }
  }

  /**
   * `parse_input` cannot fail on any input: its `except` branch is never taken. It keeps
   * exactly the keys of the label lines, each with a fresh entry, in insertion order.
   */
  lemma {:induction false} ParseLinesMeaning(s: Script, lines: seq<string>)
    ensures ParseLines(s, lines).Ok?
    ensures var d := ParseLines(s, lines).value;
      DictOrdered(d) && d.entries.Keys == KeysOfLines(s, lines) &&
      forall k :: k in d.entries ==> d.entries[k] == Fresh(k)
    decreases |lines|
  {
    if |lines| > 0 {
      var init, line := lines[..|lines| - 1], lines[|lines| - 1];
      ParseLinesMeaning(s, init);
      if Minterms.InputLine(Minterms.Old, line) {
        InputLineLabel(line);
        LineKeysMeaning(s, Strip(line));
        StoreAllKeeps(ParseLines(s, init).value, LineKeys(s, Strip(line)).value);
      }
    }
  }

  /** Every input label has width `n`. */
  predicate Widths(lines: seq<string>, n: nat)
  {
    forall j :: 0 <= j < |lines| && Minterms.InputLine(Minterms.Old, lines[j]) ==> Minterms.SymbolSpan(Minterms.Old, lines[j]) == n
  }

  /** When every input label has width `n`, every parsed key is a label key of width `n`. */
  lemma {:induction false} KeysOfLinesWidth(s: Script, lines: seq<string>, n: nat)
    requires Widths(lines, n)
    ensures forall k :: k in KeysOfLines(s, lines) ==> LabelKey(k, n)
    decreases |lines|
  {
    if |lines| > 0 {
      var init, line := lines[..|lines| - 1], lines[|lines| - 1];
      assert Widths(init, n) by {
        forall j | 0 <= j < |init| && Minterms.InputLine(Minterms.Old, init[j]) ensures Minterms.SymbolSpan(Minterms.Old, init[j]) == n {
          assert init[j] == lines[j];
        }
      }
      KeysOfLinesWidth(s, init, n);
      if Minterms.InputLine(Minterms.Old, line) {
        InputLineLabel(line);
        LineKeysMeaning(s, Strip(line));
      }
    }
  }

  /** The `for id in eids` loop. */
  method StoreKeys(table: MintermTable, ks: seq<nat>)
    requires table.Ordered()
    modifies table
    ensures table.Ordered()
    ensures Dict(table.order, table.entries) == StoreAll(old(Dict(table.order, table.entries)), ks)
  {
    ghost var d0 := Dict(table.order, table.entries);
    for i := 0 to |ks|
      invariant table.Ordered()
      invariant Dict(table.order, table.entries) == StoreAll(d0, ks[..i])
    {
      assert ks[..i + 1][..i] == ks[..i];
      table.Put(ks[i], Fresh(ks[i]));
    }
    assert ks[..|ks|] == ks;
  }

  /** `parse_input(file_contents)`, which never raises. */
  method ParseInput(s: Script, text: string) returns (table: MintermTable)
    ensures fresh(table) && table.Ordered()
    ensures ParseLines(s, Split(text, "\n")) == Ok(Dict(table.order, table.entries))
  {
    table := new MintermTable();
    var lines := Split(text, "\n");
    for i := 0 to |lines|
      invariant table.Ordered()
      invariant ParseLines(s, lines[..i]) == Ok(Dict(table.order, table.entries))
    {
      assert lines[..i + 1][..i] == lines[..i];
      ParseLine(table, s, lines[i]);
    }
    assert lines[..|lines|] == lines;
  }

  /** The body of `for line in lines`: the keys of a label line stored with fresh entries. */
  method ParseLine(table: MintermTable, s: Script, line: string)
    requires table.Ordered()
    modifies table
    ensures table.Ordered()
    ensures AddLine(s, old(Dict(table.order, table.entries)), line) == Ok(Dict(table.order, table.entries))
  {
    if Minterms.InputLine(Minterms.Old, line) {
      var m := Strip(line);
      InputLineLabel(line);
      LineKeysMeaning(s, m);
      var eids: seq<nat>;
      if s == Countermodels && HasAggregate(m) {
        eids := Expand.Countermodels(m).value;
      } else {
        eids := [Encode(Pipeline, m).value];
      }
      StoreKeys(table, eids);
    }
  }

  // ---------------------------------------------------------------- totalization

  /** `re.match(r"^[0,2]+$", label)`; the comma inside the class is literal. */
  predicate ZeroTwo(lbl: string)
  {
    |lbl| > 0 && forall i :: 0 <= i < |lbl| ==> lbl[i] == '0' || lbl[i] == ',' || lbl[i] == '2'
  }

  /** `get_totalize` (minish-countermodels.py) or `totalize` (bitwise-minterms.py). */
  function Totalize(s: Script, lbl: string): Result<seq<nat>>
  {
    if s == Countermodels then GetTotalize(lbl) else TotalizeKeys(lbl)
  }

  /** The entry of `k` after the totalization loop: over `0` and `2`, its covers become its totalizations. */
  function TotalizedEntry(s: Script, k: nat, e: Implicant): Result<Implicant>
  {
    match Decode(Pipeline, k)
    case Err(f) => Err(f)
    case Ok(lbl) =>
      if !ZeroTwo(lbl) then Ok(e)
      else match Totalize(s, lbl)
        case Err(f) => Err(f)
        case Ok(ts) => Ok(e.(covers := set t | t in ts))
  }

  /** The `for k,v in minterm_dict.items()` totalization loop over the keys `ks`. */
  function TotalizeAll(s: Script, entries: map<nat, Implicant>, ks: seq<nat>): Result<map<nat, Implicant>>
    decreases |ks|
  {
    if |ks| == 0 then Ok(entries)
    else match TotalizeAll(s, entries, ks[..|ks| - 1])
      case Err(f) => Err(f)
      case Ok(r) =>
        var k := ks[|ks| - 1];
        if k !in r then Ok(r)
        else match TotalizedEntry(s, k, r[k])
          case Err(f) => Err(f)
          case Ok(e) => Ok(r[k := e])
  }

  /** A failure ends the loop: the keys after it are not read. */
  lemma {:induction false} TotalizeAllFails(s: Script, entries: map<nat, Implicant>, ks: seq<nat>, j: nat)
    requires j <= |ks| && TotalizeAll(s, entries, ks[..j]).Err?
    ensures TotalizeAll(s, entries, ks) == TotalizeAll(s, entries, ks[..j])
    decreases |ks| - j
  {
    if j < |ks| {
      assert ks[..j + 1][..j] == ks[..j];
      TotalizeAllFails(s, entries, ks, j + 1);
    } else {
      assert ks[..j] == ks;
    }
  }

  /** The totalization loop. */
  method TotalizeTable(table: MintermTable, s: Script) returns (r: Result<()>)
    requires table.Ordered()
    modifies table
    ensures table.Ordered() && table.order == old(table.order)
    ensures r.Ok? <==> TotalizeAll(s, old(table.entries), old(table.order)).Ok?
    ensures r.Ok? ==> table.entries == TotalizeAll(s, old(table.entries), old(table.order)).value
    ensures r.Err? ==> r.fault == TotalizeAll(s, old(table.entries), old(table.order)).fault
  {
    ghost var e0 := table.entries;
    var ks := table.order;
    for i := 0 to |ks|
      invariant table.Ordered() && table.order == ks
      invariant TotalizeAll(s, e0, ks[..i]) == Ok(table.entries)
    {
      var k := ks[i];
      assert k in table.entries;
      var e := TotalizedEntry(s, k, table.entries[k]);
      TotalizeAllSnoc(s, e0, ks, i, table.entries);
      if e.Err? {
        TotalizeAllFails(s, e0, ks, i + 1);
        return Err(e.fault);
      }
      table.entries := table.entries[k := e.value];
    }
    assert ks[..|ks|] == ks;
    return Ok(());
  }

  /** One more key of the totalization loop. */
  lemma TotalizeAllSnoc(s: Script, entries: map<nat, Implicant>, ks: seq<nat>, i: nat, r: map<nat, Implicant>)
    requires i < |ks| && TotalizeAll(s, entries, ks[..i]) == Ok(r) && ks[i] in r
    ensures TotalizeAll(s, entries, ks[..i + 1]) ==
      match TotalizedEntry(s, ks[i], r[ks[i]])
      case Err(f) => Err(f)
      case Ok(e) => Ok(r[ks[i] := e])
  {
    assert ks[..i + 1][..i] == ks[..i];
  }

  /**
   * The totalization of a key over `0` and `2` in either script: its covers become exactly
   * the keys it totalizes to (any of its `2`s read as `1`), the key itself among them;
   * any other label key keeps its entry.
   */
  lemma TotalizedEntryMeaning(s: Script, k: nat, e: Implicant, n: nat)
    requires LabelKey(k, n)
    ensures TotalizedEntry(s, k, e).Ok?
    ensures var lbl := Decode(Pipeline, k).value;
      !ZeroTwo(lbl) ==> TotalizedEntry(s, k, e) == Ok(e)
    ensures var lbl := Decode(Pipeline, k).value; var r := TotalizedEntry(s, k, e).value;
      ZeroTwo(lbl) ==> (r.marked == e.marked && r.totalcovers == e.totalcovers && k in r.covers &&
        forall t: nat :: t in r.covers <==> TotalizesTo(k, t))
  {
    LabelKeyDecodes(k, n);
    var lbl := Decode(Pipeline, k).value;
    if ZeroTwo(lbl) {
      TotalizedZeroTwo(s, k, n, lbl);
    }
  }

  /** Either script's totalization of a label over `0` and `2` lists exactly what its key totalizes to. */
  lemma TotalizedZeroTwo(s: Script, k: nat, n: nat, lbl: string)
    requires Decode(Pipeline, k) == Ok(lbl) && IsLabel(lbl) && Encode(Pipeline, lbl) == Ok(k) && ZeroTwo(lbl) && |lbl| == n
    ensures Totalize(s, lbl).Ok? && k in Totalize(s, lbl).value
    ensures forall t: nat :: t in Totalize(s, lbl).value <==> TotalizesTo(k, t)
  {
    var ks := TotalizedGet(k, n, lbl);
    if s == Bitwise {
      TotalizedBitwise(lbl, ks);
    }
  }

  /** `get_totalize` of a label over `0` and `2`. */
  lemma TotalizedGet(k: nat, n: nat, lbl: string) returns (ks: seq<nat>)
    requires Decode(Pipeline, k) == Ok(lbl) && IsLabel(lbl) && Encode(Pipeline, lbl) == Ok(k) && ZeroTwo(lbl) && |lbl| == n
    ensures IsConcrete(lbl) && GetTotalize(lbl) == Ok(ks)
    ensures k in ks && forall t: nat :: t in ks <==> TotalizesTo(k, t)
  {
    assert IsConcrete(lbl);
    ConcreteOfLabel(lbl);
    var ts := TotalizeLabels(lbl);
    TotalizeLabelsConcrete(lbl);
    assert forall j :: 0 <= j < |ts| ==> ts[j] in ts;
    EncodeAllOk(ts);
    ks := GetTotalize(lbl).value;
    TotalizedKeysExactly(k, n, lbl, ks);
  }

  /** `totalize` of a label over `0` and `2` lists the keys `get_totalize` lists. */
  lemma TotalizedBitwise(lbl: string, ks: seq<nat>)
    requires IsLabel(lbl) && IsConcrete(lbl) && ZeroTwo(lbl) && GetTotalize(lbl) == Ok(ks)
    ensures TotalizeKeys(lbl).Ok? && forall t :: t in TotalizeKeys(lbl).value <==> t in ks
  {
    var ts := TotalizeLabels(lbl);
    forall x ensures x in Patterns(lbl) <==> x in ts {
      TotalizeAgree(lbl, x);
    }
    TotalizeKeysAgree(lbl, ks);
  }

  /** The keys `get_totalize` lists for the label of a minterm are exactly what the minterm totalizes to. */
  lemma TotalizedKeysExactly(k: nat, n: nat, lbl: string, ks: seq<nat>)
    requires ConcreteKey(k, n) && IsLabel(lbl) && IsConcrete(lbl) && Decode(Pipeline, k) == Ok(lbl)
    requires Encode(Pipeline, lbl) == Ok(k) && GetTotalize(lbl) == Ok(ks)
    ensures k in ks && forall t: nat :: t in ks <==> TotalizesTo(k, t)
  {
    var ts := TotalizeLabels(lbl);
    forall t: nat ensures t in ks <==> TotalizesTo(k, t) {
      if t in ks {
        TotalizedKeyTotalizes(k, lbl, ks, t);
      }
      if TotalizesTo(k, t) {
        var x := LanesTotalizedLabel(k, t, n);
        EncodeAllMember(ts, ks, x);
      }
    }
    GetTotalizeMember(lbl, lbl);
    EncodeAllMember(ts, ks, lbl);
  }

  /** On a label over `0` and `2`, `totalize` lists the same keys as `get_totalize`. */
  lemma TotalizeKeysAgree(lbl: string, ks: seq<nat>)
    requires IsLabel(lbl) && IsConcrete(lbl) && GetTotalize(lbl) == Ok(ks)
    requires forall x :: x in Patterns(lbl) <==> x in TotalizeLabels(lbl)
    ensures TotalizeKeys(lbl).Ok? && forall t :: t in TotalizeKeys(lbl).value <==> t in ks
  {
    var ps := Patterns(lbl);
    var ts := TotalizeLabels(lbl);
    TotalizeLabelsConcrete(lbl);
    forall j | 0 <= j < |ps| ensures IsLabel(ps[j]) {
      assert ps[j] in ts;
    }
    EncodeAllOk(ps);
    var qs := TotalizeKeys(lbl).value;
    forall t ensures t in qs <==> t in ks {
      if t in qs {
        var j :| 0 <= j < |qs| && qs[j] == t;
        EncodeAllMember(ts, ks, ps[j]);
      }
      if t in ks {
        var j :| 0 <= j < |ks| && ks[j] == t;
        EncodeAllMember(ps, qs, ts[j]);
      }
    }
  }

  // ---------------------------------------------------------------- the frontier loop

  /** Every key of `entries` is a label key of width `n`. */
  ghost predicate LabelKeys(entries: map<nat, Implicant>, n: nat)
  {
    forall k :: k in entries ==> LabelKey(k, n)
  }

  /** The entry `minterm_dict.update({result: ...})` stores: unmarked, with both operands' covers. */
  function Overwrite(e0: Implicant, e1: Implicant): Implicant
  {
    Implicant(false, e0.covers + e1.covers, {})
  }

  /**
   * One accepted pair: the keys the merge absorbs are marked, then the result is stored
   * with the operands' covers, replacing any entry it already had.
   */
  ghost function FrontierMerge(d: Dict, m: Merge): Dict
    requires m.p0 in d.entries && m.p1 in d.entries
  {
    Store(Dict(d.order, MarkAll(d.entries, MarkedBy(d.entries.Keys, m))), m.result, Overwrite(d.entries[m.p0], d.entries[m.p1]))
  }

  /** A round so far: the table and the results in the order they first occur (`new_adjval_dict`). */
  datatype Round = Round(d: Dict, next: seq<nat>)

  /** One candidate pair of a round: merged when `check_adjacent` accepts it. */
  ghost function FrontierOnce(st: Round, p0: nat, p1: nat): Round
  {
    if p0 in st.d.entries && p1 in st.d.entries && AdjacencyOf(false, p0, p1).isValid then
      var m := MergeOf(p0, p1);
      Round(FrontierMerge(st.d, m), if m.result in st.next then st.next else st.next + [m.result])
    else st
  }

  /** The candidate pairs `ps` of a round, in order. */
  ghost function FrontierPairs(d: Dict, ps: seq<(nat, nat)>): Round
    decreases |ps|
  {
    if |ps| == 0 then Round(d, [])
    else
      var p := ps[|ps| - 1];
      FrontierOnce(FrontierPairs(d, ps[..|ps| - 1]), p.0, p.1)
  }

  /** One round over the frontier `frontier`: its pairs of keys whose `get_adjval` values are 1 apart. */
  ghost function FrontierRoundOf(d: Dict, frontier: seq<nat>): Round
  {
    FrontierPairs(d, Candidates(HatDash, frontier))
  }

  /** The first `r` rounds from the table `d` and the frontier `frontier`. */
  ghost function FrontierRounds(d: Dict, frontier: seq<nat>, r: nat): Round
    decreases r
  {
    if r == 0 then Round(d, frontier)
    else
      var st := FrontierRounds(d, frontier, r - 1);
      FrontierRoundOf(st.d, st.next)
  }

  /** The number of bits set in an octal digit: how many of `0 1 2` the symbol allows. */
  function Bits(d: nat): nat
  {
    if d == 0 then 0 else d % 2 + Bits(d / 2)
  }

  /** The bits set in the lowest `m` lanes of `k`. */
  function Pop(k: nat, m: nat): nat
  {
    if m == 0 then 0 else Pop(k, m - 1) + Bits(Lane(k, m - 1))
  }

  /** A label key of width `n` sets between one and three bits in each lane. */
  lemma {:induction false} PopRange(k: nat, n: nat, m: nat)
    requires LabelKey(k, n) && m <= n
    ensures m <= Pop(k, m) <= 3 * m
  {
    if m > 0 {
      PopRange(k, n, m - 1);
      var d := Lane(k, m - 1);
      assert IsCode(d);
      assert Bits(1) == 1 && Bits(2) == 1 && Bits(4) == 1 && Bits(3) == 2 && Bits(6) == 2 && Bits(7) == 3;
    }
  }

  /** Two keys that agree outside one lane differ in their bits by that lane alone. */
  lemma {:induction false} PopOneLane(a: nat, b: nat, lane: nat, m: nat)
    requires forall i: nat :: i < m && i != lane ==> Lane(a, i) == Lane(b, i)
    ensures Pop(b, m) + (if lane < m then Bits(Lane(a, lane)) else 0) == Pop(a, m) + (if lane < m then Bits(Lane(b, lane)) else 0)
  {
    if m > 0 {
      PopOneLane(a, b, lane, m - 1);
    }
  }

  /**
   * A pair a round accepts: its adjacency values are 1 apart, so the merged lane goes from
   * `0` to `1`, from `1` to `2` or from `z` to `o`; the result sets one bit more than the
   * lower operand, and the merge marks at least one operand.
   */
  lemma FrontierPairFacts(frontier: seq<nat>, keys: set<nat>, p0: nat, p1: nat, n: nat)
    requires forall k :: k in frontier ==> LabelKey(k, n)
    requires (p0, p1) in Candidates(HatDash, frontier) && AdjacencyOf(false, p0, p1).isValid
    requires p0 in keys && p1 in keys
    ensures var m := MergeOf(p0, p1); var d0, d1 := Lane(p0, m.lane), Lane(p1, m.lane);
      (d0 == 1 && d1 == 2) || (d0 == 2 && d1 == 4) || (d0 == 3 && d1 == 6)
    ensures Pop(MergeOf(p0, p1).result, n) == Pop(p0, n) + 1
    ensures p0 in MarkedBy(keys, MergeOf(p0, p1)) || p1 in MarkedBy(keys, MergeOf(p0, p1))
  {
    CandidatesMember(HatDash, frontier, p0, p1);
    AdjvalOneStep(p0, p1, n);
    MergePop(p0, p1, n);
    UnguardedMergeMarksOperand(keys, p0, p1, n);
  }

  /** The result of a merge one step up the `get_adjval` weights sets one bit more than its lower operand. */
  lemma MergePop(p0: nat, p1: nat, n: nat)
    requires LabelKey(p0, n) && LabelKey(p1, n) && AdjacencyOf(false, p0, p1).isValid
    requires var lane := MergeOf(p0, p1).lane; var d0, d1 := Lane(p0, lane), Lane(p1, lane);
      (d0 == 1 && d1 == 2) || (d0 == 2 && d1 == 4) || (d0 == 3 && d1 == 6)
    ensures Pop(MergeOf(p0, p1).result, n) == Pop(p0, n) + 1
  {
    var m := MergeOf(p0, p1);
    MergeOfValid(false, p0, p1, n);
    MergeLaneBits(Lane(p0, m.lane), Lane(p1, m.lane));
    PopOneLane(p0, m.result, m.lane, n);
  }

  /** Or-ing a `1` with a `2`, a `2` with a `4` or a `3` with a `6` sets one bit more than the lower digit. */
  lemma MergeLaneBits(d0: nat, d1: nat)
    requires (d0 == 1 && d1 == 2) || (d0 == 2 && d1 == 4) || (d0 == 3 && d1 == 6)
    ensures d1 < 8 && Bits(DigitOp(OrOp, d0, d1)) == Bits(d0) + 1
  {
    assert DigitOp(OrOp, 1, 2) == 3 && DigitOp(OrOp, 2, 4) == 6 && DigitOp(OrOp, 3, 6) == 7;
    assert Bits(1) == 1 && Bits(2) == 1 && Bits(3) == 2 && Bits(6) == 2 && Bits(7) == 3;
  }

  /** A merge keeps the order well formed, adds just its result, and covers nothing new. */
  lemma FrontierMergeKeeps(d: Dict, m: Merge, n: nat)
    requires DictOrdered(d) && m.p0 in d.entries && m.p1 in d.entries
    ensures var r := FrontierMerge(d, m);
      DictOrdered(r) && r.entries.Keys == d.entries.Keys + {m.result} &&
      AllCovers(r.entries) <= AllCovers(d.entries) &&
      r.entries[m.result].covers == d.entries[m.p0].covers + d.entries[m.p1].covers && !r.entries[m.result].marked
  {
    var marked := Dict(d.order, MarkAll(d.entries, MarkedBy(d.entries.Keys, m)));
    StoreKeeps'(marked, m.result, Overwrite(d.entries[m.p0], d.entries[m.p1]));
    var r := FrontierMerge(d, m);
    forall c | c in AllCovers(r.entries) ensures c in AllCovers(d.entries) {
      var k :| k in r.entries && c in r.entries[k].covers;
      if k == m.result {
        if c in d.entries[m.p0].covers {
          assert c in AllCovers(d.entries) by { assert m.p0 in d.entries; }
        } else {
          assert c in AllCovers(d.entries) by { assert m.p1 in d.entries; }
        }
      } else {
        assert r.entries[k].covers == d.entries[k].covers;
      }
    }
  }

  /** Storing any entry keeps the order well formed. */
  lemma StoreKeeps'(d: Dict, k: nat, e: Implicant)
    requires DictOrdered(d)
    ensures DictOrdered(Store(d, k, e)) && Store(d, k, e).entries == d.entries[k := e]
  {
    var r := Store(d, k, e);
    if k !in d.entries {
      assert forall i :: 0 <= i < |d.order| ==> r.order[i] == d.order[i];
      assert r.order[|d.order|] == k;
    }
  }

  /** The body of `if adj['is_valid']:` on the table: marks, then stores the result's entry. */
  method MergeFrontierPair(table: MintermTable, left: nat, right: nat, adj: Adjacency, ghost n: nat)
    requires table.Ordered() && left in table.entries && right in table.entries
    requires LabelKey(left, n) && LabelKey(right, n)
    requires adj == AdjacencyOf(false, left, right) && adj.isValid
    modifies table
    ensures table.Ordered()
    ensures Dict(table.order, table.entries) == FrontierMerge(old(Dict(table.order, table.entries)), MergeOf(left, right))
  {
    ghost var m := MergeOf(left, right);
    MergeOfValid(false, left, right, n);
    var result := adj.octVal.value;
    var chPos := adj.changePos;
    DigitCharAt(result, m.lane, 7);
    if OctCharAt(result, chPos) == Ok('7') {
      MarkSimilarToResult(table, result, chPos, m);
    } else {
      MarkOperands(table, left, right, chPos, m, n);
    }
    var newcovers := table.entries[left].covers + table.entries[right].covers;
    table.Put(result, Implicant(false, newcovers, {}));
  }

  /** `new_adjval_dict` gains a result: appended to the bucket of its `get_adjval` value unless already there. */
  method Record(buckets: map<nat, seq<nat>>, values: seq<nat>, result: nat, ghost next: seq<nat>, ghost n: nat)
    returns (buckets': map<nat, seq<nat>>, values': seq<nat>)
    requires Grouped(HatDash, next, buckets, values) && LabelKey(result, n)
    ensures Grouped(HatDash, if result in next then next else next + [result], buckets', values')
  {
    LabelKeyWeighs(Adjval, result, n, n);
    var w := LaneSum(Adjval, result);
    var keyadjval := w.value;
    assert AdjOf(HatDash, result) == Ok(keyadjval);
    if keyadjval !in buckets {
      assert keyadjval !in AdjValues(HatDash, next);
      GroupedNew(HatDash, next, result, keyadjval, buckets, values);
      buckets', values' := buckets[keyadjval := [result]], values + [keyadjval];
    } else if result !in buckets[keyadjval] {
      GroupedOld(HatDash, next, result, keyadjval, buckets, values);
      buckets', values' := buckets[keyadjval := buckets[keyadjval] + [result]], values;
    } else {
      buckets', values' := buckets, values;
    }
  }

  /** The pairs of one round: `sorted(adjval_dict)`, its neighbours 1 apart, and the products of their buckets. */
  method RoundPairs(buckets: map<nat, seq<nat>>, values: seq<nat>, ghost frontier: seq<nat>) returns (pairs: seq<(nat, nat)>)
    requires Grouped(HatDash, frontier, buckets, values)
    ensures pairs == Candidates(HatDash, frontier)
  {
    var sorted := Sorted(values);
    var bucketPairs := Consecutive(sorted);
    assert bucketPairs == BucketPairs(HatDash, sorted);
    pairs := CandidatePairs(HatDash, frontier, buckets, bucketPairs);
  }

  /** What a round keeps while it reads its pairs. */
  ghost predicate RoundKeeps(table: MintermTable, d0: Dict, next: seq<nat>, b: nat, n: nat)
    reads table
  {
    RoundFits(Dict(table.order, table.entries), d0, next, b, n)
  }

  /** What a round keeps of the table `d` it started from `d0`, with the results `next` so far. */
  ghost predicate RoundFits(d: Dict, d0: Dict, next: seq<nat>, b: nat, n: nat)
  {
    && DictOrdered(d) && LabelKeys(d.entries, n)
    && (forall k :: k in next ==> k in d.entries && Pop(k, n) >= b + 1)
    && d0.entries.Keys <= d.entries.Keys
    && AllCovers(d.entries) <= AllCovers(d0.entries)
  }

  /** A merge whose result is a label key one bit up keeps what a round keeps. */
  lemma MergeKeepsRound(d: Dict, d0: Dict, next: seq<nat>, m: Merge, b: nat, n: nat)
    requires RoundFits(d, d0, next, b, n) && m.p0 in d.entries && m.p1 in d.entries
    requires LabelKey(m.result, n) && Pop(m.result, n) >= b + 1
    ensures RoundFits(FrontierMerge(d, m), d0, if m.result in next then next else next + [m.result], b, n)
  {
    FrontierMergeKeeps(d, m, n);
  }

  /**
   * What a round needs of a candidate pair: both keys are label keys of the table it started
   * from, and an accepted pair merges into a key setting at least `b + 1` bits.
   */
  ghost predicate PairReady(p: (nat, nat), d0: Dict, b: nat, n: nat)
  {
    && p.0 in d0.entries && p.1 in d0.entries && LabelKey(p.0, n) && LabelKey(p.1, n)
    && (AdjacencyOf(false, p.0, p.1).isValid ==> Pop(MergeOf(p.0, p.1).result, n) >= b + 1)
  }

  /** Every candidate pair of a frontier of label keys setting at least `b` bits each is ready. */
  lemma PairsReady(frontier: seq<nat>, d0: Dict, b: nat, n: nat)
    requires LabelKeys(d0.entries, n)
    requires forall k :: k in frontier ==> k in d0.entries && Pop(k, n) >= b
    ensures forall p :: p in Candidates(HatDash, frontier) ==> PairReady(p, d0, b, n)
  {
    forall p | p in Candidates(HatDash, frontier)
      ensures PairReady(p, d0, b, n)
    {
      CandidatesMember(HatDash, frontier, p.0, p.1);
      if AdjacencyOf(false, p.0, p.1).isValid {
        FrontierPairFacts(frontier, d0.entries.Keys, p.0, p.1, n);
      }
    }
  }

  /** The body of `for left ... for right ...` for one candidate pair of the frontier. */
  method FrontierStep(table: MintermTable, left: nat, right: nat, buckets: map<nat, seq<nat>>, values: seq<nat>,
                      ghost next: seq<nat>, ghost d0: Dict, ghost b: nat, ghost n: nat)
    returns (buckets': map<nat, seq<nat>>, values': seq<nat>, ghost next': seq<nat>)
    requires PairReady((left, right), d0, b, n)
    requires RoundKeeps(table, d0, next, b, n) && Grouped(HatDash, next, buckets, values)
    modifies table
    ensures RoundKeeps(table, d0, next', b, n) && Grouped(HatDash, next', buckets', values')
    ensures FrontierOnce(Round(old(Dict(table.order, table.entries)), next), left, right) == Round(Dict(table.order, table.entries), next')
  {
    buckets', values', next' := buckets, values, next;
    var adj := CheckAdjacent(false, left, right);
    if adj.isValid {
      buckets', values', next' := StepMerge(table, left, right, adj, buckets, values, next, d0, b, n);
    }
  }

  /** The body of `if adj['is_valid']:` in a round: the merge, and its result bucketed for the next round. */
  method StepMerge(table: MintermTable, left: nat, right: nat, adj: Adjacency, buckets: map<nat, seq<nat>>, values: seq<nat>,
                   ghost next: seq<nat>, ghost d0: Dict, ghost b: nat, ghost n: nat)
    returns (buckets': map<nat, seq<nat>>, values': seq<nat>, ghost next': seq<nat>)
    requires RoundKeeps(table, d0, next, b, n) && Grouped(HatDash, next, buckets, values)
    requires left in table.entries && right in table.entries && LabelKey(left, n) && LabelKey(right, n)
    requires adj == AdjacencyOf(false, left, right) && adj.isValid && Pop(MergeOf(left, right).result, n) >= b + 1
    modifies table
    ensures RoundKeeps(table, d0, next', b, n) && Grouped(HatDash, next', buckets', values')
    ensures var m := MergeOf(left, right);
      Round(Dict(table.order, table.entries), next') ==
      Round(FrontierMerge(old(Dict(table.order, table.entries)), m), if m.result in next then next else next + [m.result])
  {
    ghost var m := MergeOf(left, right);
    ghost var d := Dict(table.order, table.entries);
    MergeOfValid(false, left, right, n);
    MergeKeepsRound(d, d0, next, m, b, n);
    MergeFrontierPair(table, left, right, adj, n);
    var result := adj.octVal.value;
    buckets', values' := Record(buckets, values, result, next, n);
    next' := if result in next then next else next + [result];
  }

  /**
   * One round of `while len(adjval_dict)` over the buckets of the frontier `frontier`: every
   * pair from buckets whose values are 1 apart that `check_adjacent` accepts is merged, and
   * the results, each once, are bucketed for the next round. When every key of the
   * frontier sets at least `b` bits, every result sets at least `b + 1`.
   */
  method FrontierRound(table: MintermTable, buckets: map<nat, seq<nat>>, values: seq<nat>, ghost frontier: seq<nat>, ghost b: nat, ghost n: nat)
    returns (buckets': map<nat, seq<nat>>, values': seq<nat>, ghost next: seq<nat>)
    requires table.Ordered() && LabelKeys(table.entries, n) && Grouped(HatDash, frontier, buckets, values)
    requires forall k :: k in frontier ==> k in table.entries && Pop(k, n) >= b
    modifies table
    ensures table.Ordered() && LabelKeys(table.entries, n)
    ensures FrontierRoundOf(old(Dict(table.order, table.entries)), frontier) == Round(Dict(table.order, table.entries), next)
    ensures Grouped(HatDash, next, buckets', values')
    ensures forall k :: k in next ==> k in table.entries && Pop(k, n) >= b + 1
    ensures old(table.entries).Keys <= table.entries.Keys
    ensures AllCovers(table.entries) <= AllCovers(old(table.entries))
  {
    ghost var d0 := Dict(table.order, table.entries);
    var pairs := RoundPairs(buckets, values, frontier);
    PairsReady(frontier, d0, b, n);
    buckets', values', next := ReadPairs(table, pairs, d0, b, n);
  }

  /** The loop `for left ... for right ...` of a round over its candidate pairs `pairs`. */
  method ReadPairs(table: MintermTable, pairs: seq<(nat, nat)>, ghost d0: Dict, ghost b: nat, ghost n: nat)
    returns (buckets': map<nat, seq<nat>>, values': seq<nat>, ghost next: seq<nat>)
    requires table.Ordered() && LabelKeys(table.entries, n) && Dict(table.order, table.entries) == d0
    requires forall p :: p in pairs ==> PairReady(p, d0, b, n)
    modifies table
    ensures RoundKeeps(table, d0, next, b, n) && Grouped(HatDash, next, buckets', values')
    ensures FrontierPairs(d0, pairs) == Round(Dict(table.order, table.entries), next)
  {
    buckets', values', next := map[], [], [];
    for i := 0 to |pairs|
      invariant Reading(table, d0, pairs, i, next, buckets', values', b, n)
    {
      buckets', values', next := PairAt(table, pairs, i, buckets', values', next, d0, b, n);
    }
    assert pairs[..|pairs|] == pairs;
  }

  /** The loop invariant of a round after its first `i` pairs. */
  ghost predicate Reading(table: MintermTable, d0: Dict, pairs: seq<(nat, nat)>, i: nat, next: seq<nat>,
                          buckets: map<nat, seq<nat>>, values: seq<nat>, b: nat, n: nat)
    reads table
  {
    && i <= |pairs|
    && RoundKeeps(table, d0, next, b, n) && Grouped(HatDash, next, buckets, values)
    && FrontierPairs(d0, pairs[..i]) == Round(Dict(table.order, table.entries), next)
  }

  /** The first `i + 1` pairs of a round are the first `i` and then the pair `ps[i]`. */
  lemma PairsSnoc(d: Dict, ps: seq<(nat, nat)>, i: nat)
    requires i < |ps|
    ensures FrontierPairs(d, ps[..i + 1]) == FrontierOnce(FrontierPairs(d, ps[..i]), ps[i].0, ps[i].1)
  {
    assert ps[..i + 1][..i] == ps[..i];
  }

  /** The pair `pairs[i]` of a round. */
  method PairAt(table: MintermTable, pairs: seq<(nat, nat)>, i: nat, buckets: map<nat, seq<nat>>, values: seq<nat>,
                ghost next: seq<nat>, ghost d0: Dict, ghost b: nat, ghost n: nat)
    returns (buckets': map<nat, seq<nat>>, values': seq<nat>, ghost next': seq<nat>)
    requires i < |pairs| && (forall p :: p in pairs ==> PairReady(p, d0, b, n))
    requires Reading(table, d0, pairs, i, next, buckets, values, b, n)
    modifies table
    ensures Reading(table, d0, pairs, i + 1, next', buckets', values', b, n)
  {
    var (left, right) := pairs[i];
    PairsSnoc(d0, pairs, i);
    assert pairs[i] in pairs;
    buckets', values', next' := FrontierStep(table, left, right, buckets, values, next, d0, b, n);
  }

  /** A frontier of label keys that holds a key has a bucket. */
  lemma KeysHaveValues(frontier: seq<nat>, n: nat)
    requires (forall k :: k in frontier ==> LabelKey(k, n)) && |frontier| > 0
    ensures |BucketValues(HatDash, frontier)| > 0
  {
    var k := frontier[0];
    LabelKeyWeighs(Adjval, k, n, n);
    assert AdjOf(HatDash, k).value in AdjValues(HatDash, frontier);
  }

  /** A frontier of label keys has a bucket exactly when it holds a key. */
  lemma ValuesIffKeys(frontier: seq<nat>, n: nat)
    requires forall k :: k in frontier ==> LabelKey(k, n)
    ensures |frontier| > 0 <==> |BucketValues(HatDash, frontier)| > 0
  {
    if |frontier| > 0 {
      KeysHaveValues(frontier, n);
    }
    if |BucketValues(HatDash, frontier)| > 0 {
      var _ := SomeValueSomeKey(frontier);
    }
  }

  /** A frontier with a bucket holds a key. */
  lemma SomeValueSomeKey(frontier: seq<nat>) returns (k: nat)
    requires |BucketValues(HatDash, frontier)| > 0
    ensures k in frontier
  {
    var a := BucketValues(HatDash, frontier)[0];
    assert a in AdjValues(HatDash, frontier);
    k :| k in frontier && AdjOf(HatDash, k).Ok? && AdjOf(HatDash, k).value == a;
  }

  /**
   * The `while len(adjval_dict)` loop, starting from the buckets of every key of the table
   * in insertion order. After `r` rounds every key of the frontier sets at least `n + r`
   * bits, and a label key of width `n` sets at most `3n`: the loop ends, within `2n + 1`
   * rounds, with an empty frontier. Keys are only added, all of them label keys, and no
   * entry covers anything the table did not cover before.
   */
  method FrontierLoop(table: MintermTable, ghost n: nat) returns (rounds: nat)
    requires table.Ordered() && LabelKeys(table.entries, n)
    modifies table
    ensures table.Ordered() && LabelKeys(table.entries, n)
    ensures rounds <= 2 * n + 1
    ensures FrontierRounds(old(Dict(table.order, table.entries)), old(table.order), rounds) == Round(Dict(table.order, table.entries), [])
    ensures old(table.entries).Keys <= table.entries.Keys
    ensures AllCovers(table.entries) <= AllCovers(old(table.entries))
  {
    ghost var d0 := Dict(table.order, table.entries);
    ghost var frontier := table.order;
    var buckets, values := FirstBuckets(table, n);
    rounds := 0;
    while |values| > 0
      invariant Looping(Dict(table.order, table.entries), d0, frontier, buckets, values, rounds, n)
      decreases 2 * n + 1 - rounds
    {
      ghost var next;
      buckets, values, next := LoopRound(table, buckets, values, frontier, d0, rounds, n);
      frontier := next;
      rounds := rounds + 1;
    }
    LoopEnds(Dict(table.order, table.entries), d0, frontier, buckets, values, rounds, n);
  }

  /** What the loop keeps from round to round, about the table `cur` it has reached. */
  ghost predicate LoopKeeps(cur: Dict, d0: Dict, frontier: seq<nat>, b: nat, n: nat)
  {
    && DictOrdered(cur) && LabelKeys(cur.entries, n)
    && (forall k :: k in frontier ==> k in cur.entries && Pop(k, n) >= b)
    && d0.entries.Keys <= cur.entries.Keys
    && AllCovers(cur.entries) <= AllCovers(d0.entries)
  }

  /** The loop invariant after `rounds` rounds from the table `d0`. */
  ghost predicate Looping(cur: Dict, d0: Dict, frontier: seq<nat>, buckets: map<nat, seq<nat>>, values: seq<nat>, rounds: nat, n: nat)
  {
    && LoopKeeps(cur, d0, frontier, n + rounds, n) && Grouped(HatDash, frontier, buckets, values)
    && FrontierRounds(d0, d0.order, rounds) == Round(cur, frontier)
    && rounds <= 2 * n + 1
  }

  /** The loop ends when the frontier has no bucket left, and then the frontier is empty. */
  lemma LoopEnds(cur: Dict, d0: Dict, frontier: seq<nat>, buckets: map<nat, seq<nat>>, values: seq<nat>, rounds: nat, n: nat)
    requires Looping(cur, d0, frontier, buckets, values, rounds, n) && |values| == 0
    ensures FrontierRounds(d0, d0.order, rounds) == Round(cur, [])
  {
    ValuesIffKeys(frontier, n);
  }

  /** One pass of the loop body, with what the loop keeps. */
  method LoopRound(table: MintermTable, buckets: map<nat, seq<nat>>, values: seq<nat>, ghost frontier: seq<nat>, ghost d0: Dict, ghost rounds: nat, ghost n: nat)
    returns (buckets': map<nat, seq<nat>>, values': seq<nat>, ghost next: seq<nat>)
    requires Looping(Dict(table.order, table.entries), d0, frontier, buckets, values, rounds, n) && |values| > 0
    modifies table
    ensures Looping(Dict(table.order, table.entries), d0, next, buckets', values', rounds + 1, n)
  {
    var k := SomeValueSomeKey(frontier);
    PopRange(k, n, n);
    ghost var d := Dict(table.order, table.entries);
    buckets', values', next := FrontierRound(table, buckets, values, frontier, n + rounds, n);
    assert FrontierRounds(d0, d0.order, rounds + 1) == FrontierRoundOf(d, frontier);
  }

  /** The `adjval_dict` of every key of the table, before the loop. */
  method FirstBuckets(table: MintermTable, ghost n: nat) returns (buckets: map<nat, seq<nat>>, values: seq<nat>)
    requires table.Ordered() && LabelKeys(table.entries, n)
    ensures Grouped(HatDash, table.order, buckets, values)
    ensures LoopKeeps(Dict(table.order, table.entries), Dict(table.order, table.entries), table.order, n, n)
  {
    buckets, values := GroupByAdjval(HatDash, table.order, n);
    forall k | k in table.order ensures Pop(k, n) >= n {
      PopRange(k, n, n);
    }
  }

  // ---------------------------------------------------------------- the covering stage

  /** Every entry covers its own key. */
  ghost predicate SelfCovering(entries: map<nat, Implicant>)
  {
    forall k :: k in entries ==> k in entries[k].covers
  }

  /**
   * The totalization loop over label keys whose entries cover themselves never fails: it
   * keeps the keys and their marks, and every entry still covers its own key.
   */
  lemma {:induction false} TotalizeAllMeaning(s: Script, entries: map<nat, Implicant>, ks: seq<nat>, n: nat)
    requires LabelKeys(entries, n) && SelfCovering(entries)
    ensures TotalizeAll(s, entries, ks).Ok?
    ensures var r := TotalizeAll(s, entries, ks).value;
      r.Keys == entries.Keys && SelfCovering(r) && forall k :: k in r ==> r[k].marked == entries[k].marked
    decreases |ks|
  {
    if |ks| > 0 {
      TotalizeAllMeaning(s, entries, ks[..|ks| - 1], n);
      var r := TotalizeAll(s, entries, ks[..|ks| - 1]).value;
      var k := ks[|ks| - 1];
      if k in r {
        TotalizeOneKeeps(s, entries, r, k, n);
      }
    }
  }

  /** Totalizing the entry of one key keeps the keys, the marks and the self-cover. */
  lemma TotalizeOneKeeps(s: Script, entries: map<nat, Implicant>, r: map<nat, Implicant>, k: nat, n: nat)
    requires LabelKeys(entries, n) && k in r && r.Keys == entries.Keys && SelfCovering(r)
    requires forall j :: j in r ==> r[j].marked == entries[j].marked
    ensures TotalizedEntry(s, k, r[k]).Ok?
    ensures var r' := r[k := TotalizedEntry(s, k, r[k]).value];
      r'.Keys == entries.Keys && SelfCovering(r') && forall j :: j in r' ==> r'[j].marked == entries[j].marked
  {
    TotalizedEntryMeaning(s, k, r[k], n);
  }

  /** `initial_minterms`: the covers of each entry, as `cover_dict` reads them. */
  function InitialCovers(entries: map<nat, Implicant>): (initial: map<nat, set<nat>>)
    ensures initial.Keys == entries.Keys
    ensures SelfCovering(entries) ==> forall k :: k in initial ==> k in initial[k]
  {
    map k | k in entries :: entries[k].covers
  }

  /**
   * Where every initial minterm is among its own covers, every initial minterm an unmarked
   * prime covers has an entry in `cover_dict`: the prime itself is among its coverers.
   */
  lemma CoverTableListsCovered(initial: map<nat, set<nat>>, primes: map<nat, Implicant>, us: seq<nat>, iks: seq<nat>, u: nat)
    requires (forall ik :: ik in iks <==> ik in initial) && (forall x :: x in us ==> x in primes)
    requires forall ik :: ik in initial ==> ik in initial[ik]
    requires u in us
    ensures Cover.EssentialCover(Ruleset, primes[u]) * initial.Keys <= Cover.CoverTable(Ruleset, initial, primes, us, iks).Keys
  {
    var cd := Cover.CoverTable(Ruleset, initial, primes, us, iks);
    forall m | m in primes[u].covers && m in initial
      ensures m in cd
    {
      assert m in initial[m] * primes[u].covers;
      assert u in Cover.Coverers(Ruleset, m, initial, primes, us);
    }
  }

  /**
   * The single coverers of `cover_dict` are unmarked primes, so whatever they cover of the
   * initial minterms has an entry in `cover_dict`: the essential loop's `cover_dict[minid]`
   * never raises.
   */
  lemma SingleCoverersListed(initial: map<nat, set<nat>>, primes: map<nat, Implicant>, us: seq<nat>, iks: seq<nat>, e: nat)
    requires (forall ik :: ik in iks <==> ik in initial) && (forall x :: x in us ==> x in primes)
    requires forall ik :: ik in initial ==> ik in initial[ik]
    requires e in Cover.SingleCoverers(Cover.CoverTable(Ruleset, initial, primes, us, iks), iks)
    ensures e in us && e in primes
    ensures Cover.EssentialCover(Ruleset, primes[e]) * initial.Keys <= Cover.CoverTable(Ruleset, initial, primes, us, iks).Keys
  {
    var cd := Cover.CoverTable(Ruleset, initial, primes, us, iks);
    Cover.CoverTableFits(Ruleset, initial, primes, us, iks);
    var k :| k in iks && k in cd && |cd[k]| == 1 && cd[k][0] == e;
    assert e in cd[k];
    CoverTableListsCovered(initial, primes, us, iks, e);
  }

  /**
   * The covering stage (minish-countermodels.py:236-294, bitwise-minterms.py:206-259) over
   * the initial entries `initial`, read in the order `iks`, and the unmarked keys `us` of
   * the final table `primes`: `cover_dict` lists a prime under an initial minterm when
   * they share a cover. With `hybrid` (`--hybridcover`; always in bitwise-minterms.py) the
   * essential loop runs, and it cannot raise; unless it ends with a full cover, the
   * reduced problem `id_cover` is built from what it left.
   */
  method CoverStage(hybrid: bool, initial: map<nat, set<nat>>, iks: seq<nat>, primes: map<nat, Implicant>, us: seq<nat>, maxPasses: nat)
    returns (ending: Option<Cover.Ending>, essentials: seq<nat>, reduced: Option<seq<(nat, set<nat>)>>,
             cd: map<nat, seq<nat>>, used: set<nat>)
    requires NoDuplicates(iks) && (forall ik :: ik in iks <==> ik in initial) && (forall u :: u in us ==> u in primes)
    requires forall ik :: ik in initial ==> ik in initial[ik]
    ensures cd == Cover.CoverTable(Ruleset, initial, primes, us, iks)
    ensures hybrid <==> ending.Some?
    ensures !hybrid ==> essentials == [] && used == {}
    ensures NoDuplicates(essentials) && Cover.Elems(essentials) <= Cover.SingleCoverers(cd, iks)
    ensures used == Cover.Marks(Ruleset, primes, initial.Keys, Cover.Elems(essentials)) && used <= cd.Keys
    ensures ending == Some(Cover.FullCover) ==> used == cd.Keys
    ensures ending == Some(Cover.NoEssentials) ==> used < cd.Keys && forall k :: k in cd && k !in used ==> |cd[k]| != 1
    ensures reduced.Some? <==> ending.None? || ending == Some(Cover.NoEssentials)
    ensures reduced.Some? ==>
      reduced.value == Cover.IdCover(Ruleset, primes, Cover.PrimeLeft(hybrid, us, essentials), Cover.MinIds(hybrid, cd, used))
  {
    cd := Cover.BuildCoverTable(Ruleset, initial, iks, primes, us);
    Cover.CoverTableFits(Ruleset, initial, primes, us, iks);
    essentials, used, ending := [], {}, None;
    if hybrid {
      var r, passes;
      r, used, essentials, passes := Cover.EssentialLoop(Ruleset, primes, initial.Keys, iks, cd, maxPasses);
      forall e | e in Cover.SingleCoverers(cd, iks)
        ensures e in primes && Cover.EssentialCover(Ruleset, primes[e]) * initial.Keys <= cd.Keys
      {
        SingleCoverersListed(initial, primes, us, iks, e);
      }
      ending := Some(r.value);
      if r.value != Cover.NoEssentials {
        return ending, essentials, None, cd, used;
      }
    }
    var left := Cover.PrimeLeft(hybrid, us, essentials);
    var idc := Cover.BuildIdCover(Ruleset, primes, left, Cover.MinIds(hybrid, cd, used));
    reduced := Some(idc);
  }

  // ---------------------------------------------------------------- main

  /** `parse_input`, then the totalization loop: the table the frontier loop starts from. */
  ghost function Prepared(s: Script, text: string): Result<Dict>
  {
    match ParseLines(s, Split(text, "\n"))
    case Err(f) => Err(f)
    case Ok(d) =>
      match TotalizeAll(s, d.entries, d.order)
      case Err(f) => Err(f)
      case Ok(es) => Ok(Dict(d.order, es))
  }

  /**
   * Nothing before the frontier loop fails: the table holds the keys of the label lines,
   * in insertion order, unmarked, each covering its own key.
   */
  lemma PreparedMeaning(s: Script, text: string, n: nat)
    requires Widths(Split(text, "\n"), n)
    ensures Prepared(s, text).Ok?
    ensures var d := Prepared(s, text).value;
      DictOrdered(d) && d.entries.Keys == KeysOfLines(s, Split(text, "\n")) && LabelKeys(d.entries, n) && SelfCovering(d.entries) &&
      forall k :: k in d.entries ==> !d.entries[k].marked
  {
    var lines := Split(text, "\n");
    ParseLinesMeaning(s, lines);
    KeysOfLinesWidth(s, lines, n);
    var d := ParseLines(s, lines).value;
    TotalizeAllMeaning(s, d.entries, d.order, n);
  }

  /**
   * `main` of minish-countermodels.py (`s == Countermodels`, with `--hybridcover` as
   * `hybrid`) and of bitwise-minterms.py (which always runs the essential loop), over
   * input labels of width `n`, up to the solver: the table is prepared, the frontier loop
   * ends within `2n + 1` rounds, and the covering stage runs on its unmarked keys against
   * the prepared entries. No step raises.
   */
  method Minimize(s: Script, hybrid: bool, text: string, maxPasses: nat, ghost n: nat)
    returns (rounds: nat, ending: Option<Cover.Ending>, essentials: seq<nat>, reduced: Option<seq<(nat, set<nat>)>>,
             cd: map<nat, seq<nat>>, used: set<nat>, ghost final: Dict)
    requires Widths(Split(text, "\n"), n)
    ensures Prepared(s, text).Ok? && DictOrdered(Prepared(s, text).value) && rounds <= 2 * n + 1
    ensures FrontierRounds(Prepared(s, text).value, Prepared(s, text).value.order, rounds) == Round(final, [])
    ensures DictOrdered(final) && LabelKeys(final.entries, n)
    ensures cd == Cover.CoverTable(Ruleset, InitialCovers(Prepared(s, text).value.entries), final.entries,
                                   UnmarkedIn(final.order, final.entries), Prepared(s, text).value.order)
    ensures (s == Bitwise || hybrid) <==> ending.Some?
    ensures reduced.Some? <==> ending.None? || ending == Some(Cover.NoEssentials)
    ensures reduced.Some? ==>
      reduced.value == Cover.IdCover(Ruleset, final.entries, Cover.PrimeLeft(s == Bitwise || hybrid, UnmarkedIn(final.order, final.entries), essentials),
                                     Cover.MinIds(s == Bitwise || hybrid, cd, used))
  {
    var table := Prepare(s, text, n);
    ghost var d := Dict(table.order, table.entries);
    var initial := InitialCovers(table.entries);
    var iks := table.order;
    rounds := FrontierLoop(table, n);
    final := Dict(table.order, table.entries);
    var us := table.Unmarked();
    ending, essentials, reduced, cd, used := CoverStage(s == Bitwise || hybrid, initial, iks, table.entries, us, maxPasses);
  }

  /** `parse_input` and the totalization loop, which cannot fail. */
  method Prepare(s: Script, text: string, ghost n: nat) returns (table: MintermTable)
    requires Widths(Split(text, "\n"), n)
    ensures fresh(table) && table.Ordered()
    ensures Prepared(s, text) == Ok(Dict(table.order, table.entries)) && DictOrdered(Dict(table.order, table.entries))
    ensures LabelKeys(table.entries, n) && SelfCovering(table.entries)
  {
    table := ParseInput(s, text);
    PreparedMeaning(s, text, n);
    var t := TotalizeTable(table, s);
  }
}
