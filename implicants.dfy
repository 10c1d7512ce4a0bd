/**
 * The implicant table of the pair loops (`minterm_dict` of minish_hat.py, minish-hat.py
 * and minish-ruleset.py): a dictionary from keys to entries that the loops update in
 * place. An entry records whether the key has been absorbed by a larger implicant
 * (`marked`), the minterms it stands for (`covers`) and those minterms together with
 * their totalizations (`totalcovers`).
 */
module Implicants {
  import opened Wrappers
  import opened Octal
  import opened Codec
  import opened Weights
  import opened Expand
  import opened Keys
  import opened Adjacency

  // ---------------------------------------------------------------- minterm keys

  /** The lane codes of the three variable symbols `0 1 2`. */
  predicate IsVariableCode(d: nat)
  {
    d == 1 || d == 2 || d == 4
  }

  /** `k` is the key of a minterm (a label over `0 1 2`) with `n` symbols. */
  predicate ConcreteKey(k: nat, n: nat)
  {
    LabelKey(k, n) && forall i: nat :: i < n ==> IsVariableCode(Lane(k, i))
  }

  /** `c` is one of the minterms `k` stands for: every lane of `c` is a lane digit of `k`. */
  predicate Subsumes(k: nat, c: nat)
  {
    And(c, k) == c
  }

  /** The key of a concrete label is a minterm key. */
  lemma ConcreteOfLabel(lbl: string)
    requires IsLabel(lbl) && IsConcrete(lbl)
    ensures Encode(Pipeline, lbl).Ok? && ConcreteKey(Encode(Pipeline, lbl).value, |lbl|)
  {
    LabelKeyOfLabel(lbl);
    LanesOfLabel(lbl);
    var k := Encode(Pipeline, lbl).value;
    forall i: nat | i < |lbl| ensures IsVariableCode(Lane(k, i)) {
      assert IsVariable(lbl[|lbl| - 1 - i]);
    }
  }

  /** A minterm key decodes to a concrete label. */
  lemma ConcreteDecodes(k: nat, n: nat)
    requires ConcreteKey(k, n)
    ensures Decode(Pipeline, k).Ok? && IsLabel(Decode(Pipeline, k).value)
    ensures |Decode(Pipeline, k).value| == n && IsConcrete(Decode(Pipeline, k).value)
    ensures Encode(Pipeline, Decode(Pipeline, k).value) == Ok(k)
  {
    LabelKeyDecodes(k, n);
    var lbl := Decode(Pipeline, k).value;
    LanesOfLabel(lbl);
    forall j | 0 <= j < n ensures IsVariable(lbl[j]) {
      assert IsVariableCode(Lane(k, n - 1 - j));
    }
  }

  /** Every lane of `c` keeps only bits of the same lane of `k`. */
  ghost predicate LanesWithin(c: nat, k: nat)
  {
    forall i: nat :: DigitOp(AndOp, Lane(c, i), Lane(k, i)) == Lane(c, i)
  }

  /** Subsumption lane by lane: every lane of `c` keeps only bits of the same lane of `k`. */
  lemma SubsumesLanes(k: nat, c: nat)
    ensures Subsumes(k, c) <==> LanesWithin(c, k)
  {
    if Subsumes(k, c) {
      forall i: nat ensures DigitOp(AndOp, Lane(c, i), Lane(k, i)) == Lane(c, i) {
        LaneOfBitwise(AndOp, c, k, i);
      }
    }
    if LanesWithin(c, k) {
      forall i: nat ensures Lane(And(c, k), i) == Lane(c, i) {
        LaneOfBitwise(AndOp, c, k, i);
      }
      LaneExtensionality(And(c, k), c);
    }
  }

  /** A key subsumes itself. */
  lemma SubsumesSelf(k: nat)
    ensures Subsumes(k, k)
  {
    forall i: nat ensures DigitOp(AndOp, Lane(k, i), Lane(k, i)) == Lane(k, i) {
      var u := Lane(k, i) as bv3;
      assert u & u == u;
    }
    SubsumesLanes(k, k);
  }

  /** A minterm of `p` is a minterm of every `p | q`. */
  lemma SubsumesOr(p: nat, q: nat, c: nat)
    requires Subsumes(p, c)
    ensures Subsumes(Or(p, q), c)
  {
    SubsumesLanes(p, c);
    forall i: nat ensures DigitOp(AndOp, Lane(c, i), Lane(Or(p, q), i)) == Lane(c, i) {
      LaneOfBitwise(OrOp, p, q, i);
      var uc, up, uq := Lane(c, i) as bv3, Lane(p, i) as bv3, Lane(q, i) as bv3;
      assert uc & up == uc;
      assert uc & (up | uq) == uc;
    }
    SubsumesLanes(Or(p, q), c);
  }

  // ---------------------------------------------------------------- totalization

  /**
   * `list(get_totalize(octal_to_label(c)))` when `is_total(c)`, else nothing, as a set:
   * the keys obtained from the label of `c` by turning any of its `2`s into `1`.
   */
  function Totalization(c: nat): Result<set<nat>>
  {
    match KeyWeight(Total, c)
    case Err(f) => Err(f)
    case Ok(t) =>
      if t == 0 then Ok({})
      else match Decode(Pipeline, c)
        case Err(f) => Err(f)
        case Ok(lbl) =>
          match GetTotalize(lbl)
          case Err(f) => Err(f)
          case Ok(ks) => Ok(set x | x in ks)
  }

  /** `t` is `c` with any of its `2` lanes (code 4) read as `1` (code 2). */
  ghost predicate TotalizesTo(c: nat, t: nat)
  {
    forall i: nat :: Lane(t, i) == Lane(c, i) || (Lane(c, i) == 4 && Lane(t, i) == 2)
  }

  /** What a minterm totalizes to is a minterm of the same width. */
  lemma TotalizesToConcrete(c: nat, t: nat, n: nat)
    requires ConcreteKey(c, n) && TotalizesTo(c, t)
    ensures ConcreteKey(t, n)
  {
    forall i: nat | i >= n ensures Lane(t, i) == 0 {
      LaneAboveSpan(c, i);
    }
    assert Lane(t, n - 1) != 0 by {
      assert IsVariableCode(Lane(c, n - 1));
    }
    SpanFromLanes(t, n);
    forall i: nat | i < n ensures IsVariableCode(Lane(t, i)) {
      assert IsVariableCode(Lane(c, i));
    }
  }

  /**
   * Totalizing a minterm key: `c` together with `Totalization(c)` is exactly what `c`
   * totalizes to.
   */
  lemma TotalizationLanes(c: nat, n: nat)
    requires ConcreteKey(c, n)
    ensures Totalization(c).Ok?
    ensures forall t: nat :: t in {c} + Totalization(c).value <==> TotalizesTo(c, t)
  {
    ConcreteDecodes(c, n);
    var lbl := Decode(Pipeline, c).value;
    WeightOfLabel(Total, lbl);
    if LabelWeight(Total, lbl) == 0 {
      TotalizationOfBinary(c, n, lbl);
    } else {
      TotalizationOfTernary(c, n, lbl);
    }
  }

  /** A minterm with no `2` totalizes to itself alone. */
  lemma TotalizationOfBinary(c: nat, n: nat, lbl: string)
    requires ConcreteKey(c, n) && Decode(Pipeline, c) == Ok(lbl) && IsConcrete(lbl) && |lbl| == n
    requires Encode(Pipeline, lbl) == Ok(c) && KeyWeight(Total, c) == Ok(LabelWeight(Total, lbl))
    requires LabelWeight(Total, lbl) == 0
    ensures Totalization(c) == Ok({})
    ensures forall t: nat :: TotalizesTo(c, t) <==> t == c
  {
    TotalZeroIffBinary(lbl);
    LanesOfLabel(lbl);
    forall t: nat | TotalizesTo(c, t) ensures t == c {
      forall i: nat ensures Lane(t, i) == Lane(c, i) {
        if i < n {
          assert lbl[n - 1 - i] in "01";
        } else {
          LaneAboveSpan(c, i);
        }
      }
      LaneExtensionality(t, c);
    }
  }

  /** A minterm with some `2` totalizes to the keys `get_totalize` lists, itself among them. */
  lemma TotalizationOfTernary(c: nat, n: nat, lbl: string)
    requires ConcreteKey(c, n) && Decode(Pipeline, c) == Ok(lbl) && IsLabel(lbl) && IsConcrete(lbl) && |lbl| == n
    requires Encode(Pipeline, lbl) == Ok(c) && KeyWeight(Total, c) == Ok(LabelWeight(Total, lbl))
    requires LabelWeight(Total, lbl) != 0
    ensures Totalization(c).Ok? && c in Totalization(c).value
    ensures forall t: nat :: t in Totalization(c).value <==> TotalizesTo(c, t)
  {
    var ts := TotalizeLabels(lbl);
    TotalizeLabelsConcrete(lbl);
    EncodeAllOk(ts);
    var ks := GetTotalize(lbl).value;
    forall t: nat ensures t in ks <==> TotalizesTo(c, t) {
      if t in ks {
        TotalizedKeyTotalizes(c, lbl, ks, t);
      }
      if TotalizesTo(c, t) {
        var s := LanesTotalizedLabel(c, t, n);
        EncodeAllMember(ts, ks, s);
      }
    }
    GetTotalizeMember(lbl, lbl);
    EncodeAllMember(ts, ks, lbl);
  }

  /** A key `get_totalize` lists is one `c` totalizes to. */
  lemma TotalizedKeyTotalizes(c: nat, lbl: string, ks: seq<nat>, t: nat)
    requires IsLabel(lbl) && IsConcrete(lbl) && Encode(Pipeline, lbl) == Ok(c)
    requires GetTotalize(lbl) == Ok(ks) && t in ks
    ensures TotalizesTo(c, t)
  {
    var m :| 0 <= m < |ks| && ks[m] == t;
    TotalizedLabelLanes(lbl, TotalizeLabels(lbl)[m]);
  }

  /** The key of a label `EncodeAll` encodes is among its results. */
  lemma EncodeAllMember(labels: seq<string>, ks: seq<nat>, s: string)
    requires EncodeAll(labels) == Ok(ks) && s in labels
    ensures Encode(Pipeline, s).Ok? && Encode(Pipeline, s).value in ks
  {
    var m :| 0 <= m < |labels| && labels[m] == s;
    assert ks[m] == Encode(Pipeline, s).value;
  }

  /** The key of a totalization of a concrete label is what the label's key totalizes to. */
  lemma TotalizedLabelLanes(lbl: string, s: string)
    requires IsLabel(lbl) && IsConcrete(lbl) && s in TotalizeLabels(lbl)
    ensures IsLabel(s) && Encode(Pipeline, s).Ok?
    ensures TotalizesTo(Encode(Pipeline, lbl).value, Encode(Pipeline, s).value)
  {
    TotalizeLabelsConcrete(lbl);
    GetTotalizeMember(lbl, s);
    LanesOfLabel(lbl);
    LanesOfLabel(s);
    var n := |lbl|;
    var c, t := Encode(Pipeline, lbl).value, Encode(Pipeline, s).value;
    forall i: nat ensures Lane(t, i) == Lane(c, i) || (Lane(c, i) == 4 && Lane(t, i) == 2) {
      if i >= n {
        LaneAboveSpan(c, i);
        LaneAboveSpan(t, i);
      }
    }
  }

  /** What a minterm key totalizes to is the key of one of its label's totalizations. */
  lemma LanesTotalizedLabel(c: nat, t: nat, n: nat) returns (s: string)
    requires ConcreteKey(c, n) && TotalizesTo(c, t)
    ensures Decode(Pipeline, c).Ok? && s in TotalizeLabels(Decode(Pipeline, c).value)
    ensures Encode(Pipeline, s) == Ok(t)
  {
    TotalizesToConcrete(c, t, n);
    ConcreteDecodes(c, n);
    ConcreteDecodes(t, n);
    var lbl := Decode(Pipeline, c).value;
    s := Decode(Pipeline, t).value;
    LanesOfLabel(lbl);
    LanesOfLabel(s);
    forall j | 0 <= j < n ensures s[j] == lbl[j] || (lbl[j] == '2' && s[j] == '1') {
      var i: nat := n - 1 - j;
      assert Lane(t, i) == Lane(c, i) || (Lane(c, i) == 4 && Lane(t, i) == 2);
    }
    GetTotalizeMember(lbl, s);
  }

  /** Every totalization of a concrete label is a concrete label of the same width. */
  lemma TotalizeLabelsConcrete(lbl: string)
    requires IsLabel(lbl) && IsConcrete(lbl)
    ensures forall s :: s in TotalizeLabels(lbl) ==> IsLabel(s) && IsConcrete(s) && |s| == |lbl|
  {
    forall s | s in TotalizeLabels(lbl) ensures IsLabel(s) && IsConcrete(s) && |s| == |lbl| {
      GetTotalizeMember(lbl, s);
    }
  }

  /** `is_total`, `octal_to_label` and `get_totalize` of one key, as every script writes them. */
  method TotalizeKey(c: nat) returns (r: Result<set<nat>>)
    ensures r == Totalization(c)
  {
    var t := LaneSum(Total, c);
    if t.Err? {
      return Err(t.fault);
    }
    if t.value == 0 {
      return Ok({});
    }
    var lbl := OctalToLabel(Pipeline, c);
    if lbl.Err? {
      return Err(lbl.fault);
    }
    var ks := GetTotalize(lbl.value);
    if ks.Err? {
      return Err(ks.fault);
    }
    return Ok(set x | x in ks.value);
  }

  /** The same, for a minterm key, where it cannot fail: the result is what the key totalizes to. */
  method MintermTotalization(c: nat, ghost n: nat) returns (ts: set<nat>)
    requires ConcreteKey(c, n)
    ensures TotalCoversExactly({c}, {c} + ts)
  {
    var r := TotalizeKey(c);
    TotalizationLanes(c, n);
    ts := r.value;
    forall t: nat | t in {c} + ts ensures TotalizedFrom({c}, t) {
      assert c in {c} && TotalizesTo(c, t);
    }
  }

  /** Some minterm of `cs` totalizes to `t`. */
  ghost predicate TotalizedFrom(cs: set<nat>, t: nat)
  {
    exists c :: c in cs && TotalizesTo(c, t)
  }

  /**
   * `tc` is exactly what the minterms `cs` totalize to. The way back from `tc` is only
   * looked at where a proof asks for it: every minterm totalizes to itself, so the
   * witness it produces would otherwise be fed back into `tc` without end.
   */
  ghost predicate TotalCoversExactly(cs: set<nat>, tc: set<nat>)
  {
    (forall c, t :: c in cs && TotalizesTo(c, t) ==> t in tc) &&
    (forall t {:trigger TotalizedFrom(cs, t)} :: t in tc ==> TotalizedFrom(cs, t))
  }

  /** Totalizing a union totalizes each part. */
  lemma TotalCoversUnion(a: set<nat>, ta: set<nat>, b: set<nat>, tb: set<nat>)
    requires TotalCoversExactly(a, ta) && TotalCoversExactly(b, tb)
    ensures TotalCoversExactly(a + b, ta + tb)
  {
    forall t | t in ta + tb ensures TotalizedFrom(a + b, t) {
      if t in ta {
        assert TotalizedFrom(a, t);
      } else {
        assert TotalizedFrom(b, t);
      }
    }
  }


  // ---------------------------------------------------------------- minterms of a key

  /** `cs` is exactly the set of minterms of width `n` that `k` subsumes. */
  ghost predicate CoversExactly(k: nat, cs: set<nat>, n: nat)
  {
    forall c: nat :: c in cs <==> ConcreteKey(c, n) && Subsumes(k, c)
  }

  /** A variable symbol is one of a symbol's resolutions exactly when its code lies within the symbol's code. */
  lemma ResolvesCode(a: char, b: char)
    requires IsVariable(a) && IsSymbol(b)
    ensures a in CounterOptions(b) <==>
      DigitOp(AndOp, SymbolCode(Pipeline, a).value, SymbolCode(Pipeline, b).value) == SymbolCode(Pipeline, a).value
  {
  }

  /** The keys of a label's countermodels are exactly the minterms its key subsumes. */
  lemma CountermodelsExactly(m: string)
    requires IsLabel(m)
    ensures EncodeAll(CountermodelLabels(m)).Ok?
    ensures CoversExactly(Encode(Pipeline, m).value, set c | c in EncodeAll(CountermodelLabels(m)).value, |m|)
  {
    var n := |m|;
    var ss := CountermodelLabels(m);
    forall s | s in ss ensures IsLabel(s) && IsConcrete(s) && |s| == n {
      CountermodelsMember(m, s);
      CountermodelsOfConcrete(m, s);
    }
    EncodeAllOk(ss);
    var ks := EncodeAll(ss).value;
    var k := Encode(Pipeline, m).value;
    forall c: nat ensures c in ks <==> ConcreteKey(c, n) && Subsumes(k, c) {
      if c in ks {
        CountermodelKeySubsumed(m, ks, c);
      }
      if ConcreteKey(c, n) && Subsumes(k, c) {
        var s := SubsumedIsCountermodel(m, c);
        EncodeAllMember(ss, ks, s);
      }
    }
  }

  /** A key of a countermodel is a minterm the label's key subsumes. */
  lemma CountermodelKeySubsumed(m: string, ks: seq<nat>, c: nat)
    requires IsLabel(m) && EncodeAll(CountermodelLabels(m)) == Ok(ks) && c in ks
    ensures ConcreteKey(c, |m|) && Subsumes(Encode(Pipeline, m).value, c)
  {
    var j :| 0 <= j < |ks| && ks[j] == c;
    CountermodelSubsumed(m, CountermodelLabels(m)[j]);
  }

  /** The key of a countermodel is a minterm the label's key subsumes. */
  lemma CountermodelSubsumed(m: string, s: string)
    requires IsLabel(m) && s in CountermodelLabels(m)
    ensures IsLabel(s) && Encode(Pipeline, s).Ok?
    ensures ConcreteKey(Encode(Pipeline, s).value, |m|) && Subsumes(Encode(Pipeline, m).value, Encode(Pipeline, s).value)
  {
    var n := |m|;
    CountermodelsMember(m, s);
    CountermodelsOfConcrete(m, s);
    ConcreteOfLabel(s);
    LanesOfLabel(s);
    LanesOfLabel(m);
    var c, k := Encode(Pipeline, s).value, Encode(Pipeline, m).value;
    forall i: nat ensures DigitOp(AndOp, Lane(c, i), Lane(k, i)) == Lane(c, i) {
      if i < n {
        ResolvesCode(s[n - 1 - i], m[n - 1 - i]);
      } else {
        LaneAboveSpan(c, i);
        LaneAboveSpan(k, i);
      }
    }
    SubsumesLanes(k, c);
  }

  /** A minterm the label's key subsumes is the key of one of its countermodels. */
  lemma SubsumedIsCountermodel(m: string, c: nat) returns (s: string)
    requires IsLabel(m) && ConcreteKey(c, |m|) && Subsumes(Encode(Pipeline, m).value, c)
    ensures s in CountermodelLabels(m) && Encode(Pipeline, s) == Ok(c)
  {
    var n := |m|;
    var k := Encode(Pipeline, m).value;
    ConcreteDecodes(c, n);
    s := Decode(Pipeline, c).value;
    LanesOfLabel(s);
    LanesOfLabel(m);
    SubsumesLanes(k, c);
    forall j | 0 <= j < n ensures s[j] in CounterOptions(m[j]) {
      var i: nat := n - 1 - j;
      assert DigitOp(AndOp, Lane(c, i), Lane(k, i)) == Lane(c, i);
      ResolvesCode(s[j], m[j]);
    }
    CountermodelsMember(m, s);
  }

  /** A minterm subsumes only itself. */
  lemma ConcreteCoversItself(k: nat, n: nat)
    requires ConcreteKey(k, n)
    ensures CoversExactly(k, {k}, n)
  {
    SubsumesSelf(k);
    forall c: nat | ConcreteKey(c, n) && Subsumes(k, c) ensures c == k {
      SubsumesLanes(k, c);
      forall i: nat ensures Lane(c, i) == Lane(k, i) {
        if i >= n {
          LaneAboveSpan(c, i);
          LaneAboveSpan(k, i);
        } else {
          assert DigitOp(AndOp, Lane(c, i), Lane(k, i)) == Lane(c, i);
        }
      }
      LaneExtensionality(c, k);
    }
  }

  /**
   * The minterms of a merge are the minterms of its two operands: at the changed lane a
   * minterm holds one bit, which lies within one of the operands' codes.
   */
  lemma MergeCovers(guarded: bool, p0: nat, p1: nat, c0: set<nat>, c1: set<nat>, n: nat)
    requires LabelKey(p0, n) && LabelKey(p1, n) && AdjacencyOf(guarded, p0, p1).isValid
    requires CoversExactly(p0, c0, n) && CoversExactly(p1, c1, n)
    ensures CoversExactly(Or(p0, p1), c0 + c1, n)
  {
    var r := Or(p0, p1);
    MergeIsLabelKey(guarded, p0, p1, n);
    var lane := Width(Xor(p0, p1)) - 1;
    forall c: nat ensures c in c0 + c1 <==> ConcreteKey(c, n) && Subsumes(r, c) {
      if c in c0 {
        SubsumesOr(p0, p1, c);
      }
      if c in c1 {
        SubsumesOr(p1, p0, c);
        BitwiseCommutes(OrOp, p1, p0);
      }
      if ConcreteKey(c, n) && Subsumes(r, c) {
        SubsumesLanes(r, c);
        LaneOfBitwise(OrOp, p0, p1, lane);
        var dc, d0, d1 := Lane(c, lane), Lane(p0, lane), Lane(p1, lane);
        assert DigitOp(AndOp, dc, DigitOp(OrOp, d0, d1)) == dc;
        OneBitWithin(dc, d0, d1);
        if DigitOp(AndOp, dc, d0) == dc {
          SubsumesAtLane(r, p0, c, lane, n);
        } else {
          SubsumesAtLane(r, p1, c, lane, n);
        }
      }
    }
  }

  /** A single bit within `d0 | d1` lies within `d0` or within `d1`. */
  lemma OneBitWithin(dc: nat, d0: nat, d1: nat)
    requires IsVariableCode(dc) && d0 < 8 && d1 < 8
    requires DigitOp(AndOp, dc, DigitOp(OrOp, d0, d1)) == dc
    ensures DigitOp(AndOp, dc, d0) == dc || DigitOp(AndOp, dc, d1) == dc
  {
    var uc, u0, u1 := dc as bv3, d0 as bv3, d1 as bv3;
    assert uc & (u0 | u1) == uc;
    assert uc == 1 || uc == 2 || uc == 4;
    assert uc & u0 == uc || uc & u1 == uc;
  }

  /** If `p` agrees with `r` outside `lane`, and a minterm of `r` lies within `p` at `lane`, it is a minterm of `p`. */
  lemma SubsumesAtLane(r: nat, p: nat, c: nat, lane: nat, n: nat)
    requires ConcreteKey(c, n) && LabelKey(p, n) && lane < n
    requires LanesWithin(c, r) && AgreeOutside(r, p, lane, n)
    requires DigitOp(AndOp, Lane(c, lane), Lane(p, lane)) == Lane(c, lane)
    ensures Subsumes(p, c)
  {
    forall i: nat ensures DigitOp(AndOp, Lane(c, i), Lane(p, i)) == Lane(c, i) {
      if i >= n {
        LaneAboveSpan(c, i);
        LaneAboveSpan(p, i);
      } else if i != lane {
        assert DigitOp(AndOp, Lane(c, i), Lane(r, i)) == Lane(c, i);
      }
    }
    SubsumesLanes(p, c);
  }

  // ---------------------------------------------------------------- entries

  /** One entry of `minterm_dict`. Its `adjval` is recomputed wherever it is read, so it is not kept. */
  datatype Implicant = Implicant(marked: bool, covers: set<nat>, totalcovers: set<nat>)

  /**
   * What every entry of a table of labels of width `n` satisfies: the key is a label key,
   * its covers are exactly the minterms it subsumes, and its total covers are exactly
   * what those minterms totalize to.
   */
  ghost predicate WellFormed(k: nat, e: Implicant, n: nat)
  {
    LabelKey(k, n) && CoversExactly(k, e.covers, n) && TotalCoversExactly(e.covers, e.totalcovers)
  }

  /** The covers of a well-formed entry are among its total covers, all of them minterm keys. */
  lemma WellFormedCovers(k: nat, e: Implicant, n: nat)
    requires WellFormed(k, e, n)
    ensures e.covers <= e.totalcovers
    ensures forall c :: c in e.totalcovers ==> ConcreteKey(c, n)
  {
    forall c | c in e.covers ensures c in e.totalcovers {
      assert TotalizesTo(c, c);
    }
    forall t | t in e.totalcovers ensures ConcreteKey(t, n) {
      assert TotalizedFrom(e.covers, t);
      var c :| c in e.covers && TotalizesTo(c, t);
      TotalizesToConcrete(c, t, n);
    }
  }


  /** The keys of `s` other than `k`, in order. */
  function Without(s: seq<nat>, k: nat): (r: seq<nat>)
    ensures forall x :: x in r <==> x in s && x != k
    ensures NoDuplicates(s) ==> NoDuplicates(r)
  {
    if |s| == 0 then []
    else
      var rest := Without(s[1..], k);
      assert forall x :: x in s[1..] ==> x in s;
      assert NoDuplicates(s) ==> s[0] !in s[1..] && NoDuplicates(s[1..]);
      if s[0] == k then rest else [s[0]] + rest
  }

  /** The unmarked keys of `entries`, in the order of `order`. */
  function UnmarkedIn(order: seq<nat>, entries: map<nat, Implicant>): (r: seq<nat>)
    requires forall k :: k in order ==> k in entries
    ensures forall x :: x in r <==> x in order && !entries[x].marked
    ensures NoDuplicates(order) ==> NoDuplicates(r)
  {
    if |order| == 0 then []
    else
      var rest := UnmarkedIn(order[1..], entries);
      assert forall x :: x in order[1..] ==> x in order;
      if entries[order[0]].marked then rest else [order[0]] + rest
  }

  /** Every entry of `entries` is well formed for width `n`. */
  ghost predicate AllWellFormed(entries: map<nat, Implicant>, n: nat)
  {
    forall k {:trigger WellFormed(k, entries[k], n)} :: k in entries ==> WellFormed(k, entries[k], n)
  }

  /** Storing a well-formed entry keeps every entry well formed. */
  lemma AllWellFormedPut(entries: map<nat, Implicant>, k: nat, e: Implicant, n: nat)
    requires AllWellFormed(entries, n) && WellFormed(k, e, n)
    ensures AllWellFormed(entries[k := e], n)
  {
  }

  /** And so does removing one. */
  lemma AllWellFormedRemove(entries: map<nat, Implicant>, k: nat, n: nat)
    requires AllWellFormed(entries, n)
    ensures AllWellFormed(entries - {k}, n)
  {
  }

  /** `minterm_dict`: the entries, and the order in which their keys were first inserted. */
  class MintermTable {
    var order: seq<nat>
    var entries: map<nat, Implicant>

    /** The insertion order lists every key exactly once. */
    ghost predicate Ordered()
      reads this
    {
      NoDuplicates(order) && forall k :: k in order <==> k in entries
    }

    /** A table of labels of width `n`. */
    ghost predicate Valid(n: nat)
      reads this
    {
      Ordered() && AllWellFormed(entries, n)
    }

    /** `dict()` */
    constructor ()
      ensures order == [] && entries == map[]
      ensures Ordered()
    {
      order := [];
      entries := map[];
    }

    /** The unmarked keys, in dictionary order. */
    function Unmarked(): (r: seq<nat>)
      reads this
      requires Ordered()
      ensures forall x :: x in r <==> x in entries && !entries[x].marked
      ensures NoDuplicates(r)
    {
      UnmarkedIn(order, entries)
    }

    /** `update({k: e})`: a new key goes to the end; an existing key keeps its place. */
    method Put(k: nat, e: Implicant)
      requires Ordered()
      modifies this
      ensures Ordered()
      ensures entries == old(entries)[k := e]
      ensures order == if k in old(entries) then old(order) else old(order) + [k]
    {
      if k !in entries {
        order := order + [k];
      }
      entries := entries[k := e];
    }

    /** `pop(k, None)`: removes `k` if present. */
    method Pop(k: nat)
      requires Ordered()
      modifies this
      ensures Ordered()
      ensures entries == old(entries) - {k}
      ensures order == Without(old(order), k)
    {
      order := Without(order, k);
      entries := entries - {k};
    }

    /** `minterm_dict[k]['marked'] = True`, a KeyError for a missing key. */
    method Mark(k: nat) returns (r: Result<()>)
      requires Ordered()
      modifies this
      ensures Ordered() && order == old(order)
      ensures k in old(entries) ==> r == Ok(()) && entries == old(entries)[k := old(entries)[k].(marked := true)]
      ensures k !in old(entries) ==> r == Err(KeyError) && entries == old(entries)
    {
      if k !in entries {
        return Err(KeyError);
      }
      entries := entries[k := entries[k].(marked := true)];
      return Ok(());
    }
  }
}
