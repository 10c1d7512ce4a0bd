/**
 * Per-lane weight sums of a key: `get_adjval`, `get_weight` and `is_total`
 * (minish_hat.py:65-90; minish-hat.py:61-89 and the other pipeline scripts use a
 * second adjacency table). All four are the same loop over `octx & 7`, `octx >>= 3`,
 * summing a dictionary lookup, so a lane whose digit is not in the dictionary raises
 * KeyError.
 */
module Weights {
  import opened Wrappers
  import opened Numerals
  import opened Octal
  import opened Codec

  /** The four weight dictionaries. */
  datatype Table =
    | HatAdjval  // get_adjval of minish_hat.py: 0->1 1->0 2->1 z->2 o->3 x->6
    | Adjval     // get_adjval of minish-hat.py, minish-ruleset.py, minish-countermodels.py, bitwise-minterms.py: 0->0 1->1 2->2 z->4 o->5 x->7
    | Weight     // get_weight: the number of aggregated variables, z,o->1 x->2
    | Total      // is_total: non-zero for every symbol except 0 and 1

  /** The dictionary itself, keyed by lane digit. */
  function DigitWeight(t: Table, d: nat): Option<nat>
  {
    match (t, d)
    case (HatAdjval, 1) => Some(1)
    case (HatAdjval, 2) => Some(0)
    case (HatAdjval, 4) => Some(1)
    case (HatAdjval, 3) => Some(2)
    case (HatAdjval, 6) => Some(3)
    case (HatAdjval, 7) => Some(6)
    case (Adjval, 1) => Some(0)
    case (Adjval, 2) => Some(1)
    case (Adjval, 4) => Some(2)
    case (Adjval, 3) => Some(4)
    case (Adjval, 6) => Some(5)
    case (Adjval, 7) => Some(7)
    case (Weight, 1) => Some(0)
    case (Weight, 2) => Some(0)
    case (Weight, 4) => Some(0)
    case (Weight, 3) => Some(1)
    case (Weight, 6) => Some(1)
    case (Weight, 7) => Some(2)
    case (Total, 1) => Some(0)
    case (Total, 2) => Some(0)
    case (Total, 4) => Some(1)
    case (Total, 3) => Some(1)
    case (Total, 6) => Some(1)
    case (Total, 7) => Some(1)
    case _ => None
  }

  /** The weight a symbol contributes, stated on symbols rather than digits. */
  function SymbolWeight(t: Table, c: char): nat
    requires IsSymbol(c)
  {
    match t
    case HatAdjval => if c == '0' then 1 else if c == '1' then 0 else if c == '2' then 1 else if c == 'z' then 2 else if c == 'o' then 3 else 6
    case Adjval => if c == '0' then 0 else if c == '1' then 1 else if c == '2' then 2 else if c == 'z' then 4 else if c == 'o' then 5 else 7
    case Weight => if c == 'z' || c == 'o' then 1 else if c == 'x' then 2 else 0
    case Total => if c == '0' || c == '1' then 0 else 1
  }

  /** The sum of the symbol weights of a label. */
  function LabelWeight(t: Table, lbl: string): nat
    requires forall i :: 0 <= i < |lbl| ==> IsSymbol(lbl[i])
  {
    if |lbl| == 0 then 0 else SymbolWeight(t, lbl[0]) + LabelWeight(t, lbl[1..])
  }

  /** The sum over lanes below `n`, or the KeyError of the first lane the dictionary lacks. */
  function SumLanes(t: Table, k: nat, n: nat): Result<nat>
  {
    if n == 0 then Ok(0)
    else match SumLanes(t, k, n - 1)
      case Err(f) => Err(f)
      case Ok(s) =>
        match DigitWeight(t, Lane(k, n - 1))
        case None => Err(KeyError)
        case Some(w) => Ok(s + w)
  }

  /** What the loop computes: the sum over the lanes it visits. */
  function KeyWeight(t: Table, k: nat): Result<nat>
  {
    SumLanes(t, k, Span(k))
  }

  /** `get_adjval` / `get_weight` / `is_total`. */
  method LaneSum(t: Table, octx: nat) returns (r: Result<nat>)
    ensures r == KeyWeight(t, octx)
  {
    var x := octx;
    var sum := 0;
    ghost var m := 0;
    while x != 0
      invariant x == Shr(octx, m) && m <= Span(octx)
      invariant SumLanes(t, octx, m) == Ok(sum)
      decreases x
    {
      ShrZero(octx, m);
      LaneOfShr(octx, m, 0);
      ShrStep(octx, m);
      var w := DigitWeight(t, x % 8);
      if w.None? {
        SumLanesFails(t, octx, m + 1, Span(octx));
        return Err(KeyError);
      }
      sum := sum + w.value;
      x := x / 8;
      m := m + 1;
    }
    ShrZero(octx, m);
    return Ok(sum);
  }

  // ---------------------------------------------------------------- lemmas

  /** Once a lane fails, every longer sum fails. */
  lemma {:induction false} SumLanesFails(t: Table, k: nat, m: nat, n: nat)
    requires m <= n && SumLanes(t, k, m).Err?
    ensures SumLanes(t, k, n) == Err(KeyError)
    decreases n - m
  {
    if m < n {
      SumLanesFails(t, k, m, n - 1);
    } else {
      SumLanesFailsKeyError(t, k, n);
    }
  }

  lemma {:induction false} SumLanesFailsKeyError(t: Table, k: nat, n: nat)
    ensures SumLanes(t, k, n).Err? ==> SumLanes(t, k, n) == Err(KeyError)
  {
    if n > 0 {
      SumLanesFailsKeyError(t, k, n - 1);
    }
  }

  /** The dictionary of digits and the table of symbols agree. */
  lemma DigitWeightOfSymbol(t: Table, c: char)
    requires IsSymbol(c)
    ensures DigitWeight(t, SymbolCode(Pipeline, c).value) == Some(SymbolWeight(t, c))
  {
  }

  /** Summing the lanes of a label's key sums the symbol weights of the label's last `n` symbols. */
  lemma {:induction false} SumLanesOfLabel(t: Table, lbl: string, n: nat)
    requires IsLabel(lbl) && n <= |lbl|
    ensures SumLanes(t, Encode(Pipeline, lbl).value, n) == Ok(LabelWeight(t, lbl[|lbl| - n..]))
    decreases n
  {
    if n > 0 {
      SumLanesOfLabel(t, lbl, n - 1);
      LanesOfLabel(lbl);
      var j := |lbl| - n;
      var k := Encode(Pipeline, lbl).value;
      assert Lane(k, n - 1) == SymbolCode(Pipeline, lbl[j]).value;
      DigitWeightOfSymbol(t, lbl[j]);
      assert lbl[j..][1..] == lbl[j + 1..];
      assert LabelWeight(t, lbl[j..]) == SymbolWeight(t, lbl[j]) + LabelWeight(t, lbl[j + 1..]);
    }
  }

  /** The weight of a label's key is the sum of its symbol weights; no KeyError arises. */
  lemma WeightOfLabel(t: Table, lbl: string)
    requires IsLabel(lbl)
    ensures KeyWeight(t, Encode(Pipeline, lbl).value) == Ok(LabelWeight(t, lbl))
  {
    LanesOfLabel(lbl);
    SumLanesOfLabel(t, lbl, |lbl|);
    assert lbl[0..] == lbl;
  }

  /** Occurrences of `c` in `s`. */
  function Count(s: string, c: char): nat
  {
    if |s| == 0 then 0 else (if s[0] == c then 1 else 0) + Count(s[1..], c)
  }

  /** `get_weight`: the number of `z` and `o` symbols plus twice the number of `x` symbols. */
  lemma {:induction false} WeightCounts(lbl: string)
    requires forall i :: 0 <= i < |lbl| ==> IsSymbol(lbl[i])
    ensures LabelWeight(Weight, lbl) == Count(lbl, 'z') + Count(lbl, 'o') + 2 * Count(lbl, 'x')
  {
    if |lbl| > 0 {
      WeightCounts(lbl[1..]);
    }
  }

  /** `is_total` is zero exactly on labels over `0` and `1`. */
  lemma {:induction false} TotalZeroIffBinary(lbl: string)
    requires forall i :: 0 <= i < |lbl| ==> IsSymbol(lbl[i])
    ensures LabelWeight(Total, lbl) == 0 <==> forall i :: 0 <= i < |lbl| ==> lbl[i] in "01"
  {
    if |lbl| > 0 {
      TotalZeroIffBinary(lbl[1..]);
      assert forall i :: 1 <= i < |lbl| ==> lbl[1..][i - 1] == lbl[i];
    }
  }

  /** `get_weight` is zero exactly on concrete labels (over `0 1 2`). */
  lemma {:induction false} WeightZeroIffConcrete(lbl: string)
    requires forall i :: 0 <= i < |lbl| ==> IsSymbol(lbl[i])
    ensures LabelWeight(Weight, lbl) == 0 <==> IsConcrete(lbl)
  {
    if |lbl| > 0 {
      WeightZeroIffConcrete(lbl[1..]);
      assert forall i :: 1 <= i < |lbl| ==> lbl[1..][i - 1] == lbl[i];
    }
  }
}
