/**
 * Positional numerals: reading a digit sequence in a base (Python's `int(s, base)`)
 * and writing a number's digits (Python's `oct`, or the repeated `divmod` of
 * random_sampler.py). Digits are listed most significant first.
 */
module Numerals {

  /** The bases the program reads and writes numbers in: ternary, senary, octal and decimal. */
  predicate Radix(b: nat)
  {
    b == 3 || b == 6 || b == 8 || b == 10
  }

  /** `b` to the power `n`. */
  function Pow(b: nat, n: nat): (r: nat)
    ensures b > 0 ==> r > 0
  {
    if n == 0 then 1 else b * Pow(b, n - 1)
  }

  /** Every digit is smaller than the base. */
  predicate DigitsBelow(ds: seq<nat>, b: nat)
  {
    forall i :: 0 <= i < |ds| ==> ds[i] < b
  }

  /** The value of the digit sequence `ds` read in base `b` (Horner's rule). */
  function FromBase(ds: seq<nat>, b: nat): nat
  {
    if |ds| == 0 then 0 else FromBase(ds[..|ds| - 1], b) * b + ds[|ds| - 1]
  }

  /** The digits of `k` in base `b`, most significant first; zero is written `[0]`. */
  function ToBase(k: nat, b: nat): seq<nat>
    requires Radix(b)
    decreases k
  {
    if k < b then [k] else DivSmaller(k, b); ToBase(k / b, b) + [k % b]
  }

  lemma DivSmaller(k: nat, b: nat)
    requires Radix(b) && k >= b
    ensures 0 < k / b < k
  {
    if b == 3 {
    } else if b == 6 {
    } else if b == 8 {
    } else {
    }
  }

  lemma DivModSplit(k: nat, b: nat)
    requires Radix(b)
    ensures k == (k / b) * b + k % b && k % b < b
  {
    if b == 3 {
    } else if b == 6 {
    } else if b == 8 {
    } else {
    }
  }

  lemma MulMonotone(x: nat, y: nat, b: nat)
    requires Radix(b) && x <= y
    ensures x * b <= y * b
  {
    if b == 3 {
    } else if b == 6 {
    } else if b == 8 {
    } else {
    }
  }

  lemma DivModOfHorner(q: nat, d: nat, b: nat)
    requires Radix(b) && d < b
    ensures (q * b + d) / b == q && (q * b + d) % b == d
  {
    if b == 3 {
    } else if b == 6 {
    } else if b == 8 {
    } else {
    }
  }

  /** Appending a digit multiplies by the base and adds the digit. */
  lemma FromBaseSnoc(hi: seq<nat>, d: nat, b: nat)
    ensures FromBase(hi + [d], b) == FromBase(hi, b) * b + d
  {
    assert (hi + [d])[..|hi|] == hi;
  }

  /** The digits of `k` read back as `k`. */
  lemma {:induction false} ToBaseValue(k: nat, b: nat)
    requires Radix(b)
    ensures FromBase(ToBase(k, b), b) == k
    decreases k
  {
    if k >= b {
      DivSmaller(k, b);
      var q, r := k / b, k % b;
      ToBaseValue(q, b);
      assert ToBase(k, b) == ToBase(q, b) + [r];
      FromBaseSnoc(ToBase(q, b), r, b);
      DivModSplit(k, b);
    }
  }

  /** The digits of `k` are digits of the base, at least one, and without leading zero unless `k` is zero. */
  lemma {:induction false} ToBaseShape(k: nat, b: nat)
    requires Radix(b)
    ensures |ToBase(k, b)| > 0 && DigitsBelow(ToBase(k, b), b)
    ensures k > 0 ==> ToBase(k, b)[0] != 0
    decreases k
  {
    if k >= b {
      DivSmaller(k, b);
      DivModSplit(k, b);
      var q := k / b;
      ToBaseShape(q, b);
      var hi := ToBase(q, b);
      var ds := hi + [k % b];
      assert ToBase(k, b) == ds;
      assert ds[0] == hi[0];
      assert forall i :: 0 <= i < |hi| ==> ds[i] == hi[i];
    }
  }

  /** Writing the digits of `k` and reading them back gives `k`. */
  lemma FromToBase(k: nat, b: nat)
    requires Radix(b)
    ensures FromBase(ToBase(k, b), b) == k
    ensures |ToBase(k, b)| > 0 && DigitsBelow(ToBase(k, b), b)
    ensures k > 0 ==> ToBase(k, b)[0] != 0
  {
    ToBaseValue(k, b);
    ToBaseShape(k, b);
  }

  /** A sequence whose leading digit is not zero is worth at least one. */
  lemma {:induction false} FromBasePositive(ds: seq<nat>, b: nat)
    requires |ds| > 0 && ds[0] != 0 && b > 0
    ensures FromBase(ds, b) > 0
    decreases |ds|
  {
    if |ds| > 1 {
      FromBasePositive(ds[..|ds| - 1], b);
    }
  }

  /** Reading a digit sequence without a leading zero and writing the number back gives the sequence. */
  lemma {:induction false} ToFromBase(ds: seq<nat>, b: nat)
    requires Radix(b) && |ds| > 0 && ds[0] != 0 && DigitsBelow(ds, b)
    ensures ToBase(FromBase(ds, b), b) == ds
    decreases |ds|
  {
    var init, d := ds[..|ds| - 1], ds[|ds| - 1];
    if |init| > 0 {
      ToFromBase(init, b);
      FromBasePositive(init, b);
      DivModOfHorner(FromBase(init, b), d, b);
      MulMonotone(1, FromBase(init, b), b);
      assert init + [d] == ds;
    }
  }

  /** A number written with `n` digits of base `b` is below `b^n`. */
  lemma {:induction false} FromBaseBound(ds: seq<nat>, b: nat)
    requires Radix(b) && DigitsBelow(ds, b)
    ensures FromBase(ds, b) < Pow(b, |ds|)
    decreases |ds|
  {
    if |ds| > 0 {
      var init := ds[..|ds| - 1];
      FromBaseBound(init, b);
      var q := FromBase(init, b);
      MulMonotone(q + 1, Pow(b, |init|), b);
      assert (q + 1) * b == q * b + b;
    }
  }

  /** Two digit sequences of the same length that read to the same number are equal. */
  lemma {:induction false} FromBaseInjective(ds: seq<nat>, es: seq<nat>, b: nat)
    requires Radix(b) && |ds| == |es| && DigitsBelow(ds, b) && DigitsBelow(es, b)
    requires FromBase(ds, b) == FromBase(es, b)
    ensures ds == es
    decreases |ds|
  {
    if |ds| > 0 {
      var n := |ds| - 1;
      DivModOfHorner(FromBase(ds[..n], b), ds[n], b);
      DivModOfHorner(FromBase(es[..n], b), es[n], b);
      FromBaseInjective(ds[..n], es[..n], b);
      assert ds == ds[..n] + [ds[n]] && es == es[..n] + [es[n]];
    }
  }

  /** A leading zero digit does not change the value. */
  lemma {:induction false} FromBaseLeadingZero(ds: seq<nat>, b: nat)
    ensures FromBase([0] + ds, b) == FromBase(ds, b)
    decreases |ds|
  {
    if |ds| > 0 {
      var n := |ds| - 1;
      assert ([0] + ds)[..|ds|] == [0] + ds[..n];
      FromBaseLeadingZero(ds[..n], b);
    }
  }

  // ---------------------------------------------------------------- decimal text

  /** The character of a decimal digit. */
  function DigitChar(d: nat): char
    requires d < 10
  {
    (48 + d) as char
  }

  /** The characters of a digit sequence. */
  function DigitString(ds: seq<nat>): (s: string)
    requires DigitsBelow(ds, 10)
    ensures |s| == |ds|
  {
    seq(|ds|, i requires 0 <= i < |ds| => DigitChar(ds[i]))
  }

  /** The digit values of a string of decimal digits (`int(s)` reads them). */
  function DigitValues(s: string): (ds: seq<nat>)
    requires forall i :: 0 <= i < |s| ==> '0' <= s[i] <= '9'
    ensures |ds| == |s| && DigitsBelow(ds, 10)
  {
    seq(|s|, i requires 0 <= i < |s| => (s[i] as int - 48) as nat)
  }

  /** `str(k)`: the decimal digits of `k`. */
  function Decimal(k: nat): (s: string)
    ensures |s| > 0 && forall i :: 0 <= i < |s| ==> '0' <= s[i] <= '9'
  {
    FromToBase(k, 10);
    DigitString(ToBase(k, 10))
  }

  /** `int(str(k)) == k`. */
  lemma DecimalRoundTrip(k: nat)
    ensures FromBase(DigitValues(Decimal(k)), 10) == k
  {
    FromToBase(k, 10);
    assert DigitValues(Decimal(k)) == ToBase(k, 10);
  }

  /** Different numbers have different decimal strings. */
  lemma DecimalInjective(a: nat, b: nat)
    requires Decimal(a) == Decimal(b)
    ensures a == b
  {
    DecimalRoundTrip(a);
    DecimalRoundTrip(b);
  }
}
