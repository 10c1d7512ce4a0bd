/**
 * random_sampler.py: a sample of minterms over `atoms` atoms, written one per line as the
 * atoms' values in base 3, zero padded to the number of atoms. The random draw is a
 * parameter of the model.
 */
module Sampler {
  import opened Wrappers
  import opened Numerals
  import opened Text

  /** The digits in the opposite order. */
  function Reversed(ds: seq<nat>): (r: seq<nat>)
    ensures |r| == |ds| && forall i :: 0 <= i < |ds| ==> r[i] == ds[|ds| - 1 - i]
    decreases |ds|
  {
    if |ds| == 0 then [] else [ds[|ds| - 1]] + Reversed(ds[..|ds| - 1])
  }

  /** The base-3 digits of `n`, as decimal characters. */
  function TernaryText(n: nat): (s: string)
    ensures |s| > 0 && forall i :: 0 <= i < |s| ==> '0' <= s[i] <= '2'
  {
    FromToBase(n, 3);
    DigitString(ToBase(n, 3))
  }

  /** The text of `ternary(n)` reads back, in base 3, as `n`, and has no leading zero unless it is `0`. */
  lemma TernaryRoundTrip(n: nat)
    ensures FromBase(DigitValues(TernaryText(n)), 3) == n
    ensures n == 0 <==> TernaryText(n) == "0"
    ensures n > 0 ==> TernaryText(n)[0] != '0'
  {
    FromToBase(n, 3);
    assert DigitValues(TernaryText(n)) == ToBase(n, 3);
    if n == 0 {
      assert ToBase(0, 3) == [0];
    } else {
      assert TernaryText(n)[0] == DigitChar(ToBase(n, 3)[0]);
    }
  }

  /** `ternary(n)`: the remainders of repeated division by 3, in reverse. */
  method Ternary(n: nat) returns (s: string)
    ensures s == TernaryText(n)
  {
    if n == 0 {
      assert ToBase(0, 3) == [0];
      return "0";
    }
    var nums: seq<nat> := [];
    var k: nat := n;
    while k > 0
      invariant DigitsBelow(nums, 3)
      invariant k > 0 ==> ToBase(k, 3) + Reversed(nums) == ToBase(n, 3)
      invariant k == 0 ==> Reversed(nums) == ToBase(n, 3)
      decreases k
    {
      var q, r := k / 3, k % 3;
      assert Reversed(nums + [r]) == [r] + Reversed(nums) by {
        assert (nums + [r])[..|nums|] == nums;
      }
      if k >= 3 {
        assert ToBase(k, 3) == ToBase(q, 3) + [r];
        assert ToBase(q, 3) + Reversed(nums + [r]) == ToBase(k, 3) + Reversed(nums);
      }
      k, nums := q, nums + [r];
    }
    assert Reversed(nums) == ToBase(n, 3);
    FromToBase(n, 3);
    s := DigitString(Reversed(nums));
  }

  /** `'%0*d' % (width, v)` for a non-negative `v`: its decimal digits, zero padded on the left to `width`. */
  function ZeroPad(width: nat, s: string): (r: string)
    ensures |r| == (if |s| >= width then |s| else width)
    ensures r[|r| - |s|..] == s && forall i :: 0 <= i < |r| - |s| ==> r[i] == '0'
  {
    if |s| >= width then s
    else
      var pad := seq(width - |s|, _ => '0');
      assert (pad + s)[|pad|..] == s;
      pad + s
  }

  /** The line `'%0*d\n' % (atoms, int(ternary(m)))`. */
  function SampleLine(atoms: nat, m: nat): string
  {
    var t := TernaryText(m);
    ZeroPad(atoms, Decimal(FromBase(DigitValues(t), 10))) + "\n"
  }

  /** `k` zero digits. */
  function Zeros(k: nat): (z: seq<nat>)
    ensures |z| == k && forall i :: 0 <= i < k ==> z[i] == 0
  {
    if k == 0 then [] else [0] + Zeros(k - 1)
  }

  /** Leading zeros do not change the value of a digit sequence. */
  lemma {:induction false} LeadingZeros(k: nat, ds: seq<nat>, b: nat)
    ensures FromBase(Zeros(k) + ds, b) == FromBase(ds, b)
    decreases k
  {
    if k > 0 {
      assert Zeros(k) + ds == [0] + (Zeros(k - 1) + ds);
      FromBaseLeadingZero(Zeros(k - 1) + ds, b);
      LeadingZeros(k - 1, ds, b);
    } else {
      assert Zeros(k) + ds == ds;
    }
  }

  /** `b` to a larger power is larger. */
  lemma {:induction false} PowMonotone(b: nat, i: nat, j: nat)
    requires b > 0 && i <= j
    ensures Pow(b, i) <= Pow(b, j)
    decreases j
  {
    if i < j {
      PowMonotone(b, i, j - 1);
      assert Pow(b, j) == b * Pow(b, j - 1);
    }
  }

  /** A digit sequence without leading zero is at least `b^(length - 1)`. */
  lemma {:induction false} FromBaseLowerBound(ds: seq<nat>, b: nat)
    requires |ds| > 0 && ds[0] != 0 && b > 0
    ensures FromBase(ds, b) >= Pow(b, |ds| - 1)
    decreases |ds|
  {
    if |ds| > 1 {
      var init := ds[..|ds| - 1];
      FromBaseLowerBound(init, b);
      assert FromBase(init, b) * b >= Pow(b, |init| - 1) * b;
    }
  }

  /** Below `3^atoms`, `ternary(m)` has at most `atoms` digits. */
  lemma TernaryWidth(atoms: nat, m: nat)
    requires 0 < m < Pow(3, atoms)
    ensures |TernaryText(m)| <= atoms
  {
    FromToBase(m, 3);
    var ds := ToBase(m, 3);
    if |ds| > atoms {
      FromBaseLowerBound(ds, 3);
      PowMonotone(3, atoms, |ds| - 1);
    }
  }

  /** `int(ternary(m))` is written back as `ternary(m)`. */
  lemma DecimalOfTernary(m: nat)
    ensures Decimal(FromBase(DigitValues(TernaryText(m)), 10)) == TernaryText(m)
  {
    var t := TernaryText(m);
    TernaryRoundTrip(m);
    if m == 0 {
      assert DigitValues(t) == [0];
      assert ToBase(0, 10) == [0];
    } else {
      ToFromBase(DigitValues(t), 10);
      assert DigitString(DigitValues(t)) == t;
    }
  }

  /** Zero padding does not change what a digit string reads as. */
  lemma ZeroPadReads(width: nat, t: string, b: nat)
    requires forall i :: 0 <= i < |t| ==> '0' <= t[i] <= '9'
    ensures forall i :: 0 <= i < |ZeroPad(width, t)| ==> '0' <= ZeroPad(width, t)[i] <= '9'
    ensures FromBase(DigitValues(ZeroPad(width, t)), b) == FromBase(DigitValues(t), b)
  {
    var body := ZeroPad(width, t);
    var k := |body| - |t|;
    assert body == body[..k] + t;
    assert DigitValues(body) == Zeros(k) + DigitValues(t);
    LeadingZeros(k, DigitValues(t), b);
  }

  /** A sample line is `ternary(m)` zero padded to `atoms`, and a line break. */
  lemma SampleLineText(atoms: nat, m: nat)
    ensures SampleLine(atoms, m) == ZeroPad(atoms, TernaryText(m)) + "\n"
  {
    DecimalOfTernary(m);
  }

  /** Zero padding a string of digits up to `hi` gives a string of digits up to `hi`. */
  lemma ZeroPadDigits(width: nat, t: string, hi: char)
    requires '0' <= hi && forall i :: 0 <= i < |t| ==> '0' <= t[i] <= hi
    ensures forall i :: 0 <= i < |ZeroPad(width, t)| ==> '0' <= ZeroPad(width, t)[i] <= hi
  {
    if |t| < width {
      var pad := seq(width - |t|, _ => '0');
      assert ZeroPad(width, t) == pad + t;
    }
  }

  /** Digits up to `2` and a line break. */
  predicate TernaryLine(line: string)
  {
    |line| > 1 && line[|line| - 1] == '\n' &&
    forall i :: 0 <= i < |line| - 1 ==> '0' <= line[i] <= '2'
  }

  lemma TernaryLineOf(body: string)
    requires |body| > 0 && forall i :: 0 <= i < |body| ==> '0' <= body[i] <= '2'
    ensures TernaryLine(body + "\n")
  {
    var line := body + "\n";
    forall i | 0 <= i < |line| - 1
      ensures '0' <= line[i] <= '2'
    {
      assert line[i] == body[i];
    }
  }

  /** A sample line is base-3 digit characters followed by a line break. */
  lemma SampleLineShape(atoms: nat, m: nat)
    ensures TernaryLine(SampleLine(atoms, m))
  {
    var t := TernaryText(m);
    SampleLineText(atoms, m);
    ZeroPadDigits(atoms, t, '2');
    TernaryLineOf(ZeroPad(atoms, t));
  }

  /** The digits of a sample line, before its line break, read in base 3, give its minterm. */
  lemma SampleLineReads(atoms: nat, m: nat)
    ensures |SampleLine(atoms, m)| > 0
    ensures var line := SampleLine(atoms, m);
      FromBase(DigitValues(line[..|line| - 1]), 3) == m
  {
    var t := TernaryText(m);
    var body := ZeroPad(atoms, t);
    SampleLineText(atoms, m);
    var line := SampleLine(atoms, m);
    assert line[..|line| - 1] == body;
    ZeroPadReads(atoms, t, 3);
    TernaryRoundTrip(m);
  }

  /**
   * A sample line holds at least `atoms` digits, and a minterm of the drawn range
   * `range(0, 3**atoms)` takes exactly `atoms` of them (one, `0`, when there are no atoms).
   */
  lemma SampleLineWidth(atoms: nat, m: nat)
    ensures |SampleLine(atoms, m)| - 1 >= atoms
    ensures m < Pow(3, atoms) ==> |SampleLine(atoms, m)| - 1 == (if atoms == 0 then 1 else atoms)
  {
    SampleLineText(atoms, m);
    if m == 0 {
      TernaryRoundTrip(m);
    } else if m < Pow(3, atoms) {
      TernaryWidth(atoms, m);
    }
  }

  /** The lines of the sample, in its order. */
  function SampleText(atoms: nat, sample: seq<nat>): string
    decreases |sample|
  {
    if |sample| == 0 then "" else SampleText(atoms, sample[..|sample| - 1]) + SampleLine(atoms, sample[|sample| - 1])
  }

  /**
   * The sampler's output: `random.sample(range(0, 3**atoms), size)` raises ValueError for
   * a size below zero or above `3**atoms` and nothing is written; otherwise `drawn` is the
   * draw, sorted, and the file holds one line per minterm.
   */
  function SampleFile(atoms: nat, size: int, drawn: seq<nat>): Result<string>
  {
    if size < 0 || size > Pow(3, atoms) then Err(ValueError) else Ok(SampleText(atoms, drawn))
  }

  /** The `for minterm in sample` loop of `main`. */
  method WriteSample(atoms: nat, sample: seq<nat>) returns (text: string)
    ensures text == SampleText(atoms, sample)
  {
    text := "";
    for i := 0 to |sample|
      invariant text == SampleText(atoms, sample[..i])
    {
      assert sample[..i + 1][..i] == sample[..i];
      var t := Ternary(sample[i]);
      text := text + (ZeroPad(atoms, Decimal(FromBase(DigitValues(t), 10))) + "\n");
    }
    assert sample[..|sample|] == sample;
  }

  /** The file has as many lines as the sample has minterms. */
  lemma {:induction false} SampleTextLines(atoms: nat, sample: seq<nat>)
    ensures LineBreaks(SampleText(atoms, sample)) == |sample|
    decreases |sample|
  {
    if |sample| > 0 {
      var m := sample[|sample| - 1];
      SampleTextLines(atoms, sample[..|sample| - 1]);
      SampleLineShape(atoms, m);
      var line := SampleLine(atoms, m);
      var body := line[..|line| - 1];
      assert line == body + "\n";
      assert '\n' !in body by {
        forall i | 0 <= i < |body| ensures body[i] != '\n' {
          assert '0' <= line[i] <= '2';
        }
      }
      NoLineBreaks(body);
      OneLineBreak();
      LineBreaksAppend(body, "\n");
      LineBreaksAppend(SampleText(atoms, sample[..|sample| - 1]), line);
    }
  }

  /** Different minterms give different lines. */
  lemma SampleLineInjective(atoms: nat, m: nat, n: nat)
    requires SampleLine(atoms, m) == SampleLine(atoms, n)
    ensures m == n
  {
    SampleLineReads(atoms, m);
    SampleLineReads(atoms, n);
  }
}
