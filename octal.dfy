/**
 * Octal lanes of a Python integer key. Every symbol of a label occupies one
 * three-bit lane of the key (one octal digit); the program inspects lanes with
 * `k & 7` and `k >>= 3` and combines keys lane by lane with `|`, `&` and `^`.
 * Lane 0 is the least significant octal digit, i.e. the LAST symbol of a label.
 */
module Octal {
  import opened Numerals

  /** Lane `i` of `k`, i.e. `(k >> 3*i) & 7`. */
  function Lane(k: nat, i: nat): (d: nat)
    ensures d < 8
  {
    if i == 0 then k % 8 else Lane(k / 8, i - 1)
  }

  /** `k >> 3*m`. */
  function Shr(k: nat, m: nat): nat
  {
    if m == 0 then k else Shr(k / 8, m - 1)
  }

  /** The digits of `oct(k)[2:]`, most significant first. */
  function OctDigits(k: nat): seq<nat>
  {
    ToBase(k, 8)
  }

  /** `len(oct(k)) - 2`: the number of octal digits Python writes for `k` (one for zero). */
  function Width(k: nat): nat
  {
    |OctDigits(k)|
  }

  /** The number of lanes a `while k: ...; k >>= 3` loop visits: none for zero. */
  function Span(k: nat): nat
  {
    if k == 0 then 0 else Width(k)
  }

  /** The three lane-wise operators of Python integers. */
  datatype LaneOp = OrOp | AndOp | XorOp

  /** One lane of `x | y`, `x & y` or `x ^ y`. */
  function DigitOp(op: LaneOp, x: nat, y: nat): (r: nat)
    requires x < 8 && y < 8
    ensures r < 8
  {
    var u, v := x as bv3, y as bv3;
    match op
    case OrOp => (u | v) as nat
    case AndOp => (u & v) as nat
    case XorOp => (u ^ v) as nat
  }

  /** `a op b` on non-negative Python integers, computed one octal lane at a time. */
  function Bitwise(op: LaneOp, a: nat, b: nat): nat
    decreases a + b
  {
    if a == 0 && b == 0 then 0 else Bitwise(op, a / 8, b / 8) * 8 + DigitOp(op, a % 8, b % 8)
  }

  function Or(a: nat, b: nat): nat { Bitwise(OrOp, a, b) }
  function And(a: nat, b: nat): nat { Bitwise(AndOp, a, b) }
  function Xor(a: nat, b: nat): nat { Bitwise(XorOp, a, b) }

  /** The number of lanes below `n` of `k` that hold the digit `d`. */
  function CountLanes(k: nat, n: nat, d: nat): (c: nat)
    ensures c <= n
  {
    if n == 0 then 0 else CountLanes(k, n - 1, d) + (if Lane(k, n - 1) == d then 1 else 0)
  }

  /** The number of lanes below `n` of `k` that are not zero. */
  function CountNonZero(k: nat, n: nat): (c: nat)
    ensures c <= n
  {
    if n == 0 then 0 else CountNonZero(k, n - 1) + (if Lane(k, n - 1) != 0 then 1 else 0)
  }

  // ---------------------------------------------------------------- lemmas

  lemma {:induction false} LaneOfZero(i: nat)
    ensures Lane(0, i) == 0
  {
    if i > 0 {
      LaneOfZero(i - 1);
    }
  }

  /** Every lane of `a op b` is `op` applied to the lanes of `a` and `b`. */
  lemma {:induction false} LaneOfBitwise(op: LaneOp, a: nat, b: nat, i: nat)
    ensures Lane(Bitwise(op, a, b), i) == DigitOp(op, Lane(a, i), Lane(b, i))
    decreases i
  {
    if a == 0 && b == 0 {
      LaneOfZero(i);
    } else {
      var hi := Bitwise(op, a / 8, b / 8);
      var d := DigitOp(op, a % 8, b % 8);
      assert Bitwise(op, a, b) == hi * 8 + d;
      DivModOfHorner(hi, d, 8);
      if i > 0 {
        LaneOfBitwise(op, a / 8, b / 8, i - 1);
      }
    }
  }

  /** Two keys with the same lanes are the same key. */
  lemma {:induction false} LaneExtensionality(a: nat, b: nat)
    requires forall i: nat :: Lane(a, i) == Lane(b, i)
    ensures a == b
    decreases a + b
  {
    if a != 0 || b != 0 {
      forall i: nat
        ensures Lane(a / 8, i) == Lane(b / 8, i)
      {
        assert Lane(a, i + 1) == Lane(b, i + 1);
      }
      LaneExtensionality(a / 8, b / 8);
      assert Lane(a, 0) == Lane(b, 0);
    }
  }

  /** Lane `j` of `k >> 3*m` is lane `m + j` of `k`. */
  lemma {:induction false} LaneOfShr(k: nat, m: nat, j: nat)
    ensures Lane(Shr(k, m), j) == Lane(k, m + j)
    decreases m
  {
    if m > 0 {
      LaneOfShr(k / 8, m - 1, j);
    }
  }

  lemma {:induction false} ShrStep(k: nat, m: nat)
    ensures Shr(k, m + 1) == Shr(k, m) / 8
    decreases m
  {
    if m > 0 {
      ShrStep(k / 8, m - 1);
    }
  }

  lemma WidthStep(k: nat)
    ensures k < 8 ==> Width(k) == 1
    ensures k >= 8 ==> Width(k) == Width(k / 8) + 1
  {
  }

  /** Shifting right by `m` lanes leaves zero exactly when `m` reaches the span. */
  lemma {:induction false} ShrZero(k: nat, m: nat)
    ensures (Shr(k, m) == 0) == (m >= Span(k))
    decreases m
  {
    WidthStep(k);
    if m > 0 {
      ShrZero(k / 8, m - 1);
    } else if k > 0 {
      assert Span(k) >= 1;
    }
  }

  /** Lanes at or above the span are zero. */
  lemma {:induction false} LaneAboveSpan(k: nat, i: nat)
    requires i >= Span(k)
    ensures Lane(k, i) == 0
    decreases i
  {
    WidthStep(k);
    if k == 0 {
      LaneOfZero(i);
    } else if i > 0 {
      LaneAboveSpan(k / 8, i - 1);
    }
  }

  /** The top lane of a non-zero key is not zero. */
  lemma {:induction false} TopLaneNonZero(k: nat)
    requires k > 0
    ensures Lane(k, Span(k) - 1) != 0
    decreases k
  {
    WidthStep(k);
    if k >= 8 {
      TopLaneNonZero(k / 8);
    }
  }

  /** Lane `i` of `k` is digit `i` counted from the right of `oct(k)`. */
  lemma {:induction false} LaneIsOctDigit(k: nat, i: nat)
    requires i < Width(k)
    ensures Lane(k, i) == OctDigits(k)[Width(k) - 1 - i]
    decreases k
  {
    WidthStep(k);
    if k >= 8 && i > 0 {
      LaneIsOctDigit(k / 8, i - 1);
    }
  }

  /** A key is zero exactly when all its lanes are zero. */
  lemma ZeroIffLanesZero(k: nat)
    ensures k == 0 <==> forall i: nat :: Lane(k, i) == 0
  {
    if k == 0 {
      forall i: nat ensures Lane(k, i) == 0 { LaneOfZero(i); }
    } else {
      TopLaneNonZero(k);
    }
  }

  /** `a | b` is zero exactly when both are, and `a ^ b` is zero exactly when they are equal. */
  lemma OrXorZero(a: nat, b: nat)
    ensures Or(a, b) == 0 <==> a == 0 && b == 0
    ensures Xor(a, b) == 0 <==> a == b
  {
    if Or(a, b) == 0 {
      forall i: nat ensures Lane(a, i) == 0 && Lane(b, i) == 0 {
        LaneOfBitwise(OrOp, a, b, i);
        LaneOfZero(i);
      }
      ZeroIffLanesZero(a);
      ZeroIffLanesZero(b);
    }
    if Xor(a, b) == 0 {
      forall i: nat ensures Lane(a, i) == Lane(b, i) {
        LaneOfBitwise(XorOp, a, b, i);
        LaneOfZero(i);
      }
      LaneExtensionality(a, b);
    }
    if a == b {
      forall i: nat ensures Lane(Xor(a, b), i) == 0 {
        LaneOfBitwise(XorOp, a, b, i);
      }
      ZeroIffLanesZero(Xor(a, b));
    }
  }

  /** The lane-wise operators are commutative. */
  lemma BitwiseCommutes(op: LaneOp, a: nat, b: nat)
    ensures Bitwise(op, a, b) == Bitwise(op, b, a)
  {
    forall i: nat ensures Lane(Bitwise(op, a, b), i) == Lane(Bitwise(op, b, a), i) {
      LaneOfBitwise(op, a, b, i);
      LaneOfBitwise(op, b, a, i);
    }
    LaneExtensionality(Bitwise(op, a, b), Bitwise(op, b, a));
  }

  /** No lane below `n` holds `d` exactly when the count is zero. */
  lemma {:induction false} CountLanesZero(k: nat, n: nat, d: nat)
    ensures CountLanes(k, n, d) == 0 <==> forall i: nat :: i < n ==> Lane(k, i) != d
    decreases n
  {
    if n > 0 {
      CountLanesZero(k, n - 1, d);
      assert CountLanes(k, n, d) == CountLanes(k, n - 1, d) + (if Lane(k, n - 1) == d then 1 else 0);
    }
  }

  /** A non-zero lane below `n` makes the count of non-zero lanes positive. */
  lemma {:induction false} CountNonZeroPositive(k: nat, n: nat)
    requires n > 0 && Lane(k, n - 1) != 0
    ensures CountNonZero(k, n) > 0
  {
  }

  /** A lane of `a ^ b` is zero exactly when the lanes of `a` and `b` agree. */
  lemma XorLane(a: nat, b: nat, i: nat)
    ensures Lane(Xor(a, b), i) == 0 <==> Lane(a, i) == Lane(b, i)
  {
    LaneOfBitwise(XorOp, a, b, i);
    DigitXorZero(Lane(a, i), Lane(b, i));
  }

  lemma DigitXorZero(x: nat, y: nat)
    requires x < 8 && y < 8
    ensures DigitOp(XorOp, x, y) == 0 <==> x == y
  {
    assert x == y <==> x as bv3 == y as bv3;
  }

  /** A lane of `a | b` is zero exactly when both lanes are. */
  lemma OrLane(a: nat, b: nat, i: nat)
    ensures Lane(Or(a, b), i) == 0 <==> Lane(a, i) == 0 && Lane(b, i) == 0
  {
    LaneOfBitwise(OrOp, a, b, i);
    var x, y := Lane(a, i), Lane(b, i);
    assert x == 0 <==> x as bv3 == 0;
    assert y == 0 <==> y as bv3 == 0;
  }

  /** The span is the lane above the top non-zero lane. */
  lemma SpanFromLanes(k: nat, n: nat)
    requires n > 0 && Lane(k, n - 1) != 0
    requires forall i: nat :: i >= n ==> Lane(k, i) == 0
    ensures Span(k) == n
  {
    if k == 0 {
      LaneOfZero(n - 1);
    } else {
      TopLaneNonZero(k);
      if n - 1 >= Span(k) {
        LaneAboveSpan(k, n - 1);
      }
    }
  }

  function Max(a: nat, b: nat): nat { if a < b then b else a }

  /** `a | b` spans as many lanes as the longer of `a` and `b`; `a ^ b` spans no more. */
  lemma SpanOfOr(a: nat, b: nat)
    ensures Span(Or(a, b)) == Max(Span(a), Span(b))
    ensures Span(Xor(a, b)) <= Span(Or(a, b))
  {
    var n := Max(Span(a), Span(b));
    forall i: nat | i >= n ensures Lane(Or(a, b), i) == 0 && Lane(Xor(a, b), i) == 0 {
      LaneAboveSpan(a, i);
      LaneAboveSpan(b, i);
      OrLane(a, b, i);
      XorLane(a, b, i);
    }
    if n > 0 {
      if Span(a) == n {
        TopLaneNonZero(a);
      } else {
        TopLaneNonZero(b);
      }
      OrLane(a, b, n - 1);
      SpanFromLanes(Or(a, b), n);
    } else {
      ZeroIffLanesZero(Or(a, b));
    }
    if Span(Xor(a, b)) > n {
      TopLaneNonZero(Xor(a, b));
    }
  }

  /** `a & b` spans no more lanes than `a | b`. */
  lemma SpanOfAnd(a: nat, b: nat)
    ensures Span(And(a, b)) <= Span(Or(a, b))
  {
    SpanOfOr(a, b);
    if Span(And(a, b)) > Span(Or(a, b)) {
      var i := Span(And(a, b)) - 1;
      TopLaneNonZero(And(a, b));
      LaneAboveSpan(a, i);
      LaneAboveSpan(b, i);
      LaneOfBitwise(AndOp, a, b, i);
    }
  }

  /** No lane below `n` is non-zero exactly when the count is zero. */
  lemma {:induction false} CountNonZeroZero(k: nat, n: nat)
    ensures CountNonZero(k, n) == 0 <==> forall i: nat :: i < n ==> Lane(k, i) == 0
    decreases n
  {
    if n > 0 {
      CountNonZeroZero(k, n - 1);
      assert CountNonZero(k, n) == CountNonZero(k, n - 1) + (if Lane(k, n - 1) != 0 then 1 else 0);
    }
  }

  /** Counting a non-zero digit past the span adds nothing. */
  lemma {:induction false} CountLanesPastSpan(k: nat, n: nat, d: nat)
    requires n >= Span(k) && d != 0
    ensures CountLanes(k, n, d) == CountLanes(k, Span(k), d)
    decreases n
  {
    if n > Span(k) {
      LaneAboveSpan(k, n - 1);
      CountLanesPastSpan(k, n - 1, d);
    }
  }
}
