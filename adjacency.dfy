/**
 * Lane-wise adjacency tests on keys. Two keys merge when they differ in exactly one
 * lane and the merged lane (their `|`) is a symbol; a `0` lane (digit 1) or-ed with a
 * `2` lane (digit 4) gives digit 5, which is no symbol, so that pair never merges.
 */
module Adjacency {
  import opened Wrappers
  import opened Numerals
  import opened Octal

  // ---------------------------------------------------------------- check_adjacent

  /** The dictionary `check_adjacent` returns. */
  datatype Adjacency = Adjacency(isValid: bool, changePos: int, octVal: Option<nat>)

  /**
   * What `check_adjacent(x, y)` decides: over the lanes of `x ^ y`, exactly one lane
   * differs and no lane of `x | y` is 5. With `guarded` (minish_hat.py), neither
   * operand may already equal `x | y`. `change_pos` is the negative index into
   * `oct(x | y)` of the changed lane.
   */
  function AdjacencyOf(guarded: bool, x: nat, y: nat): Adjacency
  {
    var res := Or(x, y);
    var xor := Xor(x, y);
    if CountLanes(res, Span(xor), 5) == 0 && CountNonZero(xor, Span(xor)) == 1 && (!guarded || (x != res && y != res))
    then Adjacency(true, -(Width(xor) as int), Some(res))
    else Adjacency(false, 0, None)
  }

  /** `check_adjacent` of minish_hat.py (`guarded`) and of the other scripts, which lack the `octx != res and octy != res` test. */
  method CheckAdjacent(guarded: bool, octx: nat, octy: nat) returns (r: Adjacency)
    ensures r == AdjacencyOf(guarded, octx, octy)
  {
    var countSet := 0;
    var countFives := 0;
    var res := Or(octx, octy);
    var retXor := Xor(octx, octy);
    var resOr := res;
    var resXor := retXor;
    ghost var m := 0;
    SpanOfOr(octx, octy);
    while resOr != 0 && resXor != 0
      invariant resOr == Shr(res, m) && resXor == Shr(retXor, m) && m <= Span(retXor)
      invariant countSet == CountNonZero(retXor, m) && countFives == CountLanes(res, m, 5)
      decreases resXor
    {
      ShrZero(retXor, m);
      LaneOfShr(res, m, 0);
      LaneOfShr(retXor, m, 0);
      ShrStep(res, m);
      ShrStep(retXor, m);
      countSet := countSet + if resXor % 8 > 0 then 1 else 0;
      countFives := countFives + if resOr % 8 == 5 then 1 else 0;
      resOr := resOr / 8;
      resXor := resXor / 8;
      m := m + 1;
    }
    ShrZero(res, m);
    ShrZero(retXor, m);
    if countFives == 0 && countSet == 1 && (!guarded || (octx != res && octy != res)) {
      r := Adjacency(true, -(Width(retXor) as int), Some(res));
    } else {
      r := Adjacency(false, 0, None);
    }
  }

  /** `x` and `y` differ in lane `i` and nowhere else. */
  ghost predicate OnlyLaneDiffers(x: nat, y: nat, i: nat)
  {
    Lane(x, i) != Lane(y, i) && forall j: nat :: j != i ==> Lane(x, j) == Lane(y, j)
  }

  /** No lane of `k` up to lane `i` is 5. */
  predicate NoFiveUpTo(k: nat, i: nat)
  {
    forall j: nat :: j <= i ==> Lane(k, j) != 5
  }

  /**
   * For two keys that differ in lane `i` only, `check_adjacent` accepts exactly when
   * no lane of `x | y` up to `i` is 5 (and, guarded, neither key is `x | y`); then the
   * merge is `x | y` and `change_pos` is `-(i + 1)`.
   */
  lemma AdjacencyOneLane(guarded: bool, x: nat, y: nat, i: nat)
    requires OnlyLaneDiffers(x, y, i)
    ensures AdjacencyOf(guarded, x, y).isValid <==>
      NoFiveUpTo(Or(x, y), i) && (guarded ==> x != Or(x, y) && y != Or(x, y))
    ensures AdjacencyOf(guarded, x, y).isValid ==>
      AdjacencyOf(guarded, x, y).changePos == -(i as int) - 1 && AdjacencyOf(guarded, x, y).octVal == Some(Or(x, y))
  {
    var xor := Xor(x, y);
    forall j: nat ensures Lane(xor, j) != 0 <==> j == i {
      XorLane(x, y, j);
    }
    SpanFromLanes(xor, i + 1);
    if xor == 0 {
      LaneOfZero(i);
    }
    CountNonZeroZero(xor, i);
    assert CountNonZero(xor, i + 1) == 1;
    CountLanesZero(Or(x, y), i + 1, 5);
    assert Span(xor) == i + 1 && Width(xor) == i + 1;
    if NoFiveUpTo(Or(x, y), i) {
      assert forall j: nat :: j < i + 1 ==> Lane(Or(x, y), j) != 5;
    }
    if CountLanes(Or(x, y), i + 1, 5) == 0 {
      assert NoFiveUpTo(Or(x, y), i);
    }
  }

  /** Adjacent keys differ in exactly one lane: the top lane of their `^`. */
  lemma AdjacencyNeedsOneLane(guarded: bool, x: nat, y: nat) returns (i: nat)
    requires AdjacencyOf(guarded, x, y).isValid
    ensures OnlyLaneDiffers(x, y, i)
  {
    var xor := Xor(x, y);
    var n := Span(xor);
    assert CountNonZero(xor, n) == 1;
    assert n > 0;
    i := n - 1;
    TopLaneNonZero(xor);
    assert CountNonZero(xor, n) == CountNonZero(xor, i) + 1;
    CountNonZeroZero(xor, i);
    forall j: nat | j != i ensures Lane(x, j) == Lane(y, j) {
      XorLane(x, y, j);
      if j >= n {
        LaneAboveSpan(xor, j);
      }
    }
    XorLane(x, y, i);
  }

  /** Adjacency does not depend on the order of the operands. */
  lemma AdjacencySymmetric(guarded: bool, x: nat, y: nat)
    ensures AdjacencyOf(guarded, x, y) == AdjacencyOf(guarded, y, x)
  {
    BitwiseCommutes(OrOp, x, y);
    BitwiseCommutes(XorOp, x, y);
  }

  /** A `0` and a `2` in the one differing lane never merge: their lanes or to 5. */
  lemma ZeroTwoNeverAdjacent(guarded: bool, x: nat, y: nat, i: nat)
    requires OnlyLaneDiffers(x, y, i) && Lane(x, i) == 1 && Lane(y, i) == 4
    ensures !AdjacencyOf(guarded, x, y).isValid
  {
    LaneOfBitwise(OrOp, x, y, i);
    assert DigitOp(OrOp, 1, 4) == 5;
    AdjacencyOneLane(guarded, x, y, i);
  }

  /** The merged key keeps every lane of `x` except lane `i`, which becomes the `|` of both lanes. */
  lemma MergedLanes(x: nat, y: nat, i: nat, j: nat)
    requires OnlyLaneDiffers(x, y, i)
    ensures Lane(Or(x, y), j) == if j == i then DigitOp(OrOp, Lane(x, i), Lane(y, i)) else Lane(x, j)
  {
    LaneOfBitwise(OrOp, x, y, j);
    if j != i {
      var d := Lane(x, j);
      assert d as bv3 | d as bv3 == d as bv3;
    }
  }

  // ---------------------------------------------------------------- check_partial_adj (minish_hat.py)

  /** The four ways the count-based `check_partial_adj` reads a lane pair. */
  datatype LaneKind = EqualLane | ContainedLane | AdjacentLane | UnrelatedLane

  /**
   * A lane pair is equal; contained (the `b` lane is the `&` and the `a` lane the `|`);
   * adjacent (`&` is 0 and `^` is not 5, or `&` is 2, `|` is 7 and `^` is 5, i.e. a
   * `z`/`o` pair); or none of these. The first test that holds decides.
   */
  function KindOf(da: nat, db: nat): LaneKind
    requires da < 8 && db < 8
  {
    var an := DigitOp(AndOp, da, db);
    var o := DigitOp(OrOp, da, db);
    var xo := DigitOp(XorOp, da, db);
    if da == db then EqualLane
    else if db == an && da == o then ContainedLane
    else if an == 0 && xo != 5 then AdjacentLane
    else if an == 2 && o == 7 && xo == 5 then AdjacentLane
    else UnrelatedLane
  }

  function KindAt(a: nat, b: nat, i: nat): LaneKind
  {
    KindOf(Lane(a, i), Lane(b, i))
  }

  /** The number of lanes below `n` of kind `kd`. */
  function CountKind(a: nat, b: nat, n: nat, kd: LaneKind): (c: nat)
    ensures c <= n
  {
    if n == 0 then 0 else CountKind(a, b, n - 1, kd) + (if KindAt(a, b, n - 1) == kd then 1 else 0)
  }

  /**
   * `check_partial_adj(p0, p1)` of minish_hat.py: over the lanes of `p0 | p1`, at least
   * one contained lane, exactly one adjacent lane, and every one of the
   * `max(len(oct(p0)), len(oct(p1))) - 2` lanes equal, contained or adjacent.
   */
  function PartialAdjacent(a: nat, b: nat): bool
  {
    var n := Span(Or(a, b));
    var eq, comp, adj := CountKind(a, b, n, EqualLane), CountKind(a, b, n, ContainedLane), CountKind(a, b, n, AdjacentLane);
    comp >= 1 && adj == 1 && comp + eq + adj == Max(Width(a), Width(b))
  }

  method CheckPartialAdj(p0: nat, p1: nat) returns (r: bool)
    ensures r == PartialAdjacent(p0, p1)
  {
    var orRet, andRet, xorRet := Or(p0, p1), And(p0, p1), Xor(p0, p1);
    var a, b := p0, p1;
    var eqCount, adjCount, compCount := 0, 0, 0;
    var octLen := Max(Width(a), Width(b));
    ghost var m := 0;
    while a != 0 || b != 0 || andRet != 0
      invariant a == Shr(p0, m) && b == Shr(p1, m) && andRet == Shr(And(p0, p1), m)
      invariant orRet == Shr(Or(p0, p1), m) && xorRet == Shr(Xor(p0, p1), m)
      invariant m <= Span(Or(p0, p1))
      invariant eqCount == CountKind(p0, p1, m, EqualLane)
      invariant compCount == CountKind(p0, p1, m, ContainedLane)
      invariant adjCount == CountKind(p0, p1, m, AdjacentLane)
      decreases Span(Or(p0, p1)) - m
    {
      LaneStep(p0, p1, m);
      if a % 8 == b % 8 {
        eqCount := eqCount + 1;
      } else if b % 8 == andRet % 8 && a % 8 == orRet % 8 {
        compCount := compCount + 1;
      } else if andRet % 8 == 0 && xorRet % 8 != 5 {
        adjCount := adjCount + 1;
      } else if andRet % 8 == 2 && orRet % 8 == 7 && xorRet % 8 == 5 {
        adjCount := adjCount + 1;
      }
      orRet, xorRet, andRet, a, b := orRet / 8, xorRet / 8, andRet / 8, a / 8, b / 8;
      m := m + 1;
    }
    LaneStep(p0, p1, m);
    r := compCount >= 1 && adjCount == 1 && compCount + eqCount + adjCount == octLen;
  }

  /** One step of a loop that shifts `p0`, `p1` and their `&`, `|`, `^` together. */
  lemma LaneStep(p0: nat, p1: nat, m: nat)
    ensures Shr(p0, m) % 8 == Lane(p0, m) && Shr(p1, m) % 8 == Lane(p1, m)
    ensures Shr(And(p0, p1), m) % 8 == DigitOp(AndOp, Lane(p0, m), Lane(p1, m))
    ensures Shr(Or(p0, p1), m) % 8 == DigitOp(OrOp, Lane(p0, m), Lane(p1, m))
    ensures Shr(Xor(p0, p1), m) % 8 == DigitOp(XorOp, Lane(p0, m), Lane(p1, m))
    ensures Shr(p0, m + 1) == Shr(p0, m) / 8 && Shr(p1, m + 1) == Shr(p1, m) / 8
    ensures Shr(And(p0, p1), m + 1) == Shr(And(p0, p1), m) / 8
    ensures Shr(Or(p0, p1), m + 1) == Shr(Or(p0, p1), m) / 8
    ensures Shr(Xor(p0, p1), m + 1) == Shr(Xor(p0, p1), m) / 8
    ensures (Shr(p0, m) != 0 || Shr(p1, m) != 0 || Shr(And(p0, p1), m) != 0) <==> m < Span(Or(p0, p1))
  {
    SpanOfOr(p0, p1);
    SpanOfAnd(p0, p1);
    ShrZero(p0, m);
    ShrZero(p1, m);
    ShrZero(And(p0, p1), m);
    LaneOfShr(p0, m, 0);
    LaneOfShr(p1, m, 0);
    LaneOfShr(And(p0, p1), m, 0);
    LaneOfShr(Or(p0, p1), m, 0);
    LaneOfShr(Xor(p0, p1), m, 0);
    LaneOfBitwise(AndOp, p0, p1, m);
    LaneOfBitwise(OrOp, p0, p1, m);
    LaneOfBitwise(XorOp, p0, p1, m);
    ShrStep(p0, m);
    ShrStep(p1, m);
    ShrStep(And(p0, p1), m);
    ShrStep(Or(p0, p1), m);
    ShrStep(Xor(p0, p1), m);
  }

  /** Every lane pair has exactly one kind, so the four counts add up to the lanes. */
  lemma {:induction false} CountKindsSum(a: nat, b: nat, n: nat)
    ensures CountKind(a, b, n, EqualLane) + CountKind(a, b, n, ContainedLane)
          + CountKind(a, b, n, AdjacentLane) + CountKind(a, b, n, UnrelatedLane) == n
  {
    if n > 0 {
      CountKindsSum(a, b, n - 1);
    }
  }

  lemma {:induction false} CountKindZero(a: nat, b: nat, n: nat, kd: LaneKind)
    ensures CountKind(a, b, n, kd) == 0 <==> forall i: nat :: i < n ==> KindAt(a, b, i) != kd
  {
    if n > 0 {
      CountKindZero(a, b, n - 1, kd);
    }
  }

  /** The lane of kind `kd` below `n`, if there is exactly one. */
  predicate UniqueKind(a: nat, b: nat, n: nat, kd: LaneKind, i: nat)
  {
    i < n && KindAt(a, b, i) == kd && forall j: nat :: j < n && j != i ==> KindAt(a, b, j) != kd
  }

  lemma {:induction false} CountKindOne(a: nat, b: nat, n: nat, kd: LaneKind)
    ensures CountKind(a, b, n, kd) == 1 <==> exists i: nat :: UniqueKind(a, b, n, kd, i)
  {
    if n > 0 {
      CountKindOne(a, b, n - 1, kd);
      if KindAt(a, b, n - 1) == kd {
        UniqueKindTop(a, b, n, kd);
      } else {
        UniqueKindBelow(a, b, n, n - 1, kd);
      }
    } else {
      assert forall i: nat :: !UniqueKind(a, b, n, kd, i);
    }
  }

  /** When the top lane has the kind, it is the unique one exactly when no lane below has it. */
  lemma UniqueKindTop(a: nat, b: nat, n: nat, kd: LaneKind)
    requires n > 0 && KindAt(a, b, n - 1) == kd
    ensures (exists i: nat :: UniqueKind(a, b, n, kd, i)) <==> CountKind(a, b, n - 1, kd) == 0
  {
    CountKindZero(a, b, n - 1, kd);
    if CountKind(a, b, n - 1, kd) == 0 {
      assert UniqueKind(a, b, n, kd, n - 1);
    }
    if exists i: nat :: UniqueKind(a, b, n, kd, i) {
      var i: nat :| UniqueKind(a, b, n, kd, i);
      assert i == n - 1;
    }
  }

  /** When the top lane has another kind, the unique lane of the kind is the one below it. */
  lemma UniqueKindBelow(a: nat, b: nat, n: nat, below: nat, kd: LaneKind)
    requires below + 1 == n && KindAt(a, b, below) != kd
    ensures (exists i: nat :: UniqueKind(a, b, n, kd, i)) <==> exists i: nat :: UniqueKind(a, b, below, kd, i)
  {
    if exists i: nat :: UniqueKind(a, b, below, kd, i) {
      var i: nat :| UniqueKind(a, b, below, kd, i);
      assert UniqueKind(a, b, n, kd, i);
    }
    if exists i: nat :: UniqueKind(a, b, n, kd, i) {
      var i: nat :| UniqueKind(a, b, n, kd, i);
      assert UniqueKind(a, b, below, kd, i);
    }
  }

  /**
   * `check_partial_adj(a, b)` holds exactly when, over the lanes of `a | b`, no lane is
   * unrelated, some lane is contained and exactly one lane is adjacent.
   */
  lemma PartialAdjacentIff(a: nat, b: nat)
    ensures PartialAdjacent(a, b) <==>
      var n := Span(Or(a, b));
      (forall i: nat :: i < n ==> KindAt(a, b, i) != UnrelatedLane) &&
      (exists i: nat :: i < n && KindAt(a, b, i) == ContainedLane) &&
      (exists i: nat :: UniqueKind(a, b, n, AdjacentLane, i))
  {
    var n := Span(Or(a, b));
    SpanOfOr(a, b);
    CountKindsSum(a, b, n);
    CountKindZero(a, b, n, UnrelatedLane);
    CountKindZero(a, b, n, ContainedLane);
    CountKindOne(a, b, n, AdjacentLane);
    if a == 0 && b == 0 {
      assert n == 0;
    } else {
      assert Max(Width(a), Width(b)) == n;
    }
  }

  /**
   * The test is not symmetric: with keys 58 (`x1`) and 12 (`02`) the first order is
   * accepted and the second is not, because `0` is not contained in `x` when read that way round.
   */
  lemma PartialAdjacentNotSymmetric()
    ensures PartialAdjacent(58, 12) && !PartialAdjacent(12, 58)
  {
    AcceptedExample();
    RejectedExample();
  }

  /** `x1` against `02`: lane 0 is adjacent (`1`/`2`), lane 1 contained (`x` over `0`). */
  lemma AcceptedExample()
    ensures PartialAdjacent(58, 12)
  {
    OrSpanExample();
    assert Lane(58, 0) == 2 && Lane(58, 1) == 7 && Lane(12, 0) == 4 && Lane(12, 1) == 1;
    assert KindAt(58, 12, 0) == AdjacentLane && KindAt(58, 12, 1) == ContainedLane;
    forall i: nat | i < 2 ensures KindAt(58, 12, i) != UnrelatedLane {
      assert i == 0 || i == 1;
    }
    PartialAdjacentIff(58, 12);
    assert UniqueKind(58, 12, 2, AdjacentLane, 0);
  }

  /** `02` against `x1`: lane 1 is unrelated, `0` does not contain `x`. */
  lemma RejectedExample()
    ensures !PartialAdjacent(12, 58)
  {
    OrSpanExample();
    assert Lane(58, 1) == 7 && Lane(12, 1) == 1;
    assert KindAt(12, 58, 1) == UnrelatedLane;
    PartialAdjacentIff(12, 58);
  }

  /** `oct(58 | 12)` is `0o76`: two lanes, whichever way round the operands are. */
  lemma OrSpanExample()
    ensures Span(Or(58, 12)) == 2 && Or(12, 58) == Or(58, 12)
  {
    assert Lane(58, 0) == 2 && Lane(58, 1) == 7 && Lane(12, 0) == 4 && Lane(12, 1) == 1;
    LaneOfBitwise(OrOp, 58, 12, 0);
    LaneOfBitwise(OrOp, 58, 12, 1);
    forall i: nat | i >= 2 ensures Lane(Or(58, 12), i) == 0 {
      LaneAboveSpan(58, i);
      LaneAboveSpan(12, i);
      OrLane(58, 12, i);
    }
    SpanFromLanes(Or(58, 12), 2);
    BitwiseCommutes(OrOp, 58, 12);
  }

  // ---------------------------------------------------------------- build_mask / count (mask-based partial adjacency)

  /**
   * The mask lane `build_mask` writes: 7 for a lane whose `&` is 0 and whose `|` is 3
   * or 6 (a `0`/`1` or `1`/`2` pair, or a `z` or `o` opposite a missing lane), and for a
   * `z`/`o` pair (`&` is 2, both lanes 3 or 6 and different); 0 otherwise.
   */
  function MaskLane(da: nat, db: nat): (r: nat)
    requires da < 8 && db < 8
    ensures r == 0 || r == 7
  {
    var an := DigitOp(AndOp, da, db);
    var o := DigitOp(OrOp, da, db);
    if an == 0 && (o == 3 || o == 6) then 7
    else if an == 2 && da != db && (da == 3 || da == 6) && (db == 3 || db == 6) then 7
    else 0
  }

  /** `mask` after `n` turns of the `build_mask` loop: the sum of `ret * 8 ** pos`. */
  function MaskUpTo(a: nat, b: nat, n: nat): nat
  {
    if n == 0 then 0 else MaskUpTo(a, b, n - 1) + MaskLane(Lane(a, n - 1), Lane(b, n - 1)) * Pow(8, n - 1)
  }

  /** `comp_mask` after `n` turns: the sum of `(7 - ret) * 8 ** pos`. */
  function CompUpTo(a: nat, b: nat, n: nat): nat
  {
    if n == 0 then 0 else CompUpTo(a, b, n - 1) + (7 - MaskLane(Lane(a, n - 1), Lane(b, n - 1))) * Pow(8, n - 1)
  }

  /** `build_mask(a, b, a | b, a & b)` (helper/octal_adj.py; inlined in the mask-based `check_partial_adj`). */
  method BuildMask(a0: nat, b0: nat, orRet0: nat, andRet0: nat) returns (mask: nat, compMask: nat)
    requires orRet0 == Or(a0, b0) && andRet0 == And(a0, b0)
    ensures mask == MaskUpTo(a0, b0, Span(Or(a0, b0))) && compMask == CompUpTo(a0, b0, Span(Or(a0, b0)))
  {
    mask, compMask := 0, 0;
    var pos := 0;
    var a, b, orRet, andRet := a0, b0, orRet0, andRet0;
    while a != 0 || b != 0 || andRet != 0
      invariant a == Shr(a0, pos) && b == Shr(b0, pos) && andRet == Shr(And(a0, b0), pos) && orRet == Shr(Or(a0, b0), pos)
      invariant pos <= Span(Or(a0, b0))
      invariant mask == MaskUpTo(a0, b0, pos) && compMask == CompUpTo(a0, b0, pos)
      decreases Span(Or(a0, b0)) - pos
    {
      LaneStep(a0, b0, pos);
      var ret := LaneMask(a % 8, b % 8, andRet % 8, orRet % 8);
      ScaledLanes(ret, Pow(8, pos));
      mask := mask + ret * Pow(8, pos);
      compMask := compMask + (7 - ret) * Pow(8, pos);
      pos := pos + 1;
      andRet, orRet, a, b := andRet / 8, orRet / 8, a / 8, b / 8;
    }
    LaneStep(a0, b0, pos);
  }

  /** Both terms one turn of `build_mask` adds are non-negative. */
  lemma ScaledLanes(ret: nat, p: nat)
    requires ret <= 7
    ensures ret * p >= 0 && (7 - ret) * p >= 0
  {
  }

  /** The `ret` of one turn of the `build_mask` loop, from the lanes and their `&` and `|`. */
  method LaneMask(da: nat, db: nat, an: nat, o: nat) returns (ret: nat)
    requires da < 8 && db < 8 && an == DigitOp(AndOp, da, db) && o == DigitOp(OrOp, da, db)
    ensures ret == MaskLane(da, db)
  {
    ret := 0;
    if an == 0 && (o == 3 || o == 6) {
      ret := 7;
    } else if an == 2 && da != db && (da == 3 || da == 6) && (db == 3 || db == 6) {
      ret := 7;
    }
  }

  /** `count(mask, needle)`: how many lanes of `mask` the loop sees holding `needle`. */
  method CountDigit(mask0: nat, needle: nat) returns (count: nat)
    ensures count == CountLanes(mask0, Span(mask0), needle)
  {
    count := 0;
    var mask := mask0;
    ghost var m := 0;
    while mask != 0
      invariant mask == Shr(mask0, m) && m <= Span(mask0)
      invariant count == CountLanes(mask0, m, needle)
      decreases mask
    {
      ShrZero(mask0, m);
      LaneOfShr(mask0, m, 0);
      ShrStep(mask0, m);
      count := count + if mask % 8 == needle then 1 else 0;
      mask := mask / 8;
      m := m + 1;
    }
    ShrZero(mask0, m);
  }

  /** For a non-zero needle, `count` sees every lane that holds it; `count(0, needle)` is 0. */
  lemma CountDigitMeaning(k: nat, needle: nat, n: nat)
    requires needle != 0 && n >= Span(k)
    ensures CountLanes(k, Span(k), needle) == CountLanes(k, n, needle)
    ensures CountLanes(0, Span(0), needle) == 0
  {
    CountLanesPastSpan(k, n, needle);
  }

  /** Lane `i` of `s + d * 8 ** m`, for `s` below `8 ** m`. */
  lemma {:induction false} LaneOfPlace(s: nat, d: nat, m: nat, i: nat)
    requires s < Pow(8, m) && d < 8
    ensures Lane(s + d * Pow(8, m), i) == if i < m then Lane(s, i) else if i == m then d else 0
    decreases m
  {
    if m == 0 {
      assert s == 0;
      if i > 0 {
        LaneOfZero(i - 1);
      }
    } else {
      var p := Pow(8, m - 1);
      var q := d * p;
      assert d * Pow(8, m) == 8 * q;
      var v := s + 8 * q;
      assert v % 8 == s % 8 && v / 8 == s / 8 + q;
      if i > 0 {
        LaneOfPlace(s / 8, d, m - 1, i - 1);
      }
    }
  }

  lemma DigitTimes(d: nat, p: nat)
    requires d < 8
    ensures d * p <= 7 * p
    decreases 8 - d
  {
    if d < 7 {
      DigitTimes(d + 1, p);
    }
  }

  /** The lanes of the mask: `MaskLane` below `n`, zero above; the complement mask is `7 - MaskLane` below `n`. */
  lemma {:induction false} LaneOfMasks(a: nat, b: nat, n: nat, i: nat)
    ensures MaskUpTo(a, b, n) < Pow(8, n) && CompUpTo(a, b, n) < Pow(8, n)
    ensures Lane(MaskUpTo(a, b, n), i) == if i < n then MaskLane(Lane(a, i), Lane(b, i)) else 0
    ensures Lane(CompUpTo(a, b, n), i) == if i < n then 7 - MaskLane(Lane(a, i), Lane(b, i)) else 0
    decreases n
  {
    if n == 0 {
      LaneOfZero(i);
    } else {
      LaneOfMasks(a, b, n - 1, i);
      var d := MaskLane(Lane(a, n - 1), Lane(b, n - 1));
      var p := Pow(8, n - 1);
      DigitTimes(d, p);
      DigitTimes(7 - d, p);
      LaneOfPlace(MaskUpTo(a, b, n - 1), d, n - 1, i);
      LaneOfPlace(CompUpTo(a, b, n - 1), 7 - d, n - 1, i);
    }
  }

  /** Every processed lane is masked or complemented, never both: `mask & comp_mask == 0` and together they fill the lanes. */
  lemma MasksDisjoint(a: nat, b: nat)
    ensures And(MaskUpTo(a, b, Span(Or(a, b))), CompUpTo(a, b, Span(Or(a, b)))) == 0
    ensures forall i: nat :: i < Span(Or(a, b)) ==>
      Lane(Or(MaskUpTo(a, b, Span(Or(a, b))), CompUpTo(a, b, Span(Or(a, b)))), i) == 7
  {
    var n := Span(Or(a, b));
    var mask, comp := MaskUpTo(a, b, n), CompUpTo(a, b, n);
    forall i: nat ensures Lane(And(mask, comp), i) == 0 && (i < n ==> Lane(Or(mask, comp), i) == 7) {
      LaneOfMasks(a, b, n, i);
      LaneOfBitwise(AndOp, mask, comp, i);
      LaneOfBitwise(OrOp, mask, comp, i);
    }
    ZeroIffLanesZero(And(mask, comp));
  }

  /** `&` with 7 and `|` with 0 keep a digit; `&` with 0 clears it. */
  lemma DigitIdentities(x: nat)
    requires x < 8
    ensures DigitOp(AndOp, x, 7) == x && DigitOp(AndOp, x, 0) == 0
    ensures DigitOp(OrOp, x, 0) == x && DigitOp(OrOp, 0, x) == x
  {
    var u := x as bv3;
    assert u & 7 == u && u & 0 == 0 && u | 0 == u && 0 | u == u;
  }

  /** Lane `i` (below the span of `a | b`) is one that `build_mask` masks. */
  function MaskedAt(a: nat, b: nat, i: nat): bool
  {
    MaskLane(Lane(a, i), Lane(b, i)) == 7
  }

  /**
   * `check_partial_adj(p0, p1)` of minish-hat.py and minish-ruleset.py: the mask is
   * non-zero, `count(mask, 7)` is 1 and `xor & comp_mask` is not zero.
   */
  function MaskedPartialAdjacent(a: nat, b: nat): bool
  {
    var n := Span(Or(a, b));
    var mask, comp := MaskUpTo(a, b, n), CompUpTo(a, b, n);
    mask > 0 && CountLanes(mask, Span(mask), 7) == 1 && And(Xor(a, b), comp) != 0
  }

  method CheckPartialAdjMasked(p0: nat, p1: nat) returns (r: bool)
    ensures r == MaskedPartialAdjacent(p0, p1)
  {
    var orRet, andRet, xorRet := Or(p0, p1), And(p0, p1), Xor(p0, p1);
    var mask, compMask := BuildMask(p0, p1, orRet, andRet);
    var count := CountDigit(mask, 7);
    var maskedXor := And(xorRet, compMask);
    r := mask > 0 && count == 1 && maskedXor != 0;
  }

  /** The masks count: exactly one masked lane below the span is what `count(mask, 7) == 1` says. */
  lemma CountMasked(a: nat, b: nat, n: nat, k: nat)
    requires k <= n
    ensures CountLanes(MaskUpTo(a, b, n), k, 7) == 0 <==> forall i: nat :: i < k ==> !MaskedAt(a, b, i)
    ensures CountLanes(MaskUpTo(a, b, n), k, 7) == 1 <==> exists i: nat :: SoleMasked(a, b, k, i)
  {
    CountMaskedNone(a, b, n, k);
    CountMaskedOne(a, b, n, k);
  }

  /** No lane of the mask below `k` is 7 exactly when no lane below `k` is masked. */
  lemma {:induction false} CountMaskedNone(a: nat, b: nat, n: nat, k: nat)
    requires k <= n
    ensures CountLanes(MaskUpTo(a, b, n), k, 7) == 0 <==> forall i: nat :: i < k ==> !MaskedAt(a, b, i)
    decreases k
  {
    if k > 0 {
      var below := k - 1;
      CountMaskedNone(a, b, n, below);
      LaneOfMasks(a, b, n, below);
      assert (forall i: nat :: i < k ==> !MaskedAt(a, b, i)) <==>
        (forall i: nat :: i < below ==> !MaskedAt(a, b, i)) && !MaskedAt(a, b, below);
    }
  }

  /** One lane of the mask below `k` is 7 exactly when one lane below `k` is masked. */
  lemma {:induction false} CountMaskedOne(a: nat, b: nat, n: nat, k: nat)
    requires k <= n
    ensures CountLanes(MaskUpTo(a, b, n), k, 7) == 1 <==> exists i: nat :: SoleMasked(a, b, k, i)
    decreases k
  {
    var mask := MaskUpTo(a, b, n);
    if k > 0 {
      var below := k - 1;
      CountMaskedOne(a, b, n, below);
      CountMaskedNone(a, b, n, below);
      LaneOfMasks(a, b, n, below);
      if MaskedAt(a, b, below) {
        if CountLanes(mask, below, 7) == 0 {
          assert SoleMasked(a, b, k, below);
        }
        if exists i: nat :: SoleMasked(a, b, k, i) {
          var i: nat :| SoleMasked(a, b, k, i);
          assert i == below;
        }
      } else {
        if exists i: nat :: SoleMasked(a, b, below, i) {
          var i: nat :| SoleMasked(a, b, below, i);
          assert SoleMasked(a, b, k, i);
        }
        if exists i: nat :: SoleMasked(a, b, k, i) {
          var i: nat :| SoleMasked(a, b, k, i);
          assert SoleMasked(a, b, below, i);
        }
      }
    } else {
      assert forall i: nat :: !SoleMasked(a, b, k, i);
    }
  }

  /** Lane `i` is the only masked lane below `n`. */
  predicate SoleMasked(a: nat, b: nat, n: nat, i: nat)
  {
    i < n && MaskedAt(a, b, i) && forall j: nat :: j < n && j != i ==> !MaskedAt(a, b, j)
  }

  /**
   * The mask-based test holds exactly when one lane below the span of `a | b` is
   * masked and `a` and `b` also differ in some lane that is not masked.
   */
  lemma MaskedPartialAdjacentIff(a: nat, b: nat)
    ensures MaskedPartialAdjacent(a, b) <==>
      exists i: nat :: SoleMasked(a, b, Span(Or(a, b)), i) &&
        exists j: nat :: j < Span(Or(a, b)) && j != i && Lane(a, j) != Lane(b, j)
  {
    var n := Span(Or(a, b));
    SoleMaskIff(a, b);
    UnmaskedDiffIff(a, b);
    if MaskedPartialAdjacent(a, b) {
      var i: nat :| SoleMasked(a, b, n, i);
      var j: nat :| j < n && !MaskedAt(a, b, j) && Lane(a, j) != Lane(b, j);
      assert j != i;
    }
    if exists i: nat :: SoleMasked(a, b, n, i) && exists j: nat :: j < n && j != i && Lane(a, j) != Lane(b, j) {
      var i: nat :| SoleMasked(a, b, n, i) && exists j: nat :: j < n && j != i && Lane(a, j) != Lane(b, j);
      var j: nat :| j < n && j != i && Lane(a, j) != Lane(b, j);
      assert !MaskedAt(a, b, j);
    }
  }

  /** The mask has exactly one lane set exactly when one lane below the span is masked. */
  lemma SoleMaskIff(a: nat, b: nat)
    ensures var mask := MaskUpTo(a, b, Span(Or(a, b)));
      (mask > 0 && CountLanes(mask, Span(mask), 7) == 1) <==> exists i: nat :: SoleMasked(a, b, Span(Or(a, b)), i)
  {
    var n := Span(Or(a, b));
    var mask := MaskUpTo(a, b, n);
    forall i: nat ensures Lane(mask, i) == 0 <==> !(i < n && MaskedAt(a, b, i)) {
      LaneOfMasks(a, b, n, i);
    }
    if Span(mask) > n {
      TopLaneNonZero(mask);
    }
    CountLanesPastSpan(mask, n, 7);
    CountMasked(a, b, n, n);
    ZeroIffLanesZero(mask);
    if exists i: nat :: SoleMasked(a, b, n, i) {
      var i: nat :| SoleMasked(a, b, n, i);
      assert Lane(mask, i) != 0;
    }
  }

  /** `(a ^ b) & comp_mask` is non-zero exactly when `a` and `b` differ in a lane below the span that is not masked. */
  lemma UnmaskedDiffIff(a: nat, b: nat)
    ensures And(Xor(a, b), CompUpTo(a, b, Span(Or(a, b)))) != 0 <==>
      exists j: nat :: j < Span(Or(a, b)) && !MaskedAt(a, b, j) && Lane(a, j) != Lane(b, j)
  {
    var n := Span(Or(a, b));
    var comp := CompUpTo(a, b, n);
    forall j: nat ensures Lane(And(Xor(a, b), comp), j) != 0 <==> j < n && !MaskedAt(a, b, j) && Lane(a, j) != Lane(b, j) {
      LaneOfBitwise(AndOp, Xor(a, b), comp, j);
      LaneOfMasks(a, b, n, j);
      XorLane(a, b, j);
      DigitIdentities(Lane(Xor(a, b), j));
      if j >= n {
        SpanOfOr(a, b);
        LaneAboveSpan(a, j);
        LaneAboveSpan(b, j);
      }
    }
    ZeroIffLanesZero(And(Xor(a, b), comp));
    if exists j: nat :: j < n && !MaskedAt(a, b, j) && Lane(a, j) != Lane(b, j) {
      var j: nat :| j < n && !MaskedAt(a, b, j) && Lane(a, j) != Lane(b, j);
      assert Lane(And(Xor(a, b), comp), j) != 0;
    }
  }

  // ---------------------------------------------------------------- pair classification (helper/octal_adj.py)

  /** The three outcomes helper/octal_adj.py reports for a pair. */
  datatype PairClass = TotallyAdjacent(result: nat) | PartiallyAdjacent(result: nat) | Incompatible

  /**
   * One masked lane and nothing differing outside it: totally adjacent, merged to
   * `a | b`; one masked lane and some difference outside: partially adjacent, merged
   * to `(a | b) & mask | (a & b) & comp_mask`; otherwise incompatible.
   */
  function ClassOf(a: nat, b: nat): PairClass
  {
    var n := Span(Or(a, b));
    var mask, comp := MaskUpTo(a, b, n), CompUpTo(a, b, n);
    if mask > 0 && CountLanes(mask, Span(mask), 7) == 1 then
      if And(Xor(a, b), comp) == 0 then TotallyAdjacent(Or(a, b))
      else PartiallyAdjacent(Or(And(Or(a, b), mask), And(And(a, b), comp)))
    else Incompatible
  }

  /** The classification loop body of helper/octal_adj.py for one pair of keys. */
  method ClassifyPair(p0: nat, p1: nat) returns (c: PairClass)
    ensures c == ClassOf(p0, p1)
  {
    var orRet, andRet, xorRet := Or(p0, p1), And(p0, p1), Xor(p0, p1);
    var mask, compMask := BuildMask(p0, p1, orRet, andRet);
    var adjPosCount := CountDigit(mask, 7);
    var maskedXor := And(xorRet, compMask);
    if mask > 0 && adjPosCount == 1 {
      if maskedXor == 0 {
        c := TotallyAdjacent(orRet);
      } else {
        c := PartiallyAdjacent(Or(And(orRet, mask), And(andRet, compMask)));
      }
    } else {
      c := Incompatible;
    }
  }

  /** The partial merge of one lane: the `|` lane where the mask is 7, the `&` lane where it is 0. */
  lemma DigitSelect(o: nat, an: nat, m: nat)
    requires o < 8 && an < 8 && (m == 0 || m == 7)
    ensures DigitOp(OrOp, DigitOp(AndOp, o, m), DigitOp(AndOp, an, 7 - m)) == if m == 7 then o else an
  {
    DigitIdentities(o);
    DigitIdentities(an);
  }

  /** The partial merge takes the `|` at the masked lane and the `&` at every other lane. */
  lemma PartialClassLanes(a: nat, b: nat, i: nat)
    requires ClassOf(a, b).PartiallyAdjacent?
    ensures Lane(ClassOf(a, b).result, i) == if MaskedAt(a, b, i) && i < Span(Or(a, b)) then Lane(Or(a, b), i) else Lane(And(a, b), i)
  {
    var n := Span(Or(a, b));
    var mask, comp := MaskUpTo(a, b, n), CompUpTo(a, b, n);
    LaneOfMasks(a, b, n, i);
    LaneOfBitwise(OrOp, And(Or(a, b), mask), And(And(a, b), comp), i);
    LaneOfBitwise(AndOp, Or(a, b), mask, i);
    LaneOfBitwise(AndOp, And(a, b), comp, i);
    if i < n {
      DigitSelect(Lane(Or(a, b), i), Lane(And(a, b), i), Lane(mask, i));
    } else {
      SpanOfAnd(a, b);
      LaneAboveSpan(And(a, b), i);
      LaneAboveSpan(Or(a, b), i);
      DigitIdentities(0);
    }
  }

  /** A totally adjacent pair differs only in its one masked lane, and merges to `a | b`. */
  lemma TotalClassMeaning(a: nat, b: nat)
    requires ClassOf(a, b).TotallyAdjacent?
    ensures ClassOf(a, b).result == Or(a, b)
    ensures exists i: nat :: SoleMasked(a, b, Span(Or(a, b)), i) && forall j: nat :: j != i ==> Lane(a, j) == Lane(b, j)
  {
    var n := Span(Or(a, b));
    var mask, comp := MaskUpTo(a, b, n), CompUpTo(a, b, n);
    if Span(mask) > n {
      forall i: nat ensures i >= n ==> Lane(mask, i) == 0 {
        LaneOfMasks(a, b, n, i);
      }
      TopLaneNonZero(mask);
    }
    CountLanesPastSpan(mask, n, 7);
    CountMasked(a, b, n, n);
    var i: nat :| SoleMasked(a, b, n, i);
    forall j: nat | j != i ensures Lane(a, j) == Lane(b, j) {
      LaneOfBitwise(AndOp, Xor(a, b), comp, j);
      LaneOfMasks(a, b, n, j);
      LaneOfZero(j);
      XorLane(a, b, j);
      DigitIdentities(Lane(Xor(a, b), j));
      if j >= n {
        SpanOfOr(a, b);
        LaneAboveSpan(a, j);
        LaneAboveSpan(b, j);
      } else {
        assert !MaskedAt(a, b, j);
        assert Lane(comp, j) == 7;
        assert And(Xor(a, b), comp) == 0;
        assert Lane(Xor(a, b), j) == 0;
      }
    }
    assert SoleMasked(a, b, n, i);
  }
}
