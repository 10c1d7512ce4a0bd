/** The two lane scans of helper/oct_ops.py. */
module OctOps {
  import opened Octal

  /** `count_set_bits`: how many octal digits of `octx` are not zero. */
  method CountSetBits(octx: nat) returns (count: nat)
    ensures count == CountNonZero(octx, Span(octx))
    ensures count == 0 <==> octx == 0
  {
    var x := octx;
    count := 0;
    ghost var m := 0;
    ShrZero(octx, 0);
    while x != 0
      invariant x == Shr(octx, m) && m <= Span(octx)
      invariant count == CountNonZero(octx, m)
      decreases x
    {
      ShrZero(octx, m);
      LaneOfShr(octx, m, 0);
      ShrStep(octx, m);
      count := count + if x % 8 > 0 then 1 else 0;
      x := x / 8;
      m := m + 1;
    }
    ShrZero(octx, m);
    if octx != 0 {
      TopLaneNonZero(octx);
      CountNonZeroPositive(octx, Span(octx));
    }
  }

  /** `is_valid_adj`: no octal digit of `octx` is 5 (the lanes of a `0` and a `2` symbol or-ed together). */
  method IsValidAdj(octx: nat) returns (valid: bool)
    ensures valid <==> forall i: nat :: Lane(octx, i) != 5
  {
    var x := octx;
    var count := 0;
    ghost var m := 0;
    ShrZero(octx, 0);
    while x != 0
      invariant x == Shr(octx, m) && m <= Span(octx)
      invariant count == CountLanes(octx, m, 5)
      decreases x
    {
      ShrZero(octx, m);
      LaneOfShr(octx, m, 0);
      ShrStep(octx, m);
      count := count + if x % 8 == 5 then 1 else 0;
      x := x / 8;
      m := m + 1;
    }
    ShrZero(octx, m);
    valid := count == 0;
    CountLanesZero(octx, m, 5);
    forall i: nat | i >= m
      ensures Lane(octx, i) != 5
    {
      LaneAboveSpan(octx, i);
    }
  }
}
