/**
 * Keys of labels, as the pair loops see them: every lane below the label's width holds
 * one of the six symbol codes. The loops also read single characters of `oct(k)` by a
 * negative index and build a lane mask from an octal string; both are modelled here.
 */
module Keys {
  import opened Wrappers
  import opened Numerals
  import opened Octal
  import opened Codec
  import opened Weights
  import opened Adjacency

  /** The six lane digits a symbol can be coded as. */
  predicate IsCode(d: nat)
  {
    d == 1 || d == 2 || d == 4 || d == 3 || d == 6 || d == 7
  }

  /** `k` is the key of a label with `n` symbols. */
  predicate LabelKey(k: nat, n: nat)
  {
    n > 0 && Span(k) == n && forall i: nat :: i < n ==> IsCode(Lane(k, i))
  }

  /** The key of a label of width `n` is a label key of width `n`. */
  lemma LabelKeyOfLabel(lbl: string)
    requires IsLabel(lbl)
    ensures Encode(Pipeline, lbl).Ok? && LabelKey(Encode(Pipeline, lbl).value, |lbl|)
  {
    LanesOfLabel(lbl);
  }

  /** And back: a label key decodes to a label of its width, which encodes to it again. */
  lemma LabelKeyDecodes(k: nat, n: nat)
    requires LabelKey(k, n)
    ensures Decode(Pipeline, k).Ok? && IsLabel(Decode(Pipeline, k).value) && |Decode(Pipeline, k).value| == n
    ensures Encode(Pipeline, Decode(Pipeline, k).value) == Ok(k)
  {
    var ds := OctDigits(k);
    forall j | 0 <= j < |ds| ensures CodeSymbol(Pipeline, ds[j]).Some? && IsSymbol(CodeSymbol(Pipeline, ds[j]).value) {
      LaneIsOctDigit(k, n - 1 - j);
      assert IsCode(Lane(k, n - 1 - j));
    }
    EncodeDecode(Pipeline, k);
  }

  /** None of the weight tables raises KeyError on a label key. */
  lemma {:induction false} LabelKeyWeighs(t: Table, k: nat, n: nat, m: nat)
    requires LabelKey(k, n) && m <= n
    ensures SumLanes(t, k, m).Ok?
    decreases m
  {
    if m > 0 {
      LabelKeyWeighs(t, k, n, m - 1);
      assert IsCode(Lane(k, m - 1));
    }
  }

  /** The weight of a label key, which exists. */
  function KeyWeightOf(t: Table, k: nat, n: nat): nat
    requires LabelKey(k, n)
  {
    LabelKeyWeighs(t, k, n, n);
    KeyWeight(t, k).value
  }

  /** `x` and `y` agree on every lane below `n` except `lane`. */
  ghost predicate AgreeOutside(x: nat, y: nat, lane: nat, n: nat)
  {
    forall i: nat :: i < n && i != lane ==> Lane(x, i) == Lane(y, i)
  }

  /**
   * A valid merge of two label keys of width `n` is a label key of width `n` that
   * differs from both only at the changed lane, where it holds `z`, `o` or `x`.
   */
  lemma MergeIsLabelKey(guarded: bool, x: nat, y: nat, n: nat)
    requires LabelKey(x, n) && LabelKey(y, n) && AdjacencyOf(guarded, x, y).isValid
    ensures var r := Or(x, y); var lane := Width(Xor(x, y)) - 1;
      0 <= lane < n && LabelKey(r, n) && OnlyLaneDiffers(x, y, lane) &&
      AgreeOutside(r, x, lane, n) && AgreeOutside(r, y, lane, n) &&
      (Lane(r, lane) == 3 || Lane(r, lane) == 6 || Lane(r, lane) == 7) &&
      AdjacencyOf(guarded, x, y).changePos == -(lane + 1) && AdjacencyOf(guarded, x, y).octVal == Some(r)
  {
    var i := AdjacencyNeedsOneLane(guarded, x, y);
    AdjacencyOneLane(guarded, x, y, i);
    var r := Or(x, y);
    if i >= n {
      LaneAboveSpan(x, i);
      LaneAboveSpan(y, i);
    }
    forall j: nat ensures Lane(r, j) == if j == i then DigitOp(OrOp, Lane(x, i), Lane(y, i)) else Lane(x, j) {
      MergedLanes(x, y, i, j);
    }
    var dx, dy := Lane(x, i), Lane(y, i);
    assert IsCode(dx) && IsCode(dy) && dx != dy;
    assert Lane(r, i) != 5;
    assert Lane(r, i) == 3 || Lane(r, i) == 6 || Lane(r, i) == 7 by {
      CodeOr(dx, dy);
    }
    SpanOfOr(x, y);
    var xor := Xor(x, y);
    forall j: nat ensures Lane(xor, j) != 0 <==> j == i {
      XorLane(x, y, j);
    }
    SpanFromLanes(xor, i + 1);
    if xor == 0 {
      LaneOfZero(i);
    }
  }

  /** The `|` of two different codes is 5 (a `0` and a `2`), or `z`, `o` or `x`. */
  lemma CodeOr(dx: nat, dy: nat)
    requires IsCode(dx) && IsCode(dy) && dx != dy
    ensures var o := DigitOp(OrOp, dx, dy); o == 5 || o == 3 || o == 6 || o == 7
  {
  }

  // ---------------------------------------------------------------- oct(k) as a string

  /** The character Python writes for an octal digit. */
  function DigitChar(d: nat): char
    requires d < 8
  {
    ('0' as int + d) as char
  }

  /** `oct(k)`: `0o` followed by the octal digits. */
  function OctString(k: nat): string
  {
    FromToBase(k, 8);
    "0o" + seq(Width(k), j requires 0 <= j < Width(k) => DigitChar(OctDigits(k)[j]))
  }

  /** `oct(k)[neg]` for a negative index: an IndexError past the front of the string. */
  function OctCharAt(k: nat, neg: int): Result<char>
    requires neg < 0
  {
    var s := OctString(k);
    if -neg <= |s| then Ok(s[|s| + neg]) else Err(IndexError)
  }

  /** Reading `oct(k)` at index `-w`, for `w` up to the width of `k`, reads lane `w - 1`. */
  lemma OctCharLane(k: nat, w: nat)
    requires 1 <= w <= Width(k)
    ensures OctCharAt(k, -(w as int)) == Ok(DigitChar(Lane(k, w - 1)))
  {
    FromToBase(k, 8);
    LaneIsOctDigit(k, w - 1);
  }

  /** Lane `i` of the number an octal digit string denotes. */
  lemma {:induction false} LaneOfFromBase(ds: seq<nat>, i: nat)
    requires DigitsBelow(ds, 8)
    ensures Lane(FromBase(ds, 8), i) == if i < |ds| then ds[|ds| - 1 - i] else 0
    decreases |ds|
  {
    if |ds| == 0 {
      LaneOfZero(i);
    } else {
      var init := ds[..|ds| - 1];
      DivModOfHorner(FromBase(init, 8), ds[|ds| - 1], 8);
      if i > 0 {
        LaneOfFromBase(init, i - 1);
      }
    }
  }

  /**
   * The mask the pair loops build before an `x` merge: `int` of `'0o' + '7' * width`
   * with the character at the changed position turned into `0`.
   */
  function OctMask(r: nat, w: nat): nat
    requires 1 <= w <= Width(r)
  {
    FromBase(seq(Width(r), j requires 0 <= j < Width(r) => if j == Width(r) - w then 0 else 7), 8)
  }

  /** Seven in every lane of `r` except the changed lane `w - 1`, zero above. */
  lemma LaneOfOctMask(r: nat, w: nat, i: nat)
    requires 1 <= w <= Width(r)
    ensures Lane(OctMask(r, w), i) == if i < Width(r) && i != w - 1 then 7 else 0
  {
    var ds := seq(Width(r), j requires 0 <= j < Width(r) => if j == Width(r) - w then 0 else 7);
    LaneOfFromBase(ds, i);
  }

  /**
   * `octmask & k == octmask & r` says exactly that `k` agrees with `r` on every lane of
   * `r` except the changed one; lanes of `k` above the width of `r` are not looked at.
   */
  lemma OctMaskSimilar(k: nat, r: nat, w: nat)
    requires 1 <= w <= Width(r)
    ensures And(OctMask(r, w), k) == And(OctMask(r, w), r) <==> AgreeOutside(k, r, w - 1, Width(r))
  {
    var mask := OctMask(r, w);
    forall i: nat
      ensures Lane(And(mask, k), i) == (if i < Width(r) && i != w - 1 then Lane(k, i) else 0)
      ensures Lane(And(mask, r), i) == (if i < Width(r) && i != w - 1 then Lane(r, i) else 0)
    {
      LaneOfOctMask(r, w, i);
      LaneOfBitwise(AndOp, mask, k, i);
      LaneOfBitwise(AndOp, mask, r, i);
      AndWithMask(Lane(k, i));
      AndWithMask(Lane(r, i));
    }
    if And(mask, k) == And(mask, r) {
      forall i: nat | i < Width(r) && i != w - 1 ensures Lane(k, i) == Lane(r, i) {
      }
    }
    if AgreeOutside(k, r, w - 1, Width(r)) {
      forall i: nat ensures Lane(And(mask, k), i) == Lane(And(mask, r), i) {
      }
      LaneExtensionality(And(mask, k), And(mask, r));
    }
  }

  lemma AndWithMask(x: nat)
    requires x < 8
    ensures DigitOp(AndOp, 7, x) == x && DigitOp(AndOp, 0, x) == 0
  {
    var u := x as bv3;
    assert 7 & u == u && 0 & u == 0;
  }
}
