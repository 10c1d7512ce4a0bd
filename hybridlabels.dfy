/**
 * The label functions of hybrid-minterms.py, which works on labels as strings rather
 * than on octal keys: the id of a label (`get_id`, base 6), its weight (`get_label_weight`,
 * the number of aggregate steps it holds), its adjacency value (`get_adjval`), the
 * table-driven `check_adjacent`, and the pattern `get_similar_marks` searches for.
 */
module HybridLabels {
  import opened Wrappers
  import opened Numerals
  import opened Codec

  // ---------------------------------------------------------------- get_id

  /** The base-6 digit of a character once `o`, `z`, `x` are replaced by 4, 3, 5, if it is one. */
  function IdDigit(c: char): (d: Option<nat>)
    ensures d.Some? ==> d.value < 6
    ensures IsSymbol(c) ==> d.Some?
  {
    match c
    case '0' => Some(0)
    case '1' => Some(1)
    case '2' => Some(2)
    case '3' => Some(3)
    case '4' => Some(4)
    case '5' => Some(5)
    case 'z' => Some(3)
    case 'o' => Some(4)
    case 'x' => Some(5)
    case _ => None
  }

  /** Every character of `s` is a base-6 digit once replaced. */
  predicate IdDigits(s: string)
  {
    forall i :: 0 <= i < |s| ==> IdDigit(s[i]).Some?
  }

  /** The digits of `s` in base 6. */
  function IdDigitsOf(s: string): (ds: seq<nat>)
    requires IdDigits(s)
    ensures |ds| == |s| && DigitsBelow(ds, 6)
  {
    seq(|s|, i requires 0 <= i < |s| => IdDigit(s[i]).value)
  }

  /**
   * `get_id(label)`: `int(labelr, 6)` of the label with `o`, `z`, `x` replaced by 4, 3, 5;
   * a ValueError for the empty string or a character that is no base-6 digit.
   */
  function Id(s: string): (r: Result<nat>)
    ensures r.Err? ==> r.fault == ValueError
    ensures IsLabel(s) ==> r.Ok? && r.value < Pow(6, |s|)
  {
    if |s| == 0 || !IdDigits(s) then Err(ValueError)
    else
      FromBaseBound(IdDigitsOf(s), 6);
      Ok(FromBase(IdDigitsOf(s), 6))
  }

  /** Labels of the same width with the same id are the same label: `get_id` names labels apart. */
  lemma IdInjective(a: string, b: string)
    requires IsLabel(a) && IsLabel(b) && |a| == |b| && Id(a) == Id(b)
    ensures a == b
  {
    var da, db := IdDigitsOf(a), IdDigitsOf(b);
    FromBaseInjective(da, db, 6);
    forall i | 0 <= i < |a| ensures a[i] == b[i] {
      assert IdDigit(a[i]).value == da[i] == db[i] == IdDigit(b[i]).value;
    }
  }

  // ---------------------------------------------------------------- get_label_weight

  /** The weight table of `get_label_weight`: `z` and `o` weigh 1, `-` and `x` weigh 2. */
  function SymbolWeight(c: char): Option<nat>
  {
    match c
    case '0' => Some(0)
    case '1' => Some(0)
    case '2' => Some(0)
    case 'z' => Some(1)
    case 'o' => Some(1)
    case '-' => Some(2)
    case 'x' => Some(2)
    case _ => None
  }

  /** `get_label_weight(label)`: the sum of the symbols' weights; a KeyError for a symbol outside the table. */
  function LabelWeight(s: string): (r: Result<nat>)
    ensures r.Err? <==> exists i :: 0 <= i < |s| && SymbolWeight(s[i]).None?
    ensures r.Err? ==> r.fault == KeyError
    ensures r.Ok? ==> r.value <= 2 * |s| && (r.value == 0 <==> forall i :: 0 <= i < |s| ==> IsVariable(s[i]))
    decreases |s|
  {
    if |s| == 0 then Ok(0)
    else
      var init := s[..|s| - 1];
      assert forall i :: 0 <= i < |init| ==> init[i] == s[i];
      match LabelWeight(init)
      case Err(f) =>
        Err(f)
      case Ok(w) =>
        match SymbolWeight(s[|s| - 1])
        case None => Err(KeyError)
        case Some(c) => Ok(w + c)
  }

  /** Changing one symbol changes the weight by the difference of the two symbols' weights. */
  lemma {:induction false} WeightUpdate(s: string, i: nat, c: char)
    requires i < |s| && LabelWeight(s).Ok? && SymbolWeight(c).Some?
    ensures LabelWeight(s[i := c]).Ok?
    ensures LabelWeight(s[i := c]).value + SymbolWeight(s[i]).value == LabelWeight(s).value + SymbolWeight(c).value
    decreases |s|
  {
    var t := s[i := c];
    var n := |s| - 1;
    if i < n {
      assert t[..n] == s[..n][i := c] && t[n] == s[n];
      WeightUpdate(s[..n], i, c);
    } else {
      assert t[..n] == s[..n] && t[n] == c;
    }
  }

  // ---------------------------------------------------------------- get_adjval

  /** The value `int(x)` reads for one character once `o`, `z`, `x` are replaced by 4, 3, 5. */
  function AdjDigit(c: char): Option<nat>
  {
    if '0' <= c <= '9' then Some(c as int - '0' as int)
    else if c == 'z' then Some(3)
    else if c == 'o' then Some(4)
    else if c == 'x' then Some(5)
    else None
  }

  /** `get_adjval(label)`: the sum of the replaced characters read as digits; a ValueError for any other character. */
  function AdjVal(s: string): (r: Result<nat>)
    ensures r.Err? ==> r.fault == ValueError
    ensures r.Ok? <==> forall i :: 0 <= i < |s| ==> AdjDigit(s[i]).Some?
    decreases |s|
  {
    if |s| == 0 then Ok(0)
    else
      var init := s[..|s| - 1];
      assert forall i :: 0 <= i < |init| ==> init[i] == s[i];
      match AdjVal(init)
      case Err(f) => Err(f)
      case Ok(a) =>
        match AdjDigit(s[|s| - 1])
        case None => Err(ValueError)
        case Some(d) => Ok(a + d)
  }

  /** A label has an adjacency value and a weight. */
  lemma LabelMeasures(s: string)
    requires IsLabel(s)
    ensures AdjVal(s).Ok? && LabelWeight(s).Ok?
  {
    assert forall i :: 0 <= i < |s| ==> AdjDigit(s[i]).Some? && SymbolWeight(s[i]).Some?;
  }

  // ---------------------------------------------------------------- check_adjacent

  /**
   * The `pairs` table of `check_adjacent`: the symbol two differing symbols merge into,
   * and which operand (0 or 1) the merge absorbs. Paired symbols differ, weigh the same,
   * and outside an `x` merge the absorbed operand is the one holding `1`.
   */
  function PairEntry(a: char, b: char): (r: Option<(char, nat)>)
    ensures r.Some? ==> a != b && IsSymbol(a) && IsSymbol(b) && IsSymbol(r.value.0) && r.value.1 < 2
    ensures r.Some? ==> SymbolWeight(a) == SymbolWeight(b) && SymbolWeight(r.value.0).value == SymbolWeight(a).value + 1
    ensures r.Some? && r.value.0 != 'x' ==> (if r.value.1 == 0 then a else b) == '1'
  {
    match (a, b)
    case ('1', '2') => Some(('o', 0))
    case ('2', '1') => Some(('o', 1))
    case ('0', '1') => Some(('z', 1))
    case ('1', '0') => Some(('z', 0))
    case ('o', 'z') => Some(('x', 0))
    case ('z', 'o') => Some(('x', 0))
    case _ => None
  }

  /** What `check_adjacent` returns: `(-1, None, -1)`, or the position, merged symbol and absorbed operand. */
  datatype Check =
    | NotAdjacent
    | Adjacent(pos: nat, sym: char, side: nat)

  /**
   * The `for i in range(len(labelx))` loop from position `i` on, with `seen` telling
   * whether a table pair was met (`adjcount == 1`) and `ret` the value last assigned:
   * a second table pair or any other difference breaks with `(-1, None, -1)`; reading
   * past `labely` is an IndexError, and a loop that never assigns `ret` leaves it
   * unbound.
   */
  function ScanFrom(lx: string, ly: string, i: nat, seen: bool, ret: Option<Check>): Result<Check>
    decreases |lx| - i
  {
    if i >= |lx| then (if ret.Some? then Ok(ret.value) else Err(UnboundLocalError))
    else if i >= |ly| then Err(IndexError)
    else match PairEntry(lx[i], ly[i])
      case Some(e) => if seen then Ok(NotAdjacent) else ScanFrom(lx, ly, i + 1, true, Some(Adjacent(i, e.0, e.1)))
      case None => if lx[i] != ly[i] then Ok(NotAdjacent) else ScanFrom(lx, ly, i + 1, seen, ret)
  }

  /** A position inside `lx` and an operand index that `[idx, idy]` accepts. */
  predicate InRange(lx: string, c: Check)
  {
    c.Adjacent? ==> c.pos < |lx| && c.side < 2
  }

  /** The scan only ever returns positions it visited and sides from the table. */
  lemma {:induction false} ScanInRange(lx: string, ly: string, i: nat, seen: bool, ret: Option<Check>)
    requires ret.Some? ==> InRange(lx, ret.value)
    ensures ScanFrom(lx, ly, i, seen, ret).Ok? ==> InRange(lx, ScanFrom(lx, ly, i, seen, ret).value)
    decreases |lx| - i
  {
    if i < |lx| && i < |ly| {
      match PairEntry(lx[i], ly[i])
      case Some(e) =>
        if !seen {
          ScanInRange(lx, ly, i + 1, true, Some(Adjacent(i, e.0, e.1)));
        }
      case None =>
        if lx[i] == ly[i] {
          ScanInRange(lx, ly, i + 1, seen, ret);
        }
    }
  }

  /** `check_adjacent(labelx, labely)` */
  function AdjacentOf(lx: string, ly: string): (r: Result<Check>)
    ensures r.Ok? ==> InRange(lx, r.value)
  {
    ScanInRange(lx, ly, 0, false, None);
    ScanFrom(lx, ly, 0, false, None)
  }

  /** The labels differ at position `i` and nowhere else. */
  predicate OnlyDiffersAt(lx: string, ly: string, i: nat)
  {
    |lx| == |ly| && i < |lx| && forall j :: 0 <= j < |lx| && j != i ==> lx[j] == ly[j]
  }

  /** The loop of `check_adjacent`. */
  method CheckAdjacent(lx: string, ly: string) returns (r: Result<Check>)
    ensures r == AdjacentOf(lx, ly)
  {
    var seen := false;
    var ret: Option<Check> := None;
    var i := 0;
    while i < |lx|
      invariant i <= |lx| && ScanFrom(lx, ly, i, seen, ret) == AdjacentOf(lx, ly)
      decreases |lx| - i
    {
      if i >= |ly| {
        return Err(IndexError);
      }
      var e := PairEntry(lx[i], ly[i]);
      if e.Some? {
        if seen {
          return Ok(NotAdjacent);
        }
        ret := Some(Adjacent(i, e.value.0, e.value.1));
        seen := true;
      } else if lx[i] != ly[i] {
        return Ok(NotAdjacent);
      }
      i := i + 1;
    }
    if ret.None? {
      return Err(UnboundLocalError);
    }
    return Ok(ret.value);
  }

  /** From position `i` with no table pair met yet, over labels of one width. */
  lemma {:induction false} ScanNoPair(lx: string, ly: string, i: nat)
    requires |lx| == |ly| && i <= |lx|
    ensures ScanFrom(lx, ly, i, false, None) == Err(UnboundLocalError) <==> lx[i..] == ly[i..]
    ensures ScanFrom(lx, ly, i, false, None).Err? ==> ScanFrom(lx, ly, i, false, None) == Err(UnboundLocalError)
    ensures forall k: nat, r: char, p: nat :: ScanFrom(lx, ly, i, false, None) == Ok(Adjacent(k, r, p)) <==>
      i <= k < |lx| && PairEntry(lx[k], ly[k]) == Some((r, p)) && forall j :: i <= j < |lx| && j != k ==> lx[j] == ly[j]
    decreases |lx| - i
  {
    if i < |lx| {
      var e := PairEntry(lx[i], ly[i]);
      if e.Some? {
        ScanOnePair(lx, ly, i + 1, Adjacent(i, e.value.0, e.value.1));
        assert lx[i..] != ly[i..] by { assert lx[i..][0] != ly[i..][0]; }
        assert lx[i + 1..] == ly[i + 1..] <==> forall j :: i + 1 <= j < |lx| ==> lx[j] == ly[j] by {
          if forall j :: i + 1 <= j < |lx| ==> lx[j] == ly[j] {
            var a, b := lx[i + 1..], ly[i + 1..];
            forall j | 0 <= j < |a| ensures a[j] == b[j] {
              assert a[j] == lx[i + 1 + j] && b[j] == ly[i + 1 + j];
            }
          }
          if lx[i + 1..] == ly[i + 1..] {
            forall j | i + 1 <= j < |lx| ensures lx[j] == ly[j] {
              assert lx[i + 1..][j - i - 1] == ly[i + 1..][j - i - 1];
            }
          }
        }
      } else if lx[i] != ly[i] {
        assert lx[i..][0] != ly[i..][0];
      } else {
        ScanNoPair(lx, ly, i + 1);
        assert lx[i..] == [lx[i]] + lx[i + 1..] && ly[i..] == [ly[i]] + ly[i + 1..];
      }
    }
  }

  /** From position `i` after a table pair at `c.pos`: the pair stands when the rest agrees. */
  lemma {:induction false} ScanOnePair(lx: string, ly: string, i: nat, c: Check)
    requires |lx| == |ly| && i <= |lx| && c.Adjacent?
    ensures ScanFrom(lx, ly, i, true, Some(c)) == if lx[i..] == ly[i..] then Ok(c) else Ok(NotAdjacent)
    decreases |lx| - i
  {
    if i < |lx| {
      if PairEntry(lx[i], ly[i]).Some? || lx[i] != ly[i] {
        assert lx[i..][0] != ly[i..][0];
      } else {
        ScanOnePair(lx, ly, i + 1, c);
        assert lx[i..] == [lx[i]] + lx[i + 1..] && ly[i..] == [ly[i]] + ly[i + 1..];
      }
    }
  }

  /**
   * `check_adjacent` over labels of one width: identical labels leave `ret` unbound; it
   * returns a position exactly when the labels differ there and nowhere else and the two
   * symbols form a table pair; any other two labels give `(-1, None, -1)`.
   */
  lemma AdjacentMeaning(lx: string, ly: string)
    requires |lx| == |ly|
    ensures AdjacentOf(lx, ly) == Err(UnboundLocalError) <==> lx == ly
    ensures AdjacentOf(lx, ly).Ok? <==> lx != ly
    ensures forall k: nat, r: char, p: nat :: AdjacentOf(lx, ly) == Ok(Adjacent(k, r, p)) <==>
      OnlyDiffersAt(lx, ly, k) && PairEntry(lx[k], ly[k]) == Some((r, p))
  {
    ScanNoPair(lx, ly, 0);
    assert lx[0..] == lx && ly[0..] == ly;
  }

  /** Two different labels of one width never leave `ret` unbound. */
  lemma AdjacentOk(lx: string, ly: string)
    requires |lx| == |ly| && lx != ly
    ensures AdjacentOf(lx, ly).Ok?
  {
    AdjacentMeaning(lx, ly);
  }

  /** `labelx[:i] + r + labelx[i+1:]`: the label a merge at position `i` produces. */
  function Merged(lx: string, i: nat, r: char): (m: string)
    requires i < |lx|
    ensures m == lx[i := r]
  {
    lx[..i] + [r] + lx[i + 1..]
  }

  /**
   * A merge of two labels of width `n` yields a label of width `n` whose weight is one
   * more than either operand's: every pair a step merges yields a result of the next
   * step's weight.
   */
  lemma MergedWeight(lx: string, ly: string, k: nat, r: char, p: nat)
    requires IsLabel(lx) && IsLabel(ly) && |lx| == |ly| && AdjacentOf(lx, ly) == Ok(Adjacent(k, r, p))
    ensures k < |lx| && IsLabel(Merged(lx, k, r)) && |Merged(lx, k, r)| == |lx|
    ensures LabelWeight(Merged(lx, k, r)).Ok? && LabelWeight(lx).Ok? && LabelWeight(ly).Ok?
    ensures LabelWeight(Merged(lx, k, r)).value == LabelWeight(lx).value + 1 == LabelWeight(ly).value + 1
  {
    AdjacentMeaning(lx, ly);
    LabelMeasures(lx);
    LabelMeasures(ly);
    WeightUpdate(lx, k, r);
    WeightUpdate(lx, k, ly[k]);
    assert lx[k := ly[k]] == ly;
  }

  // ---------------------------------------------------------------- get_similar_marks

  /** `re.IGNORECASE` on ASCII letters. */
  function Fold(c: char): char
  {
    if 'A' <= c <= 'Z' then (c as int + 32) as char else c
  }

  /** The class `[012oz]`, read case-insensitively. */
  predicate InClass(c: char)
  {
    var f := Fold(c);
    f == '0' || f == '1' || f == '2' || f == 'o' || f == 'z'
  }

  /** One element of the pattern: a literal character, or the class `[012oz]` (None). */
  function PatternOf(p: nat, lbl: string): (pat: seq<Option<char>>)
    ensures p < |lbl| ==> |pat| == |lbl| && pat[p].None? && forall j :: 0 <= j < |lbl| && j != p ==> pat[j] == Some(lbl[j])
  {
    var head := if p <= |lbl| then lbl[..p] else lbl;
    var tail := if p + 1 <= |lbl| then lbl[p + 1..] else "";
    seq(|head|, j requires 0 <= j < |head| => Some(head[j])) + [None] + seq(|tail|, j requires 0 <= j < |tail| => Some(tail[j]))
  }

  /** The pattern matches `t` at offset `o`. */
  predicate MatchesAt(pat: seq<Option<char>>, t: string, o: nat)
  {
    o + |pat| <= |t| &&
    forall j :: 0 <= j < |pat| ==> if pat[j].None? then InClass(t[o + j]) else Fold(t[o + j]) == Fold(pat[j].value)
  }

  /** `re.search`: the pattern matches `t` at some offset from `o` on. */
  function SearchFrom(pat: seq<Option<char>>, t: string, o: nat): (b: bool)
    ensures b <==> exists q :: o <= q && MatchesAt(pat, t, q)
    decreases |t| - o
  {
    if o + |pat| > |t| then false
    else MatchesAt(pat, t, o) || SearchFrom(pat, t, o + 1)
  }

  /**
   * `re.search(label[:position] + "[012oz]" + label[position+1:], tlab, re.IGNORECASE)`,
   * with the label's characters read literally.
   */
  predicate Similar(p: nat, lbl: string, t: string)
  {
    SearchFrom(PatternOf(p, lbl), t, 0)
  }

  /** Folding leaves the symbols of labels alone. */
  lemma FoldSymbol(c: char)
    requires IsSymbol(c)
    ensures Fold(c) == c
  {
  }

  /**
   * Over labels of one width, a label is similar to `lbl` at position `p` exactly when it
   * agrees with `lbl` everywhere else and holds one of `0 1 2 o z` at `p`.
   */
  lemma SimilarMeaning(p: nat, lbl: string, t: string)
    requires IsLabel(lbl) && IsLabel(t) && |t| == |lbl| && p < |lbl|
    ensures Similar(p, lbl, t) <==>
      (forall j :: 0 <= j < |lbl| && j != p ==> t[j] == lbl[j]) && (t[p] == '0' || t[p] == '1' || t[p] == '2' || t[p] == 'o' || t[p] == 'z')
  {
    var pat := PatternOf(p, lbl);
    if Similar(p, lbl, t) {
      var q :| 0 <= q && MatchesAt(pat, t, q);
      assert q == 0;
      forall j | 0 <= j < |lbl| && j != p ensures t[j] == lbl[j] {
        FoldSymbol(t[j]);
        FoldSymbol(lbl[j]);
      }
      FoldSymbol(t[p]);
    } else {
      forall j | 0 <= j < |lbl| && j != p ensures Fold(t[j]) == Fold(lbl[j]) ==> t[j] == lbl[j] {
        FoldSymbol(t[j]);
        FoldSymbol(lbl[j]);
      }
      FoldSymbol(t[p]);
      assert !MatchesAt(pat, t, 0);
    }
  }
}
