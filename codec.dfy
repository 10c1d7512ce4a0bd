/**
 * The label codec: a label is a string over the six symbols `0 1 2 z o x`; its key is
 * the integer whose octal digits are the symbols' lane codes, first symbol most
 * significant (`label_to_octal` / `octal_to_label`, minish_hat.py:28-54, repeated in
 * every pipeline script). helper/octal_adj.py:15-45 uses a second table in which `x`
 * is the zero digit and `-`, `i` are extra symbols.
 */
module Codec {
  import opened Wrappers
  import opened Numerals
  import opened Octal

  /** Which translation table is in use. */
  datatype Codebook =
    | Pipeline      // 0->1 1->2 2->4 z->3 o->6 x->7
    | Experimental  // as Pipeline, but x->0, and also -->7, i->5

  /** The octal digit `label_to_octal` writes for a symbol, if the table has one. */
  function SymbolCode(book: Codebook, c: char): Option<nat>
  {
    match c
    case '0' => Some(1)
    case '1' => Some(2)
    case '2' => Some(4)
    case 'z' => Some(3)
    case 'o' => Some(6)
    case 'x' => if book == Pipeline then Some(7) else Some(0)
    case '-' => if book == Experimental then Some(7) else None
    case 'i' => if book == Experimental then Some(5) else None
    case _ => None
  }

  /** The symbol `octal_to_label` writes for an octal digit, if the table has one. */
  function CodeSymbol(book: Codebook, d: nat): Option<char>
  {
    match d
    case 1 => Some('0')
    case 2 => Some('1')
    case 4 => Some('2')
    case 3 => Some('z')
    case 6 => Some('o')
    case 7 => if book == Pipeline then Some('x') else Some('-')
    case 5 => if book == Experimental then Some('i') else None
    case 0 => if book == Experimental then Some('x') else None
    case _ => None
  }

  /** One of the six symbols of a label. */
  predicate IsSymbol(c: char)
  {
    c == '0' || c == '1' || c == '2' || c == 'z' || c == 'o' || c == 'x'
  }

  /** A symbol that fixes a variable: `0` (false), `1` (undefined), `2` (true). */
  predicate IsVariable(c: char)
  {
    c == '0' || c == '1' || c == '2'
  }

  /** A label of the pipelines: non-empty, over `0 1 2 z o x`. */
  predicate IsLabel(lbl: string)
  {
    |lbl| > 0 && forall i :: 0 <= i < |lbl| ==> IsSymbol(lbl[i])
  }

  /** A label of variables only (a valuation, a minterm): over `0 1 2`. */
  predicate IsConcrete(lbl: string)
  {
    forall i :: 0 <= i < |lbl| ==> IsVariable(lbl[i])
  }

  /** Every symbol of `label` has a code in `book`. */
  predicate Encodable(book: Codebook, lbl: string)
  {
    forall i :: 0 <= i < |lbl| ==> SymbolCode(book, lbl[i]).Some?
  }

  /** The octal digit string `label_to_octal` builds, one digit per symbol. */
  function Codes(book: Codebook, lbl: string): (ds: seq<nat>)
    requires Encodable(book, lbl)
    ensures |ds| == |lbl| && DigitsBelow(ds, 8)
  {
    seq(|lbl|, i requires 0 <= i < |lbl| => SymbolCode(book, lbl[i]).value)
  }

  /** `label_to_octal(label)`: a KeyError for an unknown symbol, a ValueError for the empty label. */
  function Encode(book: Codebook, lbl: string): Result<nat>
  {
    if !Encodable(book, lbl) then Err(KeyError)
    else if |lbl| == 0 then Err(ValueError)
    else Ok(FromBase(Codes(book, lbl), 8))
  }

  /** Every octal digit of `k` has a symbol in `book`. */
  predicate Decodable(book: Codebook, k: nat)
  {
    forall j :: 0 <= j < |OctDigits(k)| ==> CodeSymbol(book, OctDigits(k)[j]).Some?
  }

  /** `octal_to_label(k)`: a KeyError for an octal digit outside the table. */
  function Decode(book: Codebook, k: nat): Result<string>
  {
    if !Decodable(book, k) then Err(KeyError)
    else Ok(seq(|OctDigits(k)|, j requires 0 <= j < |OctDigits(k)| => CodeSymbol(book, OctDigits(k)[j]).value))
  }

  /** `label_to_octal`: the loop appends one octal digit per symbol, then reads the string in base 8. */
  method LabelToOctal(book: Codebook, lbl: string) returns (r: Result<nat>)
    ensures r == Encode(book, lbl)
  {
    var octalstr: seq<nat> := [];
    for i := 0 to |lbl|
      invariant Encodable(book, lbl[..i]) && octalstr == Codes(book, lbl[..i])
    {
      var code := SymbolCode(book, lbl[i]);
      if code.None? {
        return Err(KeyError);
      }
      octalstr := octalstr + [code.value];
    }
    assert lbl[..|lbl|] == lbl;
    if |octalstr| == 0 {
      return Err(ValueError);
    }
    return Ok(FromBase(octalstr, 8));
  }

  /** `octal_to_label`: the loop appends one symbol per digit of `oct(k)`. */
  method OctalToLabel(book: Codebook, k: nat) returns (r: Result<string>)
    ensures r == Decode(book, k)
  {
    var digits := OctDigits(k);
    var lbl := "";
    for j := 0 to |digits|
      invariant |lbl| == j
      invariant forall i :: 0 <= i < j ==> CodeSymbol(book, digits[i]) == Some(lbl[i])
    {
      var sym := CodeSymbol(book, digits[j]);
      if sym.None? {
        return Err(KeyError);
      }
      lbl := lbl + [sym.value];
    }
    assert Decodable(book, k);
    assert lbl == Decode(book, k).value;
    return Ok(lbl);
  }

  // ---------------------------------------------------------------- lemmas

  /** The two directions of a table undo each other, symbol by symbol. */
  lemma CodeInverse(book: Codebook, c: char, d: nat)
    ensures SymbolCode(book, c) == Some(d) <==> CodeSymbol(book, d) == Some(c)
  {
    if SymbolCode(book, c) == Some(d) {
      match c
      case '0' =>
      case '1' =>
      case '2' =>
      case 'z' =>
      case 'o' =>
      case 'x' =>
      case '-' =>
      case 'i' =>
      case _ =>
    }
    if CodeSymbol(book, d) == Some(c) {
      if d == 0 {
      } else if d == 1 {
      } else if d == 2 {
      } else if d == 3 {
      } else if d == 4 {
      } else if d == 5 {
      } else if d == 6 {
      } else if d == 7 {
        assert book == Pipeline ==> c == 'x';
        assert book == Experimental ==> c == '-';
      }
    }
  }

  /** Decoding the digit string of a label's codes gives the label. */
  lemma DecodeCodes(book: Codebook, lbl: string, k: nat)
    requires Encodable(book, lbl) && OctDigits(k) == Codes(book, lbl)
    ensures Decode(book, k) == Ok(lbl)
  {
    var ds := Codes(book, lbl);
    forall j | 0 <= j < |ds| ensures CodeSymbol(book, ds[j]) == Some(lbl[j]) {
      CodeInverse(book, lbl[j], ds[j]);
    }
    assert Decodable(book, k);
    var out := Decode(book, k).value;
    assert |out| == |lbl|;
    forall j | 0 <= j < |lbl| ensures out[j] == lbl[j] {
      assert out[j] == CodeSymbol(book, ds[j]).value;
    }
    assert out == lbl;
  }

  /** The pipelines' codec accepts exactly the labels over the six symbols. */
  lemma EncodeAccepts(lbl: string)
    ensures Encode(Pipeline, lbl).Ok? <==> IsLabel(lbl)
  {
    if !IsLabel(lbl) && |lbl| > 0 {
      var i :| 0 <= i < |lbl| && !IsSymbol(lbl[i]);
      assert SymbolCode(Pipeline, lbl[i]).None?;
    }
  }

  /** Decoding the key of a label gives the label back (octal_to_label inverts label_to_octal). */
  lemma DecodeEncode(lbl: string)
    requires IsLabel(lbl)
    ensures Encode(Pipeline, lbl).Ok?
    ensures Decode(Pipeline, Encode(Pipeline, lbl).value) == Ok(lbl)
  {
    var ds := Codes(Pipeline, lbl);
    assert ds[0] != 0;
    ToFromBase(ds, 8);
    DecodeCodes(Pipeline, lbl, FromBase(ds, 8));
  }

  /** Encoding a decoded key gives the key back, for either table. */
  lemma EncodeDecode(book: Codebook, k: nat)
    requires Decode(book, k).Ok?
    ensures Encode(book, Decode(book, k).value) == Ok(k)
  {
    var lbl := Decode(book, k).value;
    var ds := OctDigits(k);
    FromToBase(k, 8);
    forall j | 0 <= j < |lbl| ensures SymbolCode(book, lbl[j]) == Some(ds[j]) {
      CodeInverse(book, lbl[j], ds[j]);
    }
    assert Codes(book, lbl) == ds;
  }

  /** Different labels have different keys. */
  lemma EncodeInjective(a: string, b: string)
    requires IsLabel(a) && IsLabel(b) && Encode(Pipeline, a) == Encode(Pipeline, b)
    ensures a == b
  {
    DecodeEncode(a);
    DecodeEncode(b);
  }

  /** Under the experimental table a label that does not start with `x` survives the round trip. */
  lemma ExperimentalRoundTrip(lbl: string)
    requires |lbl| > 0 && lbl[0] != 'x' && Encodable(Experimental, lbl)
    ensures Encode(Experimental, lbl).Ok?
    ensures Decode(Experimental, Encode(Experimental, lbl).value) == Ok(lbl)
  {
    var ds := Codes(Experimental, lbl);
    assert ds[0] != 0 by {
      CodeInverse(Experimental, lbl[0], 0);
    }
    ToFromBase(ds, 8);
    DecodeCodes(Experimental, lbl, FromBase(ds, 8));
  }

  /** Under the experimental table a leading `x` is the digit zero and is lost. */
  lemma ExperimentalLeadingXLost(lbl: string)
    requires |lbl| > 0 && Encodable(Experimental, lbl)
    ensures Encode(Experimental, "x" + lbl) == Encode(Experimental, lbl)
  {
    var xl := "x" + lbl;
    assert Encodable(Experimental, xl) by {
      forall i | 0 <= i < |xl| ensures SymbolCode(Experimental, xl[i]).Some? {
        if i > 0 {
          assert xl[i] == lbl[i - 1];
        }
      }
    }
    assert Codes(Experimental, xl) == [0] + Codes(Experimental, lbl);
    FromBaseLeadingZero(Codes(Experimental, lbl), 8);
  }

  /** So two different labels share a key: `x0` and `0` are both key 1. */
  lemma ExperimentalCollision()
    ensures Encode(Experimental, "x0") == Encode(Experimental, "0") == Ok(1)
  {
    ExperimentalLeadingXLost("0");
    assert Codes(Experimental, "0") == [1];
  }

  /** The lanes of the key of a label are the codes of its symbols, the last symbol in lane 0. */
  lemma LanesOfLabel(lbl: string)
    requires IsLabel(lbl)
    ensures Encode(Pipeline, lbl).Ok?
    ensures Span(Encode(Pipeline, lbl).value) == |lbl|
    ensures forall i: nat :: i < |lbl| ==> Lane(Encode(Pipeline, lbl).value, i) == Codes(Pipeline, lbl)[|lbl| - 1 - i]
  {
    var ds := Codes(Pipeline, lbl);
    assert ds[0] != 0;
    ToFromBase(ds, 8);
    FromBasePositive(ds, 8);
    var k := FromBase(ds, 8);
    assert OctDigits(k) == ds;
    assert Span(k) == |lbl|;
    forall i: nat | i < |lbl|
      ensures Lane(k, i) == ds[|lbl| - 1 - i]
    {
      LaneIsOctDigit(k, i);
    }
  }
}
