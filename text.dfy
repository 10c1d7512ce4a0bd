/**
 * The Python string methods the rule-line parsers and the renderers use: `strip`,
 * `count`, `replace`, `split` and `join`, on strings of characters.
 */
module Text {
  import opened Wrappers

  /** The characters `str.isspace` holds for, which `strip()` removes. */
  predicate IsSpace(c: char)
  {
    var n := c as int;
    || n == 0x20 || 0x09 <= n <= 0x0D || 0x1C <= n <= 0x1F || n == 0x85 || n == 0xA0 || n == 0x1680
    || 0x2000 <= n <= 0x200A || n == 0x2028 || n == 0x2029 || n == 0x202F || n == 0x205F || n == 0x3000
  }

  /** `lstrip()`: the longest suffix that does not start with a space. */
  function LStrip(s: string): (r: string)
    ensures |r| <= |s| && r == s[|s| - |r|..]
    ensures |r| > 0 ==> !IsSpace(r[0])
    ensures forall i :: 0 <= i < |s| - |r| ==> IsSpace(s[i])
    decreases |s|
  {
    if |s| > 0 && IsSpace(s[0]) then LStrip(s[1..]) else s
  }

  /** `rstrip()`: the longest prefix that does not end with a space. */
  function RStrip(s: string): (r: string)
    ensures |r| <= |s| && r == s[..|r|]
    ensures |r| > 0 ==> !IsSpace(r[|r| - 1])
    ensures forall i :: |r| <= i < |s| ==> IsSpace(s[i])
    decreases |s|
  {
    if |s| > 0 && IsSpace(s[|s| - 1]) then RStrip(s[..|s| - 1]) else s
  }

  /** `strip()` */
  function Strip(s: string): (r: string)
  {
    RStrip(LStrip(s))
  }

  /** `strip()` removes spaces from both ends and nothing else, so stripping twice strips once. */
  lemma StripShape(s: string)
    ensures exists i, j :: 0 <= i <= j <= |s| && Strip(s) == s[i..j]
              && (forall k :: 0 <= k < i ==> IsSpace(s[k])) && (forall k :: j <= k < |s| ==> IsSpace(s[k]))
    ensures |Strip(s)| > 0 ==> !IsSpace(Strip(s)[0]) && !IsSpace(Strip(s)[|Strip(s)| - 1])
    ensures Strip(Strip(s)) == Strip(s)
  {
    var i, j := StripBounds(s);
    StripEnds(s);
    StripFixed(Strip(s));
  }

  /** Where `strip()` cuts: only spaces before `i` and from `j` on. */
  lemma StripBounds(s: string) returns (i: nat, j: nat)
    ensures i <= j <= |s| && Strip(s) == s[i..j]
    ensures (forall k :: 0 <= k < i ==> IsSpace(s[k])) && (forall k :: j <= k < |s| ==> IsSpace(s[k]))
  {
    var l := LStrip(s);
    var r := RStrip(l);
    i, j := |s| - |l|, |s| - |l| + |r|;
    assert r == s[i..j];
    forall k | j <= k < |s| ensures IsSpace(s[k]) {
      assert s[k] == l[k - i];
    }
  }

  /** What `strip()` leaves neither starts nor ends with a space. */
  lemma StripEnds(s: string)
    ensures |Strip(s)| > 0 ==> !IsSpace(Strip(s)[0]) && !IsSpace(Strip(s)[|Strip(s)| - 1])
  {
    var l := LStrip(s);
    var r := RStrip(l);
    if |r| > 0 {
      assert r[0] == l[0];
    }
  }

  /** A string that neither starts nor ends with a space is its own `strip()`. */
  lemma StripFixed(r: string)
    requires |r| > 0 ==> !IsSpace(r[0]) && !IsSpace(r[|r| - 1])
    ensures Strip(r) == r
  {
    assert LStrip(r) == r;
    assert RStrip(r) == r;
  }

  /** `s[i:].startswith(sub)` */
  predicate At(s: string, i: nat, sub: string)
  {
    i + |sub| <= |s| && s[i..i + |sub|] == sub
  }

  /** `s.count(sub)` for a non-empty `sub`: occurrences counted left to right, without overlap. */
  function Count(s: string, sub: string): nat
    requires |sub| > 0
    decreases |s|
  {
    if |s| < |sub| then 0
    else if At(s, 0, sub) then 1 + Count(s[|sub|..], sub)
    else Count(s[1..], sub)
  }

  /** `s.replace(sub, repl)` for a non-empty `sub`: the occurrences `count` counts, replaced. */
  function Replace(s: string, sub: string, repl: string): string
    requires |sub| > 0
    decreases |s|
  {
    if |s| < |sub| then s
    else if At(s, 0, sub) then repl + Replace(s[|sub|..], sub, repl)
    else [s[0]] + Replace(s[1..], sub, repl)
  }

  /** Removing the occurrences of `sub` shortens the string by `|sub|` for each one `count` finds. */
  lemma {:induction false} ReplaceCount(s: string, sub: string)
    requires |sub| > 0
    ensures |Replace(s, sub, "")| + |sub| * Count(s, sub) == |s|
    decreases |s|
  {
    var c := Count(s, sub);
    if |s| < |sub| {
      assert c == 0 && |sub| * c == 0;
    } else if At(s, 0, sub) {
      var rest := s[|sub|..];
      ReplaceCount(rest, sub);
      assert c == 1 + Count(rest, sub);
      assert |sub| * c == |sub| + |sub| * Count(rest, sub);
    } else {
      ReplaceCount(s[1..], sub);
      assert c == Count(s[1..], sub);
    }
  }

  /** A string with no occurrence is left as it is. */
  lemma {:induction false} ReplaceNone(s: string, sub: string, repl: string)
    requires |sub| > 0 && Count(s, sub) == 0
    ensures Replace(s, sub, repl) == s
    decreases |s|
  {
    if |s| >= |sub| {
      ReplaceNone(s[1..], sub, repl);
      assert [s[0]] + s[1..] == s;
    }
  }

  /** The first index at which `sep` occurs in `s`, if any. */
  function Find(s: string, sep: string): (r: Option<nat>)
    ensures r.Some? ==> At(s, r.value, sep) && forall i :: 0 <= i < r.value ==> !At(s, i, sep)
    ensures r.None? ==> forall i :: 0 <= i <= |s| ==> !At(s, i, sep)
    decreases |s|
  {
    if |s| < |sep| then None
    else if s[..|sep|] == sep then Some(0)
    else
      match Find(s[1..], sep)
      case None =>
        assert forall i :: 1 <= i <= |s| ==> (At(s, i, sep) <==> At(s[1..], i - 1, sep));
        None
      case Some(j) =>
        assert forall i :: 1 <= i <= |s| ==> (At(s, i, sep) <==> At(s[1..], i - 1, sep));
        Some(j + 1)
  }

  /** `s.split(sep)` for a non-empty `sep`: the pieces between the occurrences of `sep`, left to right. */
  function Split(s: string, sep: string): (r: seq<string>)
    requires |sep| > 0
    ensures |r| > 0
    decreases |s|
  {
    match Find(s, sep)
    case None => [s]
    case Some(i) => [s[..i]] + Split(s[i + |sep|..], sep)
  }

  /** `sep.join(parts)` */
  function Join(sep: string, parts: seq<string>): string
    decreases |parts|
  {
    if |parts| == 0 then ""
    else if |parts| == 1 then parts[0]
    else parts[0] + sep + Join(sep, parts[1..])
  }

  /** Joining the pieces of a split gives the string back. */
  lemma {:induction false} JoinSplit(s: string, sep: string)
    requires |sep| > 0
    ensures Join(sep, Split(s, sep)) == s
    decreases |s|
  {
    match Find(s, sep)
    case None =>
    case Some(i) =>
      var rest := s[i + |sep|..];
      JoinSplit(rest, sep);
      assert s == s[..i] + sep + rest;
  }

  /** No piece of a split holds the separator. */
  lemma {:induction false} SplitPieces(s: string, sep: string)
    requires |sep| > 0
    ensures forall p :: p in Split(s, sep) ==> Find(p, sep).None?
    decreases |s|
  {
    var f := Find(s, sep);
    match f
    case None =>
    case Some(i) =>
      SplitPieces(s[i + |sep|..], sep);
      var p := s[..i];
      forall k | 0 <= k <= |p| ensures !At(p, k, sep) {
        if k + |sep| <= |p| {
          assert k < i && !At(s, k, sep);
          assert p[k..k + |sep|] == s[k..k + |sep|];
        }
      }
  }

  /** The first occurrence of a one-character separator after a piece without it. */
  lemma FindAfterPiece(a: string, c: char, b: string)
    requires c !in a
    ensures Find(a + [c] + b, [c]) == Some(|a|)
  {
    var s := a + [c] + b;
    assert s[|a|..|a| + 1] == [c];
    assert At(s, |a|, [c]);
    forall i | 0 <= i < |a| ensures !At(s, i, [c]) {
      assert s[i..i + 1] == [a[i]] && a[i] in a;
    }
  }

  /** A piece without the separator is not split. */
  lemma FindInPiece(a: string, c: char)
    requires c !in a
    ensures Find(a, [c]).None?
  {
    forall i | 0 <= i < |a| ensures !At(a, i, [c]) {
      assert a[i..i + 1] == [a[i]] && a[i] in a;
    }
  }

  /** Splitting a join on a one-character separator no piece holds gives the pieces back. */
  lemma {:induction false} SplitJoin(parts: seq<string>, c: char)
    requires |parts| > 0 && forall i :: 0 <= i < |parts| ==> c !in parts[i]
    ensures Split(Join([c], parts), [c]) == parts
    decreases |parts|
  {
    if |parts| == 1 {
      FindInPiece(parts[0], c);
    } else {
      var rest := Join([c], parts[1..]);
      FindAfterPiece(parts[0], c, rest);
      var s := parts[0] + [c] + rest;
      assert s[|parts[0]| + 1..] == rest;
      assert s[..|parts[0]|] == parts[0];
      SplitJoin(parts[1..], c);
      assert parts == [parts[0]] + parts[1..];
    }
  }

  /** The number of line breaks in `s`. */
  function LineBreaks(s: string): nat
    decreases |s|
  {
    if |s| == 0 then 0 else LineBreaks(s[..|s| - 1]) + (if s[|s| - 1] == '\n' then 1 else 0)
  }

  lemma {:induction false} LineBreaksAppend(a: string, b: string)
    ensures LineBreaks(a + b) == LineBreaks(a) + LineBreaks(b)
    decreases |b|
  {
    if |b| > 0 {
      assert (a + b)[..|a + b| - 1] == a + b[..|b| - 1];
      assert (a + b)[|a + b| - 1] == b[|b| - 1];
      LineBreaksAppend(a, b[..|b| - 1]);
    } else {
      assert a + b == a;
    }
  }

  /** A string without line breaks counts none. */
  lemma {:induction false} NoLineBreaks(s: string)
    requires forall i :: 0 <= i < |s| ==> s[i] != '\n'
    ensures LineBreaks(s) == 0
    decreases |s|
  {
    if |s| > 0 {
      NoLineBreaks(s[..|s| - 1]);
    }
  }

  /** A single line break counts one. */
  lemma OneLineBreak()
    ensures LineBreaks("\n") == 1
  {
    assert "\n"[..0] == "";
  }
}
