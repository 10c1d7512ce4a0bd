/**
 * The fact and text writers of minterms.py and helper/minterms_old.py: `atom_name`, the
 * per-line `m(i, atom, bit)` facts of `input_to_asp`, and the renderings of an implicate
 * dictionary, `implicates_dict_str` and `implicates_dict_rules`. The dictionary comes from
 * solver symbols; here it is given as its items, each key's attributes as a map from the
 * attribute's text to the value's text.
 */
module Minterms {
  import opened Wrappers
  import opened Numerals
  import opened Text
  import opened Ordering
  import opened RuleText

  /** Which script writes: minterms.py or helper/minterms_old.py. */
  datatype Format = Current | Old

  // ---------------------------------------------------------------- atom_name

  /** The code point `atom_name` passes to `chr`: past `z` it wraps back by the 26 letters. */
  function AtomCode(idx: nat, start: char): (v: int)
    ensures v == (if start as int + idx > 'z' as int then start as int + idx - 26 else start as int + idx)
  {
    var v := start as int + idx;
    if v > 'z' as int then 'a' as int + (idx - ('z' as int - start as int + 1)) else v
  }

  /** `atom_name(idx, start)`; `chr` raises ValueError past the last code point. */
  function AtomName(idx: nat, start: char): (r: Result<char>)
    ensures r.Err? <==> AtomCode(idx, start) > 0x10FFFF || 0xD800 <= AtomCode(idx, start) < 0xE000
    ensures r.Ok? ==> r.value as int == AtomCode(idx, start)
  {
    var v := AtomCode(idx, start);
    if v > 0x10FFFF || 0xD800 <= v < 0xE000 then Err(ValueError) else Ok(v as char)
  }

  /** From a lowercase start, the first 26 names are the letters from `start` on, wrapping after `z`. */
  lemma AtomNameLetters(idx: nat, start: char)
    requires 'a' <= start <= 'z' && idx < 26
    ensures AtomName(idx, start).Ok? && 'a' <= AtomName(idx, start).value <= 'z'
    ensures AtomName(idx, start).value as int - 'a' as int == (start as int - 'a' as int + idx) % 26
  {
  }

  /** From a lowercase start, the first 26 names are all different. */
  lemma AtomNameInjective(i: nat, j: nat, start: char)
    requires 'a' <= start <= 'z' && i < 26 && j < 26 && AtomName(i, start) == AtomName(j, start)
    ensures i == j
  {
    AtomNameLetters(i, start);
    AtomNameLetters(j, start);
    var s := start as int - 'a' as int;
    assert (s + i) % 26 == (s + j) % 26;
    assert (s + i) - (s + i) % 26 == (if s + i >= 26 then 26 else 0);
    assert (s + j) - (s + j) % 26 == (if s + j >= 26 then 26 else 0);
  }

  // ---------------------------------------------------------------- input_to_asp

  /** The symbols of an input line: `[012]` in minterms.py, `[012ozx]` in helper/minterms_old.py. */
  predicate LineSymbol(f: Format, c: char)
  {
    c == '0' || c == '1' || c == '2' || (f == Old && (c == 'o' || c == 'z' || c == 'x'))
  }

  /** The longest prefix of line symbols. */
  function SymbolSpan(f: Format, line: string): (k: nat)
    ensures k <= |line| && (forall i :: 0 <= i < k ==> LineSymbol(f, line[i])) && (k < |line| ==> !LineSymbol(f, line[k]))
    decreases |line|
  {
    if |line| == 0 || !LineSymbol(f, line[0]) then 0 else 1 + SymbolSpan(f, line[1..])
  }

  /** `re.match('^[012]+\s*$', line)` (or `[012ozx]+`): symbols, then only spaces. */
  predicate InputLine(f: Format, line: string)
  {
    var k := SymbolSpan(f, line);
    k > 0 && forall i :: k <= i < |line| ==> IsSpace(line[i])
  }

  /** `line.strip()` of an input line is its symbols. */
  lemma InputLineStrip(f: Format, line: string)
    requires InputLine(f, line)
    ensures Strip(line) == line[..SymbolSpan(f, line)]
  {
    var k := SymbolSpan(f, line);
    assert !IsSpace(line[0]);
    assert LStrip(line) == line;
    RStripSpaces(line, k);
  }

  /** `rstrip()` drops exactly a trailing run of spaces after a non-space. */
  lemma {:induction false} RStripSpaces(s: string, k: nat)
    requires 0 < k <= |s| && !IsSpace(s[k - 1]) && forall i :: k <= i < |s| ==> IsSpace(s[i])
    ensures RStrip(s) == s[..k]
    decreases |s|
  {
    if |s| > k {
      RStripSpaces(s[..|s| - 1], k);
      assert s[..|s| - 1][..k] == s[..k];
    } else {
      assert s[..k] == s;
    }
  }

  /** The digit of a symbol in the line's id: base 3 in minterms.py; base 6 with `o`, `z`, `x` as 3, 4, 5 in helper/minterms_old.py. */
  function DigitOf(c: char): (d: nat)
    ensures d < 6
  {
    if c == '1' then 1 else if c == '2' then 2 else if c == 'o' then 3 else if c == 'z' then 4 else if c == 'x' then 5 else 0
  }

  /** The base of the line's id. */
  function IdBase(f: Format): (b: nat)
    ensures Radix(b)
  {
    if f == Current then 3 else 6
  }

  /** `int(m, 3)`, or `int(mr, 6)` after replacing `o`, `z`, `x` by 3, 4, 5. */
  function LineId(f: Format, m: string): nat
  {
    FromBase(seq(|m|, i requires 0 <= i < |m| => DigitOf(m[i])), IdBase(f))
  }

  /** The id digits of a line's symbols are below the id's base. */
  lemma LineDigitsBelow(f: Format, m: string)
    requires forall i :: 0 <= i < |m| ==> LineSymbol(f, m[i])
    ensures DigitsBelow(seq(|m|, i requires 0 <= i < |m| => DigitOf(m[i])), IdBase(f))
  {
  }

  /** Lines of the same width with the same id are the same line, and the id is below `base^width`. */
  lemma LineIdInjective(f: Format, m: string, n: string)
    requires |m| == |n| && forall i :: 0 <= i < |m| ==> LineSymbol(f, m[i]) && LineSymbol(f, n[i])
    ensures LineId(f, m) < Pow(IdBase(f), |m|)
    ensures LineId(f, m) == LineId(f, n) ==> m == n
  {
    var dm := seq(|m|, i requires 0 <= i < |m| => DigitOf(m[i]));
    var dn := seq(|n|, i requires 0 <= i < |n| => DigitOf(n[i]));
    LineDigitsBelow(f, m);
    LineDigitsBelow(f, n);
    FromBaseBound(dm, IdBase(f));
    if LineId(f, m) == LineId(f, n) {
      FromBaseInjective(dm, dn, IdBase(f));
      forall i | 0 <= i < |m| ensures m[i] == n[i] {
        assert DigitOf(m[i]) == dm[i] == dn[i] == DigitOf(n[i]);
      }
    }
  }

  /** The name of position `idx`: `atom_name(idx, 'p')`, or `x<idx>`. */
  function PositionName(f: Format, idx: nat): Result<string>
  {
    if f == Old then Ok("x" + Decimal(idx))
    else match AtomName(idx, 'p')
         case Err(e) => Err(e)
         case Ok(c) => Ok([c])
  }

  /** `m(i, atom, bit). ` */
  function Fact(i: nat, name: string, bit: char): string
  {
    "m(" + Decimal(i) + ", " + name + ", " + [bit] + "). "
  }

  /** The facts of the first `k` positions of `m`. */
  function PositionFacts(f: Format, m: string, k: nat): Result<string>
    requires k <= |m|
    decreases k
  {
    if k == 0 then Ok("")
    else
      match PositionFacts(f, m, k - 1)
      case Err(e) => Err(e)
      case Ok(s) =>
        match PositionName(f, k - 1)
        case Err(e) => Err(e)
        case Ok(name) => Ok(s + Fact(LineId(f, m), name, m[k - 1]))
  }

  /** The facts of one line of the input: none for a line that is not an input line. */
  function LineFacts(f: Format, line: string): Result<string>
  {
    if !InputLine(f, line) then Ok("")
    else
      var m := Strip(line);
      match PositionFacts(f, m, |m|)
      case Err(e) => Err(e)
      case Ok(s) => Ok(s + "\n")
  }

  /** The facts of the lines. */
  function AspFacts(f: Format, lines: seq<string>): Result<string>
    decreases |lines|
  {
    if |lines| == 0 then Ok("")
    else
      match AspFacts(f, lines[..|lines| - 1])
      case Err(e) => Err(e)
      case Ok(s) =>
        match LineFacts(f, lines[|lines| - 1])
        case Err(e) => Err(e)
        case Ok(t) => Ok(s + t)
  }

  /** An error on a prefix of the positions is the line's error. */
  lemma {:induction false} PositionFactsFail(f: Format, m: string, j: nat, k: nat)
    requires j <= k <= |m| && PositionFacts(f, m, j).Err?
    ensures PositionFacts(f, m, k) == PositionFacts(f, m, j)
    decreases k - j
  {
    if j < k {
      PositionFactsFail(f, m, j, k - 1);
    }
  }

  /** An error on a prefix of the lines is the error of all of them. */
  lemma {:induction false} AspFactsFail(f: Format, lines: seq<string>, j: nat)
    requires j <= |lines| && AspFacts(f, lines[..j]).Err?
    ensures AspFacts(f, lines) == AspFacts(f, lines[..j])
    decreases |lines| - j
  {
    if j < |lines| {
      assert lines[..|lines| - 1][..j] == lines[..j];
      AspFactsFail(f, lines[..|lines| - 1], j);
    } else {
      assert lines[..j] == lines;
    }
  }

  /** The body of `for line in input_text`. */
  method WriteLineFacts(f: Format, line: string) returns (r: Result<string>)
    ensures r == LineFacts(f, line)
  {
    if !InputLine(f, line) {
      return Ok("");
    }
    var m := Strip(line);
    var id := LineId(f, m);
    var facts := "";
    for idx := 0 to |m|
      invariant PositionFacts(f, m, idx) == Ok(facts)
    {
      var name := PositionName(f, idx);
      if name.Err? {
        PositionFactsFail(f, m, idx + 1, |m|);
        return Err(name.fault);
      }
      facts := facts + Fact(id, name.value, m[idx]);
    }
    return Ok(facts + "\n");
  }

  /** `input_to_asp`, the file given as its lines. */
  method InputToAsp(f: Format, lines: seq<string>) returns (r: Result<string>)
    ensures r == AspFacts(f, lines)
  {
    var facts := "";
    for i := 0 to |lines|
      invariant AspFacts(f, lines[..i]) == Ok(facts)
    {
      assert lines[..i + 1][..i] == lines[..i];
      var t := WriteLineFacts(f, lines[i]);
      if t.Err? {
        AspFactsFail(f, lines, i + 1);
        return Err(t.fault);
      }
      facts := facts + t.value;
    }
    assert lines[..|lines|] == lines;
    return Ok(facts);
  }

  /** In minterms.py the first 26 positions are named by single lowercase letters, `p` first. */
  lemma CurrentNamesLetters(idx: nat)
    requires idx < 26
    ensures PositionName(Current, idx).Ok? && |PositionName(Current, idx).value| == 1
    ensures 'a' <= PositionName(Current, idx).value[0] <= 'z'
  {
    AtomNameLetters(idx, 'p');
  }

  /** The number of input lines among `lines`. */
  function InputLineCount(f: Format, lines: seq<string>): nat
    decreases |lines|
  {
    if |lines| == 0 then 0
    else InputLineCount(f, lines[..|lines| - 1]) + (if InputLine(f, lines[|lines| - 1]) then 1 else 0)
  }

  /** A position has a name, without line breaks, in helper/minterms_old.py and among the first 26 positions in minterms.py. */
  lemma PositionNameOneLine(f: Format, idx: nat)
    requires f == Old || idx < 26
    ensures PositionName(f, idx).Ok? && '\n' !in PositionName(f, idx).value
  {
    if f == Old {
      DecimalOneLine(idx);
    } else {
      CurrentNamesLetters(idx);
    }
  }

  /** The facts of the first `k` positions of a line of symbols, named as above, hold no line break. */
  lemma {:induction false} PositionFactsOneLine(f: Format, m: string, k: nat)
    requires k <= |m| && (f == Old || |m| <= 26) && forall i :: 0 <= i < |m| ==> LineSymbol(f, m[i])
    ensures PositionFacts(f, m, k).Ok? && LineBreaks(PositionFacts(f, m, k).value) == 0
    decreases k
  {
    if k > 0 {
      PositionFactsOneLine(f, m, k - 1);
      PositionNameOneLine(f, k - 1);
      var name := PositionName(f, k - 1).value;
      DecimalOneLine(LineId(f, m));
      var fact := Fact(LineId(f, m), name, m[k - 1]);
      assert forall i :: 0 <= i < |fact| ==> fact[i] != '\n';
      NoLineBreaks(fact);
      LineBreaksAppend(PositionFacts(f, m, k - 1).value, fact);
    }
  }

  /**
   * `input_to_asp` writes one line of facts for each input line and nothing for any other
   * line; it never fails in helper/minterms_old.py, nor in minterms.py on lines of at most
   * 26 symbols, the positions `atom_name` names by letters.
   */
  lemma {:induction false} AspFactsLines(f: Format, lines: seq<string>)
    requires forall i :: 0 <= i < |lines| && InputLine(f, lines[i]) ==> f == Old || SymbolSpan(f, lines[i]) <= 26
    ensures AspFacts(f, lines).Ok? && LineBreaks(AspFacts(f, lines).value) == InputLineCount(f, lines)
    decreases |lines|
  {
    if |lines| > 0 {
      var line := lines[|lines| - 1];
      AspFactsLines(f, lines[..|lines| - 1]);
      if InputLine(f, line) {
        InputLineStrip(f, line);
        var m := Strip(line);
        PositionFactsOneLine(f, m, |m|);
        LineBreaksAppend(PositionFacts(f, m, |m|).value, "\n");
        OneLineBreak();
        LineBreaksAppend(AspFacts(f, lines[..|lines| - 1]).value, PositionFacts(f, m, |m|).value + "\n");
      } else {
        LineBreaksAppend(AspFacts(f, lines[..|lines| - 1]).value, "");
      }
    }
  }

  // ---------------------------------------------------------------- implicates_dict_str

  /** The attributes of one implicate, by the text of the attribute. */
  type Implicate = map<string, string>

  /** How a value is written: helper/minterms_old.py marks `z` as `'2` and `o` as `'0`. */
  function ValueText(f: Format, v: string): string
  {
    if f == Old && v == "z" then "'2" else if f == Old && v == "o" then "'0" else v
  }

  /** The values of the attributes `attrs`, written one after the other. */
  function ValuesText(f: Format, imp: Implicate, attrs: seq<string>): string
    requires forall a :: a in attrs ==> a in imp
    decreases |attrs|
  {
    if |attrs| == 0 then ""
    else ValuesText(f, imp, attrs[..|attrs| - 1]) + ValueText(f, imp[attrs[|attrs| - 1]])
  }

  /** The line of the `i`-th key: `[i] k: ` and its values in sorted attribute order. */
  function DictLine(f: Format, i: nat, k: string, imp: Implicate): string
  {
    "[" + Decimal(i) + "] " + k + ": " + ValuesText(f, imp, SortedStrings(imp.Keys)) + "\n"
  }

  /** The lines of the first keys. */
  function DictStr(f: Format, d: seq<(string, Implicate)>): string
    decreases |d|
  {
    if |d| == 0 then ""
    else DictStr(f, d[..|d| - 1]) + DictLine(f, |d| - 1, d[|d| - 1].0, d[|d| - 1].1)
  }

  /** The inner `for kk in sorted(impdict[k])` loop. */
  method WriteValues(f: Format, imp: Implicate) returns (s: string)
    ensures s == ValuesText(f, imp, SortedStrings(imp.Keys))
  {
    var attrs := SortedStrings(imp.Keys);
    s := "";
    for j := 0 to |attrs|
      invariant s == ValuesText(f, imp, attrs[..j])
    {
      ValuesTextSnoc(f, imp, attrs, j);
      s := s + ValueText(f, imp[attrs[j]]);
    }
    assert attrs[..|attrs|] == attrs;
  }

  /** The values of one more attribute are one more value. */
  lemma ValuesTextSnoc(f: Format, imp: Implicate, attrs: seq<string>, j: nat)
    requires (forall a :: a in attrs ==> a in imp) && j < |attrs|
    ensures ValuesText(f, imp, attrs[..j + 1]) == ValuesText(f, imp, attrs[..j]) + ValueText(f, imp[attrs[j]])
  {
    assert attrs[..j + 1][..j] == attrs[..j];
  }

  /** `implicates_dict_str(impdict)` */
  method ImplicatesDictStr(f: Format, d: seq<(string, Implicate)>) returns (ret: string)
    ensures ret == DictStr(f, d)
  {
    ret := "";
    for i := 0 to |d|
      invariant ret == DictStr(f, d[..i])
    {
      assert d[..i + 1][..i] == d[..i];
      var values := WriteValues(f, d[i].1);
      ret := ret + ("[" + Decimal(i) + "] " + d[i].0 + ": " + values + "\n");
    }
    assert d[..|d|] == d;
  }

  /** No line break in the values of one implicate. */
  predicate OneLineImplicate(imp: Implicate)
  {
    forall a :: a in imp ==> '\n' !in imp[a]
  }

  /** The values of an implicate without line breaks hold none. */
  lemma {:induction false} ValuesOneLine(f: Format, imp: Implicate, attrs: seq<string>)
    requires (forall a :: a in attrs ==> a in imp) && OneLineImplicate(imp)
    ensures LineBreaks(ValuesText(f, imp, attrs)) == 0
    decreases |attrs|
  {
    if |attrs| > 0 {
      var a := attrs[|attrs| - 1];
      ValuesOneLine(f, imp, attrs[..|attrs| - 1]);
      var t := ValueText(f, imp[a]);
      assert '\n' !in t;
      NoLineBreaks(t);
      LineBreaksAppend(ValuesText(f, imp, attrs[..|attrs| - 1]), t);
    }
  }

  /** The line of a key and values without line breaks is one line. */
  lemma DictLineOneLine(f: Format, n: nat, k: string, imp: Implicate)
    requires '\n' !in k && OneLineImplicate(imp)
    ensures LineBreaks(DictLine(f, n, k, imp)) == 1
  {
    var values := ValuesText(f, imp, SortedStrings(imp.Keys));
    ValuesOneLine(f, imp, SortedStrings(imp.Keys));
    DecimalOneLine(n);
    var head := "[" + Decimal(n) + "] " + k + ": ";
    assert '\n' !in head;
    NoLineBreaks(head);
    LineBreaksAppend(head, values);
    EndLine(head + values);
  }

  /** `implicates_dict_str` writes one line per key, when no key or value holds a line break. */
  lemma {:induction false} DictStrLines(f: Format, d: seq<(string, Implicate)>)
    requires forall i :: 0 <= i < |d| ==> '\n' !in d[i].0 && OneLineImplicate(d[i].1)
    ensures LineBreaks(DictStr(f, d)) == |d|
    decreases |d|
  {
    if |d| > 0 {
      var n := |d| - 1;
      DictStrLines(f, d[..n]);
      DictLineOneLine(f, n, d[n].0, d[n].1);
      LineBreaksAppend(DictStr(f, d[..n]), DictLine(f, n, d[n].0, d[n].1));
    }
  }

  // ---------------------------------------------------------------- implicates_dict_rules

  /** What a value adds to the head: minterms.py writes `p`, `n`, `1`; helper/minterms_old.py `o`, `z`, `1`. */
  function HeadText(f: Format, v: string, a: string): seq<string>
  {
    if f == Current then
      if v == "p" then ["not " + a] else if v == "n" then [a] else if v == "1" then ["(" + a + " v not " + a + ")"] else []
    else
      if v == "o" then ["not " + a] else if v == "z" then [a] else if v == "1" then [a + " v not " + a] else []
  }

  /** What a value adds to the body: `0` a negated atom, `2` the atom. */
  function BodyText(v: string, a: string): seq<string>
  {
    if v == "0" then ["not " + a] else if v == "2" then [a] else []
  }

  /** The head and body literals of the attributes `attrs`, in order. */
  function ImplicateLiterals(f: Format, imp: Implicate, attrs: seq<string>): (seq<string>, seq<string>)
    requires forall a :: a in attrs ==> a in imp
    decreases |attrs|
  {
    if |attrs| == 0 then ([], [])
    else
      var a := attrs[|attrs| - 1];
      var (h, b) := ImplicateLiterals(f, imp, attrs[..|attrs| - 1]);
      (h + HeadText(f, imp[a], a), b + BodyText(imp[a], a))
  }

  /** The separators of the head and of the body: `, ` in minterms.py, ` v ` and ` ^ ` in helper/minterms_old.py. */
  function Separators(f: Format): (string, string)
  {
    if f == Current then (", ", ", ") else (" v ", " ^ ")
  }

  /** The term of one implicate. */
  function ImplicateTerm(f: Format, imp: Implicate): string
  {
    var (h, b) := ImplicateLiterals(f, imp, SortedStrings(imp.Keys));
    var (hs, bs) := Separators(f);
    Join(" :- ", (if |h| > 0 then [Join(hs, h)] else []) + (if |b| > 0 then [Join(bs, b)] else [])) + "."
  }

  /** The terms of the implicates, in dictionary order. */
  function ImplicateTerms(f: Format, d: seq<(string, Implicate)>): (r: seq<string>)
    ensures |r| == |d|
    decreases |d|
  {
    if |d| == 0 then [] else ImplicateTerms(f, d[..|d| - 1]) + [ImplicateTerm(f, d[|d| - 1].1)]
  }

  /** The inner `for kk in sorted(impdict[k])` loop of `implicates_dict_rules`. */
  method WriteImplicateTerm(f: Format, imp: Implicate) returns (t: string)
    ensures t == ImplicateTerm(f, imp)
  {
    var attrs := SortedStrings(imp.Keys);
    var head, body := [], [];
    for j := 0 to |attrs|
      invariant (head, body) == ImplicateLiterals(f, imp, attrs[..j])
    {
      assert attrs[..j + 1][..j] == attrs[..j];
      var v := imp[attrs[j]];
      head := head + HeadText(f, v, attrs[j]);
      body := body + BodyText(v, attrs[j]);
    }
    assert attrs[..|attrs|] == attrs;
    var (hs, bs) := Separators(f);
    var term := [];
    if |head| > 0 {
      term := term + [Join(hs, head)];
    }
    if |body| > 0 {
      term := term + [Join(bs, body)];
    }
    t := Join(" :- ", term) + ".";
  }

  /** `implicates_dict_rules(impdict)` */
  method ImplicatesDictRules(f: Format, d: seq<(string, Implicate)>) returns (s: string)
    ensures s == Join("\n", ImplicateTerms(f, d))
  {
    var terms := [];
    for i := 0 to |d|
      invariant terms == ImplicateTerms(f, d[..i])
    {
      var t := WriteImplicateTerm(f, d[i].1);
      ImplicateTermsSnoc(f, d, i);
      terms := terms + [t];
    }
    assert d[..|d|] == d;
    s := Join("\n", terms);
  }

  /** The terms of one more implicate are one more term. */
  lemma ImplicateTermsSnoc(f: Format, d: seq<(string, Implicate)>, i: nat)
    requires i < |d|
    ensures ImplicateTerms(f, d[..i + 1]) == ImplicateTerms(f, d[..i]) + [ImplicateTerm(f, d[i].1)]
  {
    assert d[..i + 1][..i] == d[..i];
  }

  /** The label an implicate of one-symbol values spells over the attributes `attrs`. */
  function Spelled(imp: Implicate, attrs: seq<string>): (lbl: string)
    requires forall a :: a in attrs ==> a in imp && |imp[a]| == 1
    ensures |lbl| == |attrs|
  {
    seq(|attrs|, i requires 0 <= i < |attrs| => imp[attrs[i]][0])
  }

  /** helper/minterms_old.py's literals are those of `labels_to_rules` on the label the values spell. */
  lemma {:induction false} OldLiteralsAreLabelLiterals(imp: Implicate, attrs: seq<string>)
    requires forall a :: a in attrs ==> a in imp && |imp[a]| == 1
    ensures ImplicateLiterals(Old, imp, attrs) == Literals(Spelled(imp, attrs), attrs)
    decreases |attrs|
  {
    if |attrs| > 0 {
      var n := |attrs| - 1;
      OldLiteralsAreLabelLiterals(imp, attrs[..n]);
      assert Spelled(imp, attrs)[..n] == Spelled(imp, attrs[..n]);
      var v := imp[attrs[n]];
      assert v == [v[0]];
      assert HeadText(Old, v, attrs[n]) == HeadLiteral(v[0], attrs[n]);
      assert BodyText(v, attrs[n]) == BodyLiteral(v[0], attrs[n]);
    }
  }

  /**
   * An implicate of one-symbol values is written by helper/minterms_old.py as the term
   * `labels_to_rules` writes for the label its values spell, the attributes as atom names.
   */
  lemma OldTermIsLabelTerm(imp: Implicate)
    requires forall a :: a in imp ==> |imp[a]| == 1
    ensures ImplicateTerm(Old, imp) == LabelTerm(Spelled(imp, SortedStrings(imp.Keys)), SortedStrings(imp.Keys))
  {
    OldLiteralsAreLabelLiterals(imp, SortedStrings(imp.Keys));
  }
}
