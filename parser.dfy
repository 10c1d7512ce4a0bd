/**
 * The rule-line parser of helper/input-parse.py:36-108 and minish-hat.py:241-315: each line
 * `h1; h2 :- b1, b2.` is cut at `:-`, `;` and `,`; each literal's role follows from how many
 * times `not` occurs in it; an atom in both a positive and a negative role of the same kind
 * is removed from the rule, and a rule with an atom in `phead` and `nbody` (or `nhead` and
 * `pbody`) is not added. minish-hat.py also collects the label lines of its input.
 *
 * The head-piece loop of both scripts holds the body loop, the conflict loop and the rule
 * addition, so a line with several head pieces adds its rule once per piece, every entry
 * holding the same five set objects; the model appends those entries, each with the
 * line's final sets, once the line is read.
 */
module RuleParser {
  import opened Wrappers
  import opened Text
  import opened Ordering
  import opened Codec
  import opened Rules

  /** The four sets a literal can be added to. */
  datatype Role = PHead | NHead | PBody | NBody

  /** The role of the same literal on the other side of `:-`. */
  function Mirror(r: Role): Role
  {
    match r
    case PHead => PBody
    case NHead => NBody
    case PBody => PHead
    case NBody => NHead
  }

  /** The role of a head literal with `nots` occurrences of `not`. */
  function HeadRole(nots: nat): (r: Role)
    ensures r == PHead <==> nots == 0
    ensures nots > 0 ==> (r == NHead <==> nots % 2 == 1) && (r == NBody <==> nots % 2 == 0)
  {
    if nots == 0 then PHead
    else if nots == 1 then NHead
    else if nots == 2 then NBody
    else if nots % 2 == 1 then NHead
    else NBody
  }

  /** The role of a body literal with `nots` occurrences of `not`: the mirror of the head's. */
  function BodyRole(nots: nat): (r: Role)
    ensures r == Mirror(HeadRole(nots))
  {
    if nots == 0 then PBody
    else if nots == 1 then NBody
    else if nots == 2 then NHead
    else if nots % 2 == 1 then NBody
    else NHead
  }

  /**
   * The role and atom of one piece: `ha = piece.strip()`, `nots = ha.count("not")`, and
   * with some `not` the atom `ha.replace('not', '').strip()`.
   */
  function Literal(piece: string, head: bool): (r: (Role, string))
    ensures var ha := Strip(piece); Count(ha, "not") == 0 ==> r.1 == ha
    ensures |r.1| + 3 * Count(Strip(piece), "not") <= |Strip(piece)|
    ensures r.0 == (if head then HeadRole(Count(Strip(piece), "not")) else BodyRole(Count(Strip(piece), "not")))
  {
    var ha := Strip(piece);
    var nots := Count(ha, "not");
    ReplaceCount(ha, "not");
    var atom := if nots == 0 then ha else Strip(Replace(ha, "not", ""));
    StripShape(Replace(ha, "not", ""));
    (if head then HeadRole(nots) else BodyRole(nots), atom)
  }

  /** Every atom of the rule has a role. */
  predicate Roled(r: Rule)
  {
    r.atoms == r.phead + r.nhead + r.pbody + r.nbody
  }

  /** The rule of a line before any literal is read. */
  const NoRule := Rule({}, {}, {}, {}, {})

  /** `<role>set.add(atom)` and `atomset.add(atom)`. */
  function AddLiteral(r: Rule, role: Role, atom: string): (r': Rule)
    ensures Roled(r) ==> Roled(r')
    ensures r'.atoms == r.atoms + {atom}
  {
    match role
    case PHead => r.(phead := r.phead + {atom}, atoms := r.atoms + {atom})
    case NHead => r.(nhead := r.nhead + {atom}, atoms := r.atoms + {atom})
    case PBody => r.(pbody := r.pbody + {atom}, atoms := r.atoms + {atom})
    case NBody => r.(nbody := r.nbody + {atom}, atoms := r.atoms + {atom})
  }

  /** A non-empty head piece adds its literal. */
  function HeadPiece(r: Rule, hatom: string): Rule
  {
    if |hatom| > 0 then AddLiteral(r, Literal(hatom, true).0, Literal(hatom, true).1) else r
  }

  /** The `for batom in parts[1].split(',')` loop: each non-empty body piece adds its literal. */
  function BodyPieces(r: Rule, pieces: seq<string>): (r': Rule)
    ensures Roled(r) ==> Roled(r')
    decreases |pieces|
  {
    if |pieces| == 0 then r
    else
      var r1 := BodyPieces(r, pieces[..|pieces| - 1]);
      var p := pieces[|pieces| - 1];
      if |p| > 0 then AddLiteral(r1, Literal(p, false).0, Literal(p, false).1) else r1
  }

  // ---------------------------------------------------------------- the conflict loop

  /** An atom both positive and negative in the head, or in the body. */
  predicate Conflicting(r: Rule, a: string)
  {
    (a in r.phead && a in r.pbody) || (a in r.nhead && a in r.nbody)
  }

  /** An atom in `phead` and `nbody`, or in `nhead` and `pbody`. */
  predicate Inconsistent(r: Rule, a: string)
  {
    (a in r.phead && a in r.nbody) || (a in r.nhead && a in r.pbody)
  }

  /** The atom is in all five sets, so that removing it from each raises nothing. */
  predicate InAll(r: Rule, a: string)
  {
    a in r.atoms && a in r.phead && a in r.pbody && a in r.nhead && a in r.nbody
  }

  /** The rule with the atoms `c` removed from all five sets. */
  function RemoveAll(r: Rule, c: set<string>): (r': Rule)
    ensures Roled(r) ==> Roled(r')
  {
    Rule(r.atoms - c, r.phead - c, r.nhead - c, r.pbody - c, r.nbody - c)
  }

  /** One round of `for atom in sorted(atomset)`, on the rule and the `addrule` flag. */
  function ResolveStep(st: (Rule, bool), a: string): Result<(Rule, bool)>
  {
    var (r, add) := st;
    if Conflicting(r, a) then
      if InAll(r, a) then
        var r' := RemoveAll(r, {a});
        Ok((r', add && r'.atoms != {} && !Inconsistent(r', a)))
      else Err(KeyError)
    else Ok((r, add && !Inconsistent(r, a)))
  }

  /** The conflict loop over the atoms `ats`, from `addrule = True`. */
  function Resolve(r: Rule, ats: seq<string>): Result<(Rule, bool)>
    decreases |ats|
  {
    if |ats| == 0 then Ok((r, true))
    else
      match Resolve(r, ats[..|ats| - 1])
      case Err(f) => Err(f)
      case Ok(st) => ResolveStep(st, ats[|ats| - 1])
  }

  /** The atoms of `ats` that conflict in `r`. */
  function Conflicts(r: Rule, ats: seq<string>): set<string>
  {
    set a | a in ats && Conflicting(r, a)
  }

  /**
   * Over distinct atoms, the conflict loop raises KeyError exactly when a conflicting atom
   * is missing from one of the five sets; otherwise it removes every conflicting atom, and
   * keeps `addrule` exactly when no other atom is inconsistent and the removals did not
   * empty the rule.
   */
  lemma {:induction false} ResolveMeaning(r: Rule, ats: seq<string>)
    requires forall i, j :: 0 <= i < j < |ats| ==> ats[i] != ats[j]
    ensures Resolve(r, ats).Err? <==> exists a :: a in ats && Conflicting(r, a) && !InAll(r, a)
    ensures Resolve(r, ats).Err? ==> Resolve(r, ats).fault == KeyError
    ensures Resolve(r, ats).Ok? ==> Resolve(r, ats).value.0 == RemoveAll(r, Conflicts(r, ats))
    ensures Resolve(r, ats).Ok? ==>
      (Resolve(r, ats).value.1 <==>
         (forall a :: a in ats && !Conflicting(r, a) ==> !Inconsistent(r, a))
         && !(Conflicts(r, ats) != {} && r.atoms - Conflicts(r, ats) == {}))
    decreases |ats|
  {
    if |ats| > 0 {
      var p, a := ats[..|ats| - 1], ats[|ats| - 1];
      ResolveMeaning(r, p);
      assert forall x :: x in ats <==> x in p || x == a;
      assert a !in p;
      var cp := Conflicts(r, p);
      assert Conflicts(r, ats) == cp + (if Conflicting(r, a) then {a} else {});
      match Resolve(r, p)
      case Err(_) =>
      case Ok(st) =>
        assert a !in cp;
        var r' := RemoveAll(r, cp);
        assert Conflicting(r', a) == Conflicting(r, a) && InAll(r', a) == InAll(r, a);
        assert Inconsistent(r', a) == Inconsistent(r, a);
        if Conflicting(r, a) && InAll(r, a) {
          assert RemoveAll(r', {a}) == RemoveAll(r, cp + {a});
          assert !Inconsistent(RemoveAll(r', {a}), a);
        }
    } else {
      assert Conflicts(r, ats) == {};
    }
  }

  /** A KeyError on a prefix of the atoms is the loop's KeyError. */
  lemma {:induction false} ResolveFail(r: Rule, ats: seq<string>, j: nat)
    requires j <= |ats| && Resolve(r, ats[..j]).Err?
    ensures Resolve(r, ats) == Resolve(r, ats[..j])
    decreases |ats| - j
  {
    if j < |ats| {
      assert ats[..|ats| - 1][..j] == ats[..j];
      ResolveFail(r, ats[..|ats| - 1], j);
    } else {
      assert ats[..j] == ats;
    }
  }

  /** The conflict loop of one head piece, over `sorted(atomset)`. */
  method ResolveConflicts(r: Rule) returns (res: Result<(Rule, bool)>)
    ensures res == Resolve(r, SortedStrings(r.atoms))
  {
    var sorted := SortedStrings(r.atoms);
    var atomset, phead, nhead, pbody, nbody := r.atoms, r.phead, r.nhead, r.pbody, r.nbody;
    var addrule := true;
    for i := 0 to |sorted|
      invariant Resolve(r, sorted[..i]) == Ok((Rule(atomset, phead, nhead, pbody, nbody), addrule))
    {
      var atom := sorted[i];
      assert sorted[..i + 1][..i] == sorted[..i];
      if (atom in phead && atom in pbody) || (atom in nhead && atom in nbody) {
        if !(atom in atomset && atom in phead && atom in pbody && atom in nhead && atom in nbody) {
          ResolveFail(r, sorted, i + 1);
          return Err(KeyError);
        }
        atomset, phead, pbody, nhead, nbody := atomset - {atom}, phead - {atom}, pbody - {atom}, nhead - {atom}, nbody - {atom};
        if |atomset| == 0 {
          addrule := false;
        }
      }
      if (atom in phead && atom in nbody) || (atom in nhead && atom in pbody) {
        addrule := false;
      }
    }
    assert sorted[..|sorted|] == sorted;
    return Ok((Rule(atomset, phead, nhead, pbody, nbody), addrule));
  }

  // ---------------------------------------------------------------- one line

  /** What a line has built so far: its rule, how many times it was added, and the atoms added to `atoms`. */
  datatype LineState = LineState(rule: Rule, adds: nat, seen: set<string>)

  /** `line.replace('.', '').split(':-')` */
  function LineParts(line: string): (parts: seq<string>)
    ensures |parts| > 0
  {
    Split(Replace(line, ".", ""), ":-")
  }

  /** One round of `for hatom in parts[0].split(';')`: the head piece, the body, the conflict loop, the addition. */
  function LineRound(st: LineState, hatom: string, parts: seq<string>): Result<LineState>
  {
    var r1 := HeadPiece(st.rule, hatom);
    var r2 := if |parts| > 1 then BodyPieces(r1, Split(parts[1], ",")) else r1;
    match Resolve(r2, SortedStrings(r2.atoms))
    case Err(f) => Err(f)
    case Ok((r3, add)) => Ok(if add then LineState(r3, st.adds + 1, st.seen + r3.atoms) else LineState(r3, st.adds, st.seen))
  }

  /** The head-piece loop over `heads`. */
  function LineRounds(heads: seq<string>, parts: seq<string>): Result<LineState>
    decreases |heads|
  {
    if |heads| == 0 then Ok(LineState(NoRule, 0, {}))
    else
      match LineRounds(heads[..|heads| - 1], parts)
      case Err(f) => Err(f)
      case Ok(st) => LineRound(st, heads[|heads| - 1], parts)
  }

  /** What one rule line gives. */
  function ParseLine(line: string): Result<LineState>
  {
    LineRounds(Split(LineParts(line)[0], ";"), LineParts(line))
  }

  /** A KeyError on a prefix of the head pieces is the line's KeyError. */
  lemma {:induction false} LineRoundsFail(heads: seq<string>, parts: seq<string>, j: nat)
    requires j <= |heads| && LineRounds(heads[..j], parts).Err?
    ensures LineRounds(heads, parts) == LineRounds(heads[..j], parts)
    decreases |heads| - j
  {
    if j < |heads| {
      assert heads[..|heads| - 1][..j] == heads[..j];
      LineRoundsFail(heads[..|heads| - 1], parts, j);
    } else {
      assert heads[..j] == heads;
    }
  }

  /** The body loop. */
  method ReadBody(r: Rule, pieces: seq<string>) returns (r': Rule)
    ensures r' == BodyPieces(r, pieces)
  {
    r' := r;
    for i := 0 to |pieces|
      invariant r' == BodyPieces(r, pieces[..i])
    {
      assert pieces[..i + 1][..i] == pieces[..i];
      var batom := pieces[i];
      if |batom| > 0 {
        var (role, ba) := Literal(batom, false);
        r' := AddLiteral(r', role, ba);
      }
    }
    assert pieces[..|pieces|] == pieces;
  }

  /** The body of `for line in ...` for one rule line. */
  method ReadLine(line: string) returns (res: Result<LineState>)
    ensures res == ParseLine(line)
  {
    var parts := Split(Replace(line, ".", ""), ":-");
    var heads := Split(parts[0], ";");
    var st := LineState(NoRule, 0, {});
    for i := 0 to |heads|
      invariant LineRounds(heads[..i], parts) == Ok(st)
    {
      assert heads[..i + 1][..i] == heads[..i];
      var next := ReadHeadPiece(st, heads[i], parts);
      if next.Err? {
        LineRoundsFail(heads, parts, i + 1);
        return Err(next.fault);
      }
      st := next.value;
    }
    assert heads[..|heads|] == heads;
    return Ok(st);
  }

  /** One round of the head-piece loop. */
  method ReadHeadPiece(st: LineState, hatom: string, parts: seq<string>) returns (res: Result<LineState>)
    ensures res == LineRound(st, hatom, parts)
  {
    var rule := st.rule;
    if |hatom| > 0 {
      var (role, ha) := Literal(hatom, true);
      rule := AddLiteral(rule, role, ha);
    }
    if |parts| > 1 {
      rule := ReadBody(rule, Split(parts[1], ","));
    }
    var resolved := ResolveConflicts(rule);
    if resolved.Err? {
      return Err(resolved.fault);
    }
    rule := resolved.value.0;
    if resolved.value.1 {
      return Ok(LineState(rule, st.adds + 1, st.seen + rule.atoms));
    }
    return Ok(LineState(rule, st.adds, st.seen));
  }

  // ---------------------------------------------------------------- which lines are rules

  /** A character of Python's `\w`, restricted to ASCII. */
  predicate IsWordChar(c: char)
  {
    ('a' <= c <= 'z') || ('A' <= c <= 'Z') || ('0' <= c <= '9') || c == '_'
  }

  /** `[\w;\s]`, the head part of the rule-line pattern. */
  predicate HeadChar(c: char)
  {
    IsWordChar(c) || c == ';' || IsSpace(c)
  }

  /** `[\s\w,]`, the body part of the rule-line pattern. */
  predicate BodyChar(c: char)
  {
    IsSpace(c) || IsWordChar(c) || c == ','
  }

  /** `:-` starts at index `i`. */
  predicate ColonDashAt(b: string, i: nat)
  {
    i + 2 <= |b| && b[i] == ':' && b[i + 1] == '-'
  }

  /** `b` is head characters up to `i`, then `:-` up to `j` or nothing, then body characters. */
  predicate ShapedAt(b: string, i: nat, j: nat)
  {
    && i <= j <= |b|
    && (forall k :: 0 <= k < i ==> HeadChar(b[k]))
    && (j == i || (j == i + 2 && ColonDashAt(b, i)))
    && (forall k :: j <= k < |b| ==> BodyChar(b[k]))
  }

  /** `re.match('^[\w;\s]*(?::-)?[\s\w,]*\.$', m)`, as a pattern. */
  ghost predicate RuleLineShape(m: string)
  {
    |m| > 0 && m[|m| - 1] == '.' && var b := m[..|m| - 1]; exists i: nat, j: nat :: ShapedAt(b, i, j)
  }

  /** The longest prefix of head characters. */
  function HeadSpan(b: string): (i: nat)
    ensures i <= |b| && (forall k :: 0 <= k < i ==> HeadChar(b[k])) && (i < |b| ==> !HeadChar(b[i]))
    decreases |b|
  {
    if |b| == 0 || !HeadChar(b[0]) then 0 else 1 + HeadSpan(b[1..])
  }

  /** The pattern matched greedily: the longest head part, then `:-` if it follows. */
  predicate MatchesRuleLine(m: string)
  {
    && |m| > 0 && m[|m| - 1] == '.'
    && var b := m[..|m| - 1];
       var i := HeadSpan(b);
       ShapedAt(b, i, if ColonDashAt(b, i) then i + 2 else i)
  }

  /** The greedy match accepts exactly the lines of the pattern. */
  lemma MatchesRuleLineIff(m: string)
    ensures MatchesRuleLine(m) <==> RuleLineShape(m)
  {
    if RuleLineShape(m) {
      var b := m[..|m| - 1];
      var i': nat, j': nat :| ShapedAt(b, i', j');
      var i := HeadSpan(b);
      assert i' <= i;
      if i' < i {
        assert HeadChar(b[i']);
      }
    }
  }

  /** `re.match('^[012ozx]+$', m)` */
  predicate LabelLine(m: string)
  {
    IsLabel(m)
  }

  // ---------------------------------------------------------------- the program

  /** Which script reads the program. */
  datatype Syntax =
    | Guarded  // minish-hat.py: the stripped line must match the rule-line pattern
    | Plain    // helper/input-parse.py: any non-empty line without `%`

  /** The lines read as rules. */
  predicate Accepts(syn: Syntax, line: string)
  {
    match syn
    case Guarded => MatchesRuleLine(Strip(line))
    case Plain => |line| > 0 && '%' !in line
  }

  /** `rule_dict` as its items in order, `atoms`, and the next `rulecount`. */
  datatype Parsed = Parsed(rules: seq<(nat, Rule)>, atoms: set<string>, next: nat)

  /** The entries a line adds: `adds` consecutive numbers, all holding the line's final rule. */
  function Entries(start: nat, adds: nat, rule: Rule): (r: seq<(nat, Rule)>)
    ensures |r| == adds && forall i :: 0 <= i < adds ==> r[i] == (start + i, rule)
  {
    seq(adds, i requires 0 <= i < adds => (start + i, rule))
  }

  /** The `for line in ...` loop over `lines`, from `rulecount = 1`. */
  function ParseLines(syn: Syntax, lines: seq<string>): Result<Parsed>
    decreases |lines|
  {
    if |lines| == 0 then Ok(Parsed([], {}, 1))
    else
      match ParseLines(syn, lines[..|lines| - 1])
      case Err(f) => Err(f)
      case Ok(p) => ParseStep(syn, p, lines[|lines| - 1])
  }

  /** What one line adds: nothing unless it is read as a rule, else its entries and atoms. */
  function ParseStep(syn: Syntax, p: Parsed, line: string): Result<Parsed>
  {
    if !Accepts(syn, line) then Ok(p)
    else
      match ParseLine(line)
      case Err(f) => Err(f)
      case Ok(st) => Ok(Parsed(p.rules + Entries(p.next, st.adds, st.rule), p.atoms + st.seen, p.next + st.adds))
  }

  /** One more line: the step applied to what the lines before it gave. */
  lemma ParseLinesSnoc(syn: Syntax, lines: seq<string>, i: nat)
    requires i < |lines| && ParseLines(syn, lines[..i]).Ok?
    ensures ParseLines(syn, lines[..i + 1]) == ParseStep(syn, ParseLines(syn, lines[..i]).value, lines[i])
  {
    assert lines[..i + 1][..i] == lines[..i];
  }

  /** An error on a prefix of the lines is the program's error. */
  lemma {:induction false} ParseLinesFail(syn: Syntax, lines: seq<string>, j: nat)
    requires j <= |lines| && ParseLines(syn, lines[..j]).Err?
    ensures ParseLines(syn, lines) == ParseLines(syn, lines[..j])
    decreases |lines| - j
  {
    if j < |lines| {
      assert lines[..|lines| - 1][..j] == lines[..j];
      ParseLinesFail(syn, lines[..|lines| - 1], j);
    } else {
      assert lines[..j] == lines;
    }
  }

  /** The rules of a whole program text, or the KeyError of a conflict loop. */
  method ReadProgram(syn: Syntax, text: string) returns (res: Result<Parsed>)
    ensures res == ParseLines(syn, Split(text, "\n"))
  {
    var lines := Split(text, "\n");
    var rules, atoms := [], {};
    var rulecount: nat := 1;
    for i := 0 to |lines|
      invariant ParseLines(syn, lines[..i]) == Ok(Parsed(rules, atoms, rulecount))
    {
      ParseLinesSnoc(syn, lines, i);
      var next := ReadProgramLine(syn, lines[i], Parsed(rules, atoms, rulecount));
      if next.Err? {
        ParseLinesFail(syn, lines, i + 1);
        return Err(next.fault);
      }
      rules, atoms, rulecount := next.value.rules, next.value.atoms, next.value.next;
    }
    assert lines[..|lines|] == lines;
    return Ok(Parsed(rules, atoms, rulecount));
  }

  /** One round of the `for line in ...` loop. */
  method ReadProgramLine(syn: Syntax, line: string, p: Parsed) returns (res: Result<Parsed>)
    ensures res == ParseStep(syn, p, line)
  {
    if !Accepts(syn, line) {
      return Ok(p);
    }
    var st := ReadLine(line);
    if st.Err? {
      return Err(st.fault);
    }
    return Ok(Parsed(p.rules + Entries(p.next, st.value.adds, st.value.rule), p.atoms + st.value.seen, p.next + st.value.adds));
  }

  // ---------------------------------------------------------------- properties

  /** `k` times `not `, then the atom. */
  function Negated(k: nat, a: string): string
    decreases k
  {
    if k == 0 then a else "not " + Negated(k - 1, a)
  }

  /** `k` spaces. */
  function Spaces(k: nat): (r: string)
    ensures |r| == k && forall i :: 0 <= i < k ==> r[i] == ' '
  {
    seq(k, _ => ' ')
  }

  /** A non-empty atom that `strip()` leaves as it is. */
  predicate Stripped(a: string)
  {
    |a| > 0 && !IsSpace(a[0]) && !IsSpace(a[|a| - 1])
  }

  /** A leading `not ` is one occurrence of `not`, and removing it leaves the space. */
  lemma NotPrefix(s: string)
    ensures Count("not " + s, "not") == 1 + Count(s, "not")
    ensures Replace("not " + s, "not", "") == " " + Replace(s, "not", "")
  {
    var t := "not " + s;
    assert t[0..3] == "not";
    assert t[3..] == " " + s;
    var u := " " + s;
    if |u| >= 3 {
      assert u[0] == ' ' && u[0..3][0] == u[0];
      assert !At(u, 0, "not");
      assert u[1..] == s;
    }
  }

  /** `k` leading `not `s are `k` occurrences, and removing them leaves `k` spaces. */
  lemma NegatedCount(k: nat, a: string)
    ensures Count(Negated(k, a), "not") == k + Count(a, "not")
    ensures Replace(Negated(k, a), "not", "") == Spaces(k) + Replace(a, "not", "")
  {
    NegatedOccurrences(k, a);
    NegatedReplaced(k, a);
  }

  lemma {:induction false} NegatedOccurrences(k: nat, a: string)
    ensures Count(Negated(k, a), "not") == k + Count(a, "not")
    decreases k
  {
    if k > 0 {
      NegatedOccurrences(k - 1, a);
      NotPrefix(Negated(k - 1, a));
    }
  }

  lemma {:induction false} NegatedReplaced(k: nat, a: string)
    ensures Replace(Negated(k, a), "not", "") == Spaces(k) + Replace(a, "not", "")
    decreases k
  {
    if k > 0 {
      NegatedReplaced(k - 1, a);
      NotPrefix(Negated(k - 1, a));
      assert Spaces(k) == " " + Spaces(k - 1);
    }
  }

  /** A negated atom ends as the atom does. */
  lemma {:induction false} NegatedEnds(k: nat, a: string)
    requires Stripped(a)
    ensures |Negated(k, a)| > 0 && Negated(k, a)[|Negated(k, a)| - 1] == a[|a| - 1]
    ensures !IsSpace(Negated(k, a)[0])
    decreases k
  {
    if k > 0 {
      NegatedEnds(k - 1, a);
      var t, u := Negated(k, a), Negated(k - 1, a);
      assert t == "not " + u;
      assert t[|t| - 1] == u[|u| - 1];
    }
  }

  /** `strip()` leaves a negated atom as it is. */
  lemma StripNegated(k: nat, a: string)
    requires Stripped(a)
    ensures Strip(Negated(k, a)) == Negated(k, a)
  {
    NegatedEnds(k, a);
    var t := Negated(k, a);
    assert LStrip(t) == t;
    assert RStrip(t) == t;
  }

  /** Leading spaces do not change `lstrip()`. */
  lemma {:induction false} LStripSpaces(k: nat, s: string)
    ensures LStrip(Spaces(k) + s) == LStrip(s)
    decreases k
  {
    if k > 0 {
      assert Spaces(k) + s == " " + (Spaces(k - 1) + s);
      assert (" " + (Spaces(k - 1) + s))[1..] == Spaces(k - 1) + s;
      LStripSpaces(k - 1, s);
    } else {
      assert Spaces(k) + s == s;
    }
  }

  /**
   * A literal written as `k` times `not ` before an atom without `not` reads back as that
   * atom, in the role of `k`'s parity.
   */
  lemma LiteralRoundTrip(k: nat, a: string, head: bool)
    requires Stripped(a) && Count(a, "not") == 0
    ensures Literal(Negated(k, a), head) == (if head then HeadRole(k) else BodyRole(k), a)
  {
    var t := Negated(k, a);
    StripNegated(k, a);
    NegatedCount(k, a);
    assert Strip(t) == t && Count(t, "not") == k;
    if k > 0 {
      ReplaceNone(a, "not", "");
      assert Replace(t, "not", "") == Spaces(k) + a;
      LStripSpaces(k, a);
      assert LStrip(a) == a && RStrip(a) == a;
      assert Strip(Replace(t, "not", "")) == a;
    }
  }

  /** The conflict loop keeps every atom in a role. */
  lemma ResolveRoled(r: Rule)
    requires Roled(r) && Resolve(r, SortedStrings(r.atoms)).Ok?
    ensures Roled(Resolve(r, SortedStrings(r.atoms)).value.0)
  {
    SortedStringsIncreasing(r.atoms);
    ResolveMeaning(r, SortedStrings(r.atoms));
  }

  /** Every rule a line builds keeps every atom in a role. */
  lemma {:induction false} LineRoundsRoled(heads: seq<string>, parts: seq<string>)
    requires LineRounds(heads, parts).Ok?
    ensures Roled(LineRounds(heads, parts).value.rule)
    decreases |heads|
  {
    if |heads| > 0 {
      LineRoundsRoled(heads[..|heads| - 1], parts);
      var st := LineRounds(heads[..|heads| - 1], parts).value;
      var r1 := HeadPiece(st.rule, heads[|heads| - 1]);
      var r2 := if |parts| > 1 then BodyPieces(r1, Split(parts[1], ",")) else r1;
      ResolveRoled(r2);
    }
  }

  /**
   * The rules of a parsed program are numbered 1, 2, ... in order, `rulecount` is one past
   * the last, and every atom of every rule has a role.
   */
  lemma {:induction false} ParsedNumbering(syn: Syntax, lines: seq<string>)
    requires ParseLines(syn, lines).Ok?
    ensures var p := ParseLines(syn, lines).value;
      && p.next == |p.rules| + 1
      && forall i :: 0 <= i < |p.rules| ==> p.rules[i].0 == i + 1 && Roled(p.rules[i].1)
    decreases |lines|
  {
    if |lines| > 0 {
      ParsedNumbering(syn, lines[..|lines| - 1]);
      var line := lines[|lines| - 1];
      if Accepts(syn, line) && ParseLine(line).Ok? {
        LineRoundsRoled(Split(LineParts(line)[0], ";"), LineParts(line));
      }
    }
  }

  /** Over the program's atoms, every parsed rule writes a label as wide as the atoms, with either first test. */
  lemma ParsedLabelWidth(syn: Syntax, lines: seq<string>, i: nat, asWritten: bool)
    requires ParseLines(syn, lines).Ok? && i < |ParseLines(syn, lines).value.rules|
    ensures var p := ParseLines(syn, lines).value;
      |LabelOf(p.rules[i].1, SortedStrings(p.atoms), asWritten)| == |p.atoms|
  {
    var p := ParseLines(syn, lines).value;
    ParsedNumbering(syn, lines);
    LabelOfLength(p.rules[i].1, SortedStrings(p.atoms), asWritten);
    SortedStringsLength(p.atoms);
  }

  // ---------------------------------------------------------------- the input of minish-hat.py

  /** The stripped lines that are labels, in order. */
  function LabelLines(lines: seq<string>): (r: seq<string>)
    ensures forall i :: 0 <= i < |r| ==> IsLabel(r[i])
    decreases |lines|
  {
    if |lines| == 0 then []
    else
      var m := Strip(lines[|lines| - 1]);
      LabelLines(lines[..|lines| - 1]) + (if LabelLine(m) then [m] else [])
  }

  /**
   * The labels of the parsed rules over the program's atoms, in rule order, as minish-hat.py's
   * own `rule_to_label` writes them: its first test is `atom in phead and nhead`.
   */
  function RuleLabels(p: Parsed): (r: seq<string>)
    ensures |r| == |p.rules| && forall i :: 0 <= i < |r| ==> r[i] == LabelOf(p.rules[i].1, SortedStrings(p.atoms), true)
  {
    seq(|p.rules|, i requires 0 <= i < |p.rules| => LabelOf(p.rules[i].1, SortedStrings(p.atoms), true))
  }

  /**
   * What each symbol of a rule's label says about the atom at its position: `x` that the
   * rule does not mention it, `1` that it is in the positive head while the negative head
   * is not empty, `z` the positive head otherwise, `o` the negative head alone, `2` the
   * positive body alone and `0` the negative body alone.
   */
  lemma RuleLabelSymbols(syn: Syntax, lines: seq<string>, i: nat, j: nat)
    requires ParseLines(syn, lines).Ok?
    requires i < |ParseLines(syn, lines).value.rules| && j < |ParseLines(syn, lines).value.atoms|
    ensures var p := ParseLines(syn, lines).value;
      var rv := p.rules[i].1;
      var lbl := RuleLabels(p)[i];
      |lbl| == |p.atoms| && j < |SortedStrings(p.atoms)| &&
      var a := SortedStrings(p.atoms)[j];
      && (lbl[j] == 'x' <==> a !in rv.atoms)
      && (lbl[j] == '1' <==> a in rv.phead && rv.nhead != {})
      && (lbl[j] == 'z' <==> a in rv.phead && rv.nhead == {})
      && (lbl[j] == 'o' <==> a !in rv.phead && a in rv.nhead)
      && (lbl[j] == '2' <==> a !in rv.phead && a !in rv.nhead && a in rv.pbody)
      && (lbl[j] == '0' <==> a !in rv.phead && a !in rv.nhead && a !in rv.pbody && a in rv.nbody)
  {
    var p := ParseLines(syn, lines).value;
    ParsedNumbering(syn, lines);
    SortedStringsLength(p.atoms);
    LabelOfAt(p.rules[i].1, SortedStrings(p.atoms), true, j);
  }

  /**
   * The rule `a; not b.` (`a` in the positive head, `b` in the negative head) gets the
   * label `1o` from minish-hat.py, though it is the rule `label_to_ruledict` reads from `zo`.
   */
  lemma RuleLabelsHeadsBoth()
    ensures RuleLabels(Parsed([(1, Rule({"a", "b"}, {"a"}, {"b"}, {}, {}))], {"a", "b"}, 2)) == ["1o"]
  {
    var rv := Rule({"a", "b"}, {"a"}, {"b"}, {}, {});
    SortedAB();
    var out := LabelOf(rv, ["a", "b"], true);
    LabelOfAt(rv, ["a", "b"], true, 0);
    LabelOfAt(rv, ["a", "b"], true, 1);
    assert out == [out[0], out[1]];
  }

  /** `labels` of minish-hat.py after its input is read: the label lines, then one label per rule. */
  function InputLabels(text: string): Result<seq<string>>
  {
    var lines := Split(text, "\n");
    match ParseLines(Guarded, lines)
    case Err(f) => Err(f)
    case Ok(p) => Ok(LabelLines(lines) + RuleLabels(p))
  }

  /** The input loop of minish-hat.py:241-320: label lines and rule lines, then the labels of the rules. */
  method ReadInput(text: string) returns (res: Result<seq<string>>)
    ensures res == InputLabels(text)
  {
    var lines := Split(text, "\n");
    var read := ReadLines(lines);
    if read.Err? {
      return Err(read.fault);
    }
    var (labels, p) := read.value;
    var ruleLabels := WriteRuleLabels(p);
    return Ok(labels + ruleLabels);
  }

  /** The `for line in input_content.split('\n')` loop. */
  method ReadLines(lines: seq<string>) returns (res: Result<(seq<string>, Parsed)>)
    ensures ParseLines(Guarded, lines).Err? ==> res == Err(ParseLines(Guarded, lines).fault)
    ensures ParseLines(Guarded, lines).Ok? ==> res == Ok((LabelLines(lines), ParseLines(Guarded, lines).value))
  {
    var labels := [];
    var p := Parsed([], {}, 1);
    for i := 0 to |lines|
      invariant labels == LabelLines(lines[..i])
      invariant ParseLines(Guarded, lines[..i]) == Ok(p)
    {
      assert lines[..i + 1][..i] == lines[..i];
      var m := Strip(lines[i]);
      if LabelLine(m) {
        labels := labels + [m];
      }
      var next := ReadProgramLine(Guarded, lines[i], p);
      if next.Err? {
        ParseLinesFail(Guarded, lines, i + 1);
        return Err(next.fault);
      }
      p := next.value;
    }
    assert lines[..|lines|] == lines;
    return Ok((labels, p));
  }

  /** `for rk, rv in rule_dict.items(): labels += [rule_to_label(rv, atoms)]` */
  method WriteRuleLabels(p: Parsed) returns (r: seq<string>)
    ensures r == RuleLabels(p)
  {
    r := [];
    for j := 0 to |p.rules|
      invariant |r| == j && forall i :: 0 <= i < j ==> r[i] == LabelOf(p.rules[i].1, SortedStrings(p.atoms), true)
    {
      var lb := RuleToLabel(p.rules[j].1, p.atoms, true);
      r := r + [lb];
    }
  }

  /** Every label minish-hat.py reads from a rule line is as wide as the program's atoms. */
  lemma RuleLabelWidths(syn: Syntax, lines: seq<string>)
    requires ParseLines(syn, lines).Ok?
    ensures var p := ParseLines(syn, lines).value;
      forall i :: 0 <= i < |p.rules| ==> |RuleLabels(p)[i]| == |p.atoms|
  {
    var p := ParseLines(syn, lines).value;
    forall i | 0 <= i < |p.rules| ensures |RuleLabels(p)[i]| == |p.atoms| {
      ParsedLabelWidth(syn, lines, i, true);
    }
  }
}
