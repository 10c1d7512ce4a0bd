/**
 * Writing rules out as text: `labels_to_rules` (minish-hat.py:185-210, and with the
 * default atom names minish-ruleset.py:189-210 and hybrid-minterms.py:100-121),
 * `rules_to_string` (minish_hat.py:188-204) and `rules_to_asp` (minish_hat.py:262-275).
 * Where the source iterates a set of atom names, the model lists it sorted.
 */
module RuleText {
  import opened Wrappers
  import opened Numerals
  import opened Ordering
  import opened Text
  import opened Rules

  /** No string of `ss` holds the character `c`. */
  predicate Avoids(ss: seq<string>, c: char)
  {
    forall i :: 0 <= i < |ss| ==> c !in ss[i]
  }

  /** No line break anywhere in the strings of `ss`. */
  predicate OneLineEach(ss: seq<string>)
  {
    Avoids(ss, '\n')
  }

  /** Joining pieces without a given character, with a separator without it, gives a string without it. */
  lemma {:induction false} JoinAvoids(sep: string, parts: seq<string>, c: char)
    requires c !in sep && Avoids(parts, c)
    ensures c !in Join(sep, parts)
    decreases |parts|
  {
    if |parts| > 1 {
      JoinAvoids(sep, parts[1..], c);
    }
  }

  /** A decimal numeral is digits only. */
  lemma DecimalOneLine(k: nat)
    ensures '\n' !in Decimal(k)
  {
    var s := Decimal(k);
    assert forall i :: 0 <= i < |s| ==> s[i] != '\n';
  }

  // ---------------------------------------------------------------- labels_to_rules

  /** The atom of position `idx`: `atomset[idx]`, or `x<idx>` without an atom list; an IndexError past the list's end. */
  function LiteralName(atomset: seq<string>, idx: nat): (r: Result<string>)
    ensures r.Err? <==> 0 < |atomset| <= idx
    ensures r.Err? ==> r.fault == IndexError
  {
    if |atomset| == 0 then Ok("x" + Decimal(idx))
    else if idx < |atomset| then Ok(atomset[idx])
    else Err(IndexError)
  }

  /** What the symbol `v` adds to the head: `o` a negated atom, `z` the atom, `1` the atom or its negation. */
  function HeadLiteral(v: char, atom: string): seq<string>
  {
    if v == 'o' then ["not " + atom]
    else if v == 'z' then [atom]
    else if v == '1' then [atom + " v not " + atom]
    else []
  }

  /** What the symbol `v` adds to the body: `0` a negated atom, `2` the atom. */
  function BodyLiteral(v: char, atom: string): seq<string>
  {
    if v == '0' then ["not " + atom]
    else if v == '2' then [atom]
    else []
  }

  /** The head and body literals a label gives the atom names `names`, in position order. */
  function Literals(lbl: string, names: seq<string>): (r: (seq<string>, seq<string>))
    requires |names| == |lbl|
    decreases |lbl|
  {
    if |lbl| == 0 then ([], [])
    else
      var n := |lbl| - 1;
      var (h, b) := Literals(lbl[..n], names[..n]);
      (h + HeadLiteral(lbl[n], names[n]), b + BodyLiteral(lbl[n], names[n]))
  }

  /** The term of a rule: ` v `-joined head, then ` :- ` and the ` ^ `-joined body if both are there, then `.`. */
  function Term(head: seq<string>, body: seq<string>): string
  {
    Join(" :- ", (if |head| > 0 then [Join(" v ", head)] else []) + (if |body| > 0 then [Join(" ^ ", body)] else [])) + "."
  }

  /** The names `labels_to_rules` gives the positions of `lbl`, or the IndexError it raises. */
  function LabelNames(lbl: string, atomset: seq<string>): (r: Result<seq<string>>)
    ensures r.Err? <==> 0 < |atomset| < |lbl|
    ensures r.Ok? ==> |r.value| == |lbl| && forall i :: 0 <= i < |lbl| ==> LiteralName(atomset, i) == Ok(r.value[i])
  {
    if |atomset| == 0 then Ok(seq(|lbl|, i requires 0 <= i < |lbl| => "x" + Decimal(i)))
    else if |atomset| < |lbl| then Err(IndexError)
    else Ok(atomset[..|lbl|])
  }

  /** The term of one label. */
  function LabelTerm(lbl: string, names: seq<string>): string
    requires |names| == |lbl|
  {
    Term(Literals(lbl, names).0, Literals(lbl, names).1)
  }

  /** The inner loop of `labels_to_rules`, for one label. */
  method WriteLabelTerm(lbl: string, atomset: seq<string>) returns (r: Result<string>)
    ensures r.Err? <==> LabelNames(lbl, atomset).Err?
    ensures r.Err? ==> r.fault == IndexError
    ensures r.Ok? ==> r.value == LabelTerm(lbl, LabelNames(lbl, atomset).value)
  {
    var head, body := [], [];
    ghost var names: seq<string> := [];
    for idx := 0 to |lbl|
      invariant |names| == idx && (head, body) == Literals(lbl[..idx], names)
      invariant forall i :: 0 <= i < idx ==> LiteralName(atomset, i) == Ok(names[i])
      invariant |atomset| > 0 ==> idx <= |atomset|
    {
      var atom := LiteralName(atomset, idx);
      if atom.Err? {
        return Err(atom.fault);
      }
      assert lbl[..idx + 1][..idx] == lbl[..idx] && (names + [atom.value])[..idx] == names;
      head := head + HeadLiteral(lbl[idx], atom.value);
      body := body + BodyLiteral(lbl[idx], atom.value);
      names := names + [atom.value];
    }
    assert lbl[..|lbl|] == lbl;
    assert names == LabelNames(lbl, atomset).value;
    return Ok(Term(head, body));
  }

  /** The terms of the labels, or the first IndexError. */
  function LabelTerms(labels: seq<string>, atomset: seq<string>): Result<seq<string>>
    decreases |labels|
  {
    if |labels| == 0 then Ok([])
    else
      match LabelTerms(labels[..|labels| - 1], atomset)
      case Err(f) => Err(f)
      case Ok(ts) =>
        var l := labels[|labels| - 1];
        match LabelNames(l, atomset)
        case Err(f) => Err(f)
        case Ok(names) => Ok(ts + [LabelTerm(l, names)])
  }

  /** `labels_to_rules(labels, atomset)`: one term per label, joined by line breaks. */
  method LabelsToRules(labels: seq<string>, atomset: seq<string>) returns (r: Result<string>)
    ensures LabelTerms(labels, atomset).Err? ==> r == Err(LabelTerms(labels, atomset).fault)
    ensures LabelTerms(labels, atomset).Ok? ==> r == Ok(Join("\n", LabelTerms(labels, atomset).value))
  {
    var terms := [];
    for i := 0 to |labels|
      invariant LabelTerms(labels[..i], atomset) == Ok(terms)
    {
      assert labels[..i + 1][..i] == labels[..i];
      var t := WriteLabelTerm(labels[i], atomset);
      if t.Err? {
        LabelTermsFail(labels, atomset, i + 1);
        return Err(t.fault);
      }
      terms := terms + [t.value];
    }
    assert labels[..|labels|] == labels;
    return Ok(Join("\n", terms));
  }

  /** An error on a prefix of the labels is the error of all of them. */
  lemma {:induction false} LabelTermsFail(labels: seq<string>, atomset: seq<string>, j: nat)
    requires j <= |labels| && LabelTerms(labels[..j], atomset).Err?
    ensures LabelTerms(labels, atomset) == LabelTerms(labels[..j], atomset)
    decreases |labels| - j
  {
    if j < |labels| {
      assert labels[..|labels| - 1][..j] == labels[..j];
      LabelTermsFail(labels[..|labels| - 1], atomset, j);
    } else {
      assert labels[..j] == labels;
    }
  }

  /** The literals of a label whose atom names hold no line break hold none either. */
  lemma {:induction false} LiteralsOneLine(lbl: string, names: seq<string>)
    requires |names| == |lbl| && OneLineEach(names)
    ensures OneLineEach(Literals(lbl, names).0) && OneLineEach(Literals(lbl, names).1)
    decreases |lbl|
  {
    if |lbl| > 0 {
      var n := |lbl| - 1;
      LiteralsOneLine(lbl[..n], names[..n]);
      var (h, b) := Literals(lbl[..n], names[..n]);
      assert '\n' !in names[n];
      AvoidsConcat(h, HeadLiteral(lbl[n], names[n]), '\n');
      AvoidsConcat(b, BodyLiteral(lbl[n], names[n]), '\n');
    }
  }

  /** A term of atom names without line breaks is one line. */
  lemma TermOneLine(lbl: string, names: seq<string>)
    requires |names| == |lbl| && OneLineEach(names)
    ensures '\n' !in LabelTerm(lbl, names)
  {
    var (h, b) := Literals(lbl, names);
    LiteralsOneLine(lbl, names);
    JoinAvoids(" v ", h, '\n');
    JoinAvoids(" ^ ", b, '\n');
    var parts := (if |h| > 0 then [Join(" v ", h)] else []) + (if |b| > 0 then [Join(" ^ ", b)] else []);
    assert Avoids(parts, '\n');
    JoinAvoids(" :- ", parts, '\n');
  }

  /** The terms of labels whose atom names hold no line break are lines of their own. */
  lemma {:induction false} TermsOneLine(labels: seq<string>, atomset: seq<string>)
    requires OneLineEach(atomset) && LabelTerms(labels, atomset).Ok?
    ensures |LabelTerms(labels, atomset).value| == |labels|
    ensures forall i :: 0 <= i < |labels| ==> '\n' !in LabelTerms(labels, atomset).value[i]
    decreases |labels|
  {
    if |labels| > 0 {
      var l := labels[|labels| - 1];
      TermsOneLine(labels[..|labels| - 1], atomset);
      var names := LabelNames(l, atomset).value;
      forall i | 0 <= i < |names| ensures '\n' !in names[i] {
        if |atomset| == 0 {
          DecimalOneLine(i);
          assert names[i] == "x" + Decimal(i);
        } else {
          assert names[i] == atomset[i];
        }
      }
      TermOneLine(l, names);
    }
  }

  /**
   * `labels_to_rules` writes one line per label, and line `i` is the term of label `i`,
   * when the atom names hold no line break.
   */
  lemma LabelsToRulesLines(labels: seq<string>, atomset: seq<string>)
    requires |labels| > 0 && OneLineEach(atomset) && LabelTerms(labels, atomset).Ok?
    ensures Split(Join("\n", LabelTerms(labels, atomset).value), "\n") == LabelTerms(labels, atomset).value
    ensures |LabelTerms(labels, atomset).value| == |labels|
  {
    TermsOneLine(labels, atomset);
    SplitJoin(LabelTerms(labels, atomset).value, '\n');
  }

  /** A label without head symbols gives no head literal, and one without body symbols no body literal. */
  lemma {:induction false} LiteralsEmpty(lbl: string, names: seq<string>)
    requires |names| == |lbl|
    ensures (forall i :: 0 <= i < |lbl| ==> lbl[i] !in "oz1") ==> Literals(lbl, names).0 == []
    ensures (forall i :: 0 <= i < |lbl| ==> lbl[i] !in "02") ==> Literals(lbl, names).1 == []
    decreases |lbl|
  {
    if |lbl| > 0 {
      LiteralsEmpty(lbl[..|lbl| - 1], names[..|lbl| - 1]);
    }
  }

  /** A label of `x` only is the empty rule `.`. */
  lemma AllAggregatedTerm(lbl: string, names: seq<string>)
    requires |names| == |lbl| && forall i :: 0 <= i < |lbl| ==> lbl[i] == 'x'
    ensures LabelTerm(lbl, names) == "."
  {
    LiteralsEmpty(lbl, names);
    assert Join(" :- ", []) == "";
  }

  /** A position with a head symbol puts its literal in the head, and one with a body symbol its literal in the body. */
  lemma {:induction false} LiteralsHave(lbl: string, names: seq<string>, i: nat)
    requires |names| == |lbl| && i < |lbl|
    ensures forall x :: x in HeadLiteral(lbl[i], names[i]) ==> x in Literals(lbl, names).0
    ensures forall x :: x in BodyLiteral(lbl[i], names[i]) ==> x in Literals(lbl, names).1
    decreases |lbl|
  {
    var n := |lbl| - 1;
    if i < n {
      LiteralsHave(lbl[..n], names[..n], i);
    }
  }

  // ---------------------------------------------------------------- rules_to_string

  /** Each atom name negated. */
  function Nots(atoms: seq<string>): (r: seq<string>)
    ensures |r| == |atoms| && forall i :: 0 <= i < |atoms| ==> r[i] == "not " + atoms[i]
  {
    seq(|atoms|, i requires 0 <= i < |atoms| => "not " + atoms[i])
  }

  /** `termh`: the head atoms, then the negated head atoms, joined by ` v `; empty for a headless rule. */
  function HeadText(rv: Rule): string
  {
    if |rv.phead| + |rv.nhead| > 0 then Join(" v ", SortedStrings(rv.phead) + Nots(SortedStrings(rv.nhead))) else ""
  }

  /** `termb`: `:- ` and the body atoms, then the negated body atoms, joined by ` ^ `; empty for a fact. */
  function BodyText(rv: Rule): string
  {
    if |rv.pbody| + |rv.nbody| > 0 then ":- " + Join(" ^ ", SortedStrings(rv.pbody) + Nots(SortedStrings(rv.nbody))) else ""
  }

  /** The line of one rule: head, a space when both parts are there, body, `.`. */
  function RuleString(rv: Rule): string
  {
    var h, b := HeadText(rv), BodyText(rv);
    (if |h| > 0 && |b| > 0 then h + " " else h) + b + "."
  }

  /** The lines of the rules, in dictionary order. */
  function RuleStrings(rules: seq<(nat, Rule)>): (r: seq<string>)
    ensures |r| == |rules|
    decreases |rules|
  {
    if |rules| == 0 then [] else RuleStrings(rules[..|rules| - 1]) + [RuleString(rules[|rules| - 1].1)]
  }

  /** Line `i` is the line of rule `i`. */
  lemma {:induction false} RuleStringsAt(rules: seq<(nat, Rule)>, i: nat)
    requires i < |rules|
    ensures RuleStrings(rules)[i] == RuleString(rules[i].1)
    decreases |rules|
  {
    if i < |rules| - 1 {
      RuleStringsAt(rules[..|rules| - 1], i);
    }
  }

  /** `rules_to_string(rule_dict)`, the dictionary given as its items in order. */
  method RulesToString(rules: seq<(nat, Rule)>) returns (s: string)
    ensures s == Join("\n", RuleStrings(rules))
  {
    var terms := [];
    for i := 0 to |rules|
      invariant terms == RuleStrings(rules[..i])
    {
      var t := WriteRuleString(rules[i].1);
      assert rules[..i + 1][..i] == rules[..i];
      terms := terms + [t];
    }
    assert rules[..|rules|] == rules;
    s := Join("\n", terms);
  }

  /** The body of the `for rk, rv in rule_dict.items()` loop. */
  method WriteRuleString(rv: Rule) returns (t: string)
    ensures t == RuleString(rv)
  {
    var termh, termb := "", "";
    if |rv.phead| + |rv.nhead| > 0 {
      termh := Join(" v ", SortedStrings(rv.phead) + Nots(SortedStrings(rv.nhead)));
    }
    if |rv.pbody| + |rv.nbody| > 0 {
      termb := ":- " + Join(" ^ ", SortedStrings(rv.pbody) + Nots(SortedStrings(rv.nbody)));
    }
    if |termh| > 0 && |termb| > 0 {
      termh := termh + " ";
    }
    t := termh + termb + ".";
  }

  /** No atom of the rule holds a line break. */
  predicate OneLineRule(rv: Rule)
  {
    AtomsOneLine(rv.phead) && AtomsOneLine(rv.nhead) && AtomsOneLine(rv.pbody) && AtomsOneLine(rv.nbody)
  }

  /** No atom of the set holds a line break. */
  predicate AtomsOneLine(atoms: set<string>)
  {
    forall a :: a in atoms ==> '\n' !in a
  }

  /** The atoms of a set listed sorted, without a line break, when the set's atoms have none. */
  lemma SortedOneLine(atoms: set<string>)
    requires AtomsOneLine(atoms)
    ensures Avoids(SortedStrings(atoms), '\n') && Avoids(Nots(SortedStrings(atoms)), '\n')
  {
    var ss := SortedStrings(atoms);
    forall i | 0 <= i < |ss| ensures '\n' !in ss[i] && '\n' !in Nots(ss)[i] {
      assert ss[i] in atoms;
      assert Nots(ss)[i] == "not " + ss[i];
    }
  }

  /** Concatenated lists keep a property of their elements. */
  lemma AvoidsConcat(a: seq<string>, b: seq<string>, c: char)
    requires Avoids(a, c) && Avoids(b, c)
    ensures Avoids(a + b, c)
  {
    forall i | 0 <= i < |a + b| ensures c !in (a + b)[i] {
      if i >= |a| { assert (a + b)[i] == b[i - |a|]; }
    }
  }

  /** The atoms and the negated atoms of two sets, joined by `sep`, hold no line break when the atoms hold none. */
  lemma JoinedOneLine(sep: string, pos: set<string>, neg: set<string>)
    requires '\n' !in sep
    requires AtomsOneLine(pos) && AtomsOneLine(neg)
    ensures '\n' !in Join(sep, SortedStrings(pos) + Nots(SortedStrings(neg)))
  {
    SortedOneLine(pos);
    SortedOneLine(neg);
    AvoidsConcat(SortedStrings(pos), Nots(SortedStrings(neg)), '\n');
    JoinAvoids(sep, SortedStrings(pos) + Nots(SortedStrings(neg)), '\n');
  }

  /** The line of a rule whose atoms hold no line break is one line. */
  lemma RuleStringOneLine(rv: Rule)
    requires OneLineRule(rv)
    ensures '\n' !in RuleString(rv)
  {
    JoinedOneLine(" v ", rv.phead, rv.nhead);
    JoinedOneLine(" ^ ", rv.pbody, rv.nbody);
    var h, b := HeadText(rv), BodyText(rv);
    assert '\n' !in h && '\n' !in b;
    assert '\n' !in " " && '\n' !in ".";
  }

  /** `rules_to_string` writes one line per rule, the rule's own line, when no atom holds a line break. */
  lemma RulesToStringLines(rules: seq<(nat, Rule)>)
    requires |rules| > 0 && forall i :: 0 <= i < |rules| ==> OneLineRule(rules[i].1)
    ensures Split(Join("\n", RuleStrings(rules)), "\n") == RuleStrings(rules)
  {
    var ts := RuleStrings(rules);
    forall i | 0 <= i < |ts| ensures '\n' !in ts[i] {
      RuleStringsAt(rules, i);
      RuleStringOneLine(rules[i].1);
    }
    SplitJoin(ts, '\n');
  }

  /** A rule with head and body reads `head :- body.`, a fact `head.`, a constraint `:- body.`, and the empty rule `.`. */
  lemma RuleStringShape(rv: Rule)
    ensures |HeadText(rv)| > 0 && |BodyText(rv)| > 0 ==> RuleString(rv) == HeadText(rv) + " " + BodyText(rv) + "."
    ensures |BodyText(rv)| == 0 <==> rv.pbody == {} && rv.nbody == {}
    ensures rv.pbody == {} && rv.nbody == {} ==> RuleString(rv) == HeadText(rv) + "."
    ensures rv.phead == {} && rv.nhead == {} ==> RuleString(rv) == BodyText(rv) + "."
    ensures BodyText(rv) != "" ==> BodyText(rv)[..3] == ":- "
  {
  }

  // ---------------------------------------------------------------- rules_to_asp

  /** One fact `role(n, rk, 'atom'). ` per atom, in the order given. */
  function RoleFacts(role: string, n: nat, rk: nat, atoms: seq<string>): string
    decreases |atoms|
  {
    if |atoms| == 0 then ""
    else RoleFacts(role, n, rk, atoms[..|atoms| - 1]) + RoleFact(role, n, rk, atoms[|atoms| - 1])
  }

  /** The fact `role(n, rk, 'atom'). `. */
  function RoleFact(role: string, n: nat, rk: nat, atom: string): string
  {
    role + "(" + Decimal(n) + ", " + Decimal(rk) + ", '" + atom + "'). "
  }

  /** The line of one rule: its `rule` fact, then its role facts, then a line break. */
  function AspLine(n: nat, rk: nat, rv: Rule): string
  {
    "rule(" + Decimal(n) + ", " + Decimal(rk) + "). "
      + RoleFacts("phead", n, rk, SortedStrings(rv.phead)) + RoleFacts("nhead", n, rk, SortedStrings(rv.nhead))
      + RoleFacts("pbody", n, rk, SortedStrings(rv.pbody)) + RoleFacts("nbody", n, rk, SortedStrings(rv.nbody)) + "\n"
  }

  /** The lines of the rules, in dictionary order. */
  function AspLines(n: nat, rules: seq<(nat, Rule)>): string
    decreases |rules|
  {
    if |rules| == 0 then ""
    else AspLines(n, rules[..|rules| - 1]) + AspLine(n, rules[|rules| - 1].0, rules[|rules| - 1].1)
  }

  /** One more rule adds its line. */
  lemma AspLinesSnoc(n: nat, rules: seq<(nat, Rule)>, i: nat)
    requires i < |rules|
    ensures AspLines(n, rules[..i + 1]) == AspLines(n, rules[..i]) + AspLine(n, rules[i].0, rules[i].1)
  {
    assert rules[..i + 1][..i] == rules[..i];
  }

  /** The `for atom in rv[role]` loop. */
  method WriteRoleFacts(role: string, n: nat, rk: nat, atoms: set<string>) returns (s: string)
    ensures s == RoleFacts(role, n, rk, SortedStrings(atoms))
  {
    var ss := SortedStrings(atoms);
    s := "";
    for i := 0 to |ss|
      invariant s == RoleFacts(role, n, rk, ss[..i])
    {
      assert ss[..i + 1][..i] == ss[..i];
      s := s + RoleFact(role, n, rk, ss[i]);
    }
    assert ss[..|ss|] == ss;
  }

  /** `rules_to_asp(rule_dict, program_number)`. */
  method RulesToAsp(rules: seq<(nat, Rule)>, n: nat) returns (asp: string)
    ensures asp == "program(" + Decimal(n) + ").\n" + AspLines(n, rules)
  {
    var lines := "";
    for i := 0 to |rules|
      invariant lines == AspLines(n, rules[..i])
    {
      var (rk, rv) := rules[i];
      var ph := WriteRoleFacts("phead", n, rk, rv.phead);
      var nh := WriteRoleFacts("nhead", n, rk, rv.nhead);
      var pb := WriteRoleFacts("pbody", n, rk, rv.pbody);
      var nb := WriteRoleFacts("nbody", n, rk, rv.nbody);
      AspLinesSnoc(n, rules, i);
      lines := lines + ("rule(" + Decimal(n) + ", " + Decimal(rk) + "). " + ph + nh + pb + nb + "\n");
    }
    assert rules[..|rules|] == rules;
    asp := "program(" + Decimal(n) + ").\n" + lines;
  }

  /** The facts of atoms without line breaks hold none. */
  lemma {:induction false} RoleFactsOneLine(role: string, n: nat, rk: nat, atoms: seq<string>)
    requires '\n' !in role && forall i :: 0 <= i < |atoms| ==> '\n' !in atoms[i]
    ensures LineBreaks(RoleFacts(role, n, rk, atoms)) == 0
    decreases |atoms|
  {
    if |atoms| > 0 {
      RoleFactsOneLine(role, n, rk, atoms[..|atoms| - 1]);
      DecimalOneLine(n);
      DecimalOneLine(rk);
      var f := RoleFact(role, n, rk, atoms[|atoms| - 1]);
      assert '\n' !in f;
      NoLineBreaks(f);
      LineBreaksAppend(RoleFacts(role, n, rk, atoms[..|atoms| - 1]), f);
    }
  }

  /** The facts of a set of atoms without line breaks, listed sorted, hold none. */
  lemma SortedRoleFactsOneLine(role: string, n: nat, rk: nat, atoms: set<string>)
    requires '\n' !in role && AtomsOneLine(atoms)
    ensures LineBreaks(RoleFacts(role, n, rk, SortedStrings(atoms))) == 0
  {
    SortedOneLine(atoms);
    RoleFactsOneLine(role, n, rk, SortedStrings(atoms));
  }

  /** Five pieces without line breaks, put together, hold none. */
  lemma NoBreaksConcat(a: string, b: string, c: string, d: string, e: string)
    requires LineBreaks(a) == 0 && LineBreaks(b) == 0 && LineBreaks(c) == 0
    requires LineBreaks(d) == 0 && LineBreaks(e) == 0
    ensures LineBreaks(a + b + c + d + e) == 0
  {
    LineBreaksAppend(a, b);
    LineBreaksAppend(a + b, c);
    LineBreaksAppend(a + b + c, d);
    LineBreaksAppend(a + b + c + d, e);
  }

  /** The `rule` fact of a line holds no line break. */
  lemma RuleFactOneLine(n: nat, rk: nat)
    ensures LineBreaks("rule(" + Decimal(n) + ", " + Decimal(rk) + "). ") == 0
  {
    DecimalOneLine(n);
    DecimalOneLine(rk);
    var head := "rule(" + Decimal(n) + ", " + Decimal(rk) + "). ";
    assert '\n' !in head;
    NoLineBreaks(head);
  }

  /** A piece without line breaks and a line break make one line. */
  lemma EndLine(body: string)
    requires LineBreaks(body) == 0
    ensures LineBreaks(body + "\n") == 1 && (body + "\n")[|body + "\n"| - 1] == '\n'
  {
    OneLineBreak();
    LineBreaksAppend(body, "\n");
  }

  /** A rule whose atoms hold no line break takes exactly one line. */
  lemma AspLineOneLine(n: nat, rk: nat, rv: Rule)
    requires OneLineRule(rv)
    ensures LineBreaks(AspLine(n, rk, rv)) == 1
    ensures AspLine(n, rk, rv)[|AspLine(n, rk, rv)| - 1] == '\n'
  {
    var head := "rule(" + Decimal(n) + ", " + Decimal(rk) + "). ";
    var ph := RoleFacts("phead", n, rk, SortedStrings(rv.phead));
    var nh := RoleFacts("nhead", n, rk, SortedStrings(rv.nhead));
    var pb := RoleFacts("pbody", n, rk, SortedStrings(rv.pbody));
    var nb := RoleFacts("nbody", n, rk, SortedStrings(rv.nbody));
    RuleFactOneLine(n, rk);
    SortedRoleFactsOneLine("phead", n, rk, rv.phead);
    SortedRoleFactsOneLine("nhead", n, rk, rv.nhead);
    SortedRoleFactsOneLine("pbody", n, rk, rv.pbody);
    SortedRoleFactsOneLine("nbody", n, rk, rv.nbody);
    NoBreaksConcat(head, ph, nh, pb, nb);
    EndLine(head + ph + nh + pb + nb);
  }

  /**
   * `rules_to_asp` writes the `program` line and then one line per rule, each ending in a
   * line break, when no atom holds a line break.
   */
  lemma {:induction false} RulesToAspLines(n: nat, rules: seq<(nat, Rule)>)
    requires forall i :: 0 <= i < |rules| ==> OneLineRule(rules[i].1)
    ensures LineBreaks(AspLines(n, rules)) == |rules|
    ensures |rules| > 0 ==> AspLines(n, rules)[|AspLines(n, rules)| - 1] == '\n'
    decreases |rules|
  {
    if |rules| > 0 {
      var last := rules[|rules| - 1];
      RulesToAspLines(n, rules[..|rules| - 1]);
      AspLineOneLine(n, last.0, last.1);
      var a, b := AspLines(n, rules[..|rules| - 1]), AspLine(n, last.0, last.1);
      LineBreaksAppend(a, b);
      assert (a + b)[|a + b| - 1] == b[|b| - 1];
    }
  }
}
