/**
 * Rules and labels: a rule's atoms fall into five roles (positive and negative head,
 * positive and negative body), and a label writes one symbol per atom of the program
 * (`rule_to_label`, minish_hat.py:10-26, minish-hat.py:9-25, helper/input-parse.py:4-20),
 * or reads the roles back from a label (`label_to_ruledict`, minish_hat.py:206-234).
 */
module Rules {
  import opened Wrappers
  import opened Numerals
  import opened Codec
  import opened Ordering

  /** The record of one rule: its atoms and the five role sets. */
  datatype Rule = Rule(atoms: set<string>, phead: set<string>, nhead: set<string>, pbody: set<string>, nbody: set<string>)

  /**
   * The symbol `rule_to_label` of minish_hat.py writes for `atom`: `x` for an atom the rule
   * does not mention, else by priority `1` (both heads), `z`, `o`, `2`, `0`; an atom the
   * rule mentions in no role writes nothing.
   */
  function AtomSymbol(rv: Rule, atom: string): Option<char>
  {
    if atom !in rv.atoms then Some('x')
    else if atom in rv.phead && atom in rv.nhead then Some('1')
    else if atom in rv.phead then Some('z')
    else if atom in rv.nhead then Some('o')
    else if atom in rv.pbody then Some('2')
    else if atom in rv.nbody then Some('0')
    else None
  }

  /**
   * The symbol `rule_to_label` of minish-hat.py and helper/input-parse.py writes: its first
   * test reads `atom in phead and nhead`, which holds for an atom of the positive head
   * whenever the negative head is not empty.
   */
  function AtomSymbolAsWritten(rv: Rule, atom: string): Option<char>
  {
    if atom !in rv.atoms then Some('x')
    else if atom in rv.phead && rv.nhead != {} then Some('1')
    else if atom in rv.phead then Some('z')
    else if atom in rv.nhead then Some('o')
    else if atom in rv.pbody then Some('2')
    else if atom in rv.nbody then Some('0')
    else None
  }

  /** What appending an optional symbol does. */
  function Written(o: Option<char>): string
  {
    if o.Some? then [o.value] else ""
  }

  /** The label of `rv` over the atoms `atoms`, in that order, with `asWritten` choosing the first test. */
  function LabelOf(rv: Rule, atoms: seq<string>, asWritten: bool): string
    decreases |atoms|
  {
    if |atoms| == 0 then ""
    else
      var a := atoms[|atoms| - 1];
      LabelOf(rv, atoms[..|atoms| - 1], asWritten) + Written(if asWritten then AtomSymbolAsWritten(rv, a) else AtomSymbol(rv, a))
  }

  /** `rule_to_label(rulevalues, atoms)`: `for atom in sorted(atoms)` appending to `lb`. */
  method RuleToLabel(rv: Rule, atoms: set<string>, asWritten: bool) returns (lb: string)
    ensures lb == LabelOf(rv, SortedStrings(atoms), asWritten)
  {
    var sorted := SortedStrings(atoms);
    lb := "";
    for i := 0 to |sorted|
      invariant lb == LabelOf(rv, sorted[..i], asWritten)
    {
      assert sorted[..i + 1][..i] == sorted[..i];
      var atom := sorted[i];
      var o := if asWritten then AtomSymbolAsWritten(rv, atom) else AtomSymbol(rv, atom);
      if o.Some? {
        lb := lb + [o.value];
      }
    }
    assert sorted[..|sorted|] == sorted;
  }

  /** A rule that gives every atom it mentions a role writes one symbol per atom. */
  lemma {:induction false} LabelOfLength(rv: Rule, atoms: seq<string>, asWritten: bool)
    requires forall a :: a in rv.atoms ==> a in rv.phead || a in rv.nhead || a in rv.pbody || a in rv.nbody
    ensures |LabelOf(rv, atoms, asWritten)| == |atoms|
    decreases |atoms|
  {
    if |atoms| > 0 {
      LabelOfLength(rv, atoms[..|atoms| - 1], asWritten);
    }
  }

  /** The symbols of `LabelOf`, position by position, when every atom has a role. */
  lemma {:induction false} LabelOfAt(rv: Rule, atoms: seq<string>, asWritten: bool, i: nat)
    requires forall a :: a in rv.atoms ==> a in rv.phead || a in rv.nhead || a in rv.pbody || a in rv.nbody
    requires i < |atoms|
    ensures |LabelOf(rv, atoms, asWritten)| == |atoms|
    ensures LabelOf(rv, atoms, asWritten)[i] == (if asWritten then AtomSymbolAsWritten(rv, atoms[i]) else AtomSymbol(rv, atoms[i])).value
    decreases |atoms|
  {
    LabelOfLength(rv, atoms, asWritten);
    var init := atoms[..|atoms| - 1];
    LabelOfLength(rv, init, asWritten);
    if i < |init| {
      LabelOfAt(rv, init, asWritten, i);
    }
  }

  // ---------------------------------------------------------------- label_to_ruledict

  /** The atom of position `idx`: `atomset[idx]`, or `x<len(label) - idx - 1>` without an atom list. */
  function AtomName(lbl: string, atomset: seq<string>, idx: nat): string
    requires idx < |lbl| && (|atomset| == 0 || idx < |atomset|)
  {
    if |atomset| == 0 then "x" + Decimal(|lbl| - idx - 1) else atomset[idx]
  }

  /** The roles a label gives the atoms `names` (one per position): `0` negative body, `1` both heads, and so on. */
  function RuleOf(lbl: string, names: seq<string>): (rv: Rule)
    requires |names| == |lbl|
  {
    var n := |lbl|;
    Rule(set i | 0 <= i < n && lbl[i] != 'x' :: names[i],
         set i | 0 <= i < n && (lbl[i] == '1' || lbl[i] == 'z') :: names[i],
         set i | 0 <= i < n && (lbl[i] == '1' || lbl[i] == 'o') :: names[i],
         set i | 0 <= i < n && lbl[i] == '2' :: names[i],
         set i | 0 <= i < n && lbl[i] == '0' :: names[i])
  }

  /** The atom names `label_to_ruledict` uses: an IndexError when the atom list is shorter than the label. */
  function Names(lbl: string, atomset: seq<string>): (r: Result<seq<string>>)
    ensures r.Err? <==> 0 < |atomset| < |lbl|
    ensures r.Err? ==> r.fault == IndexError
    ensures r.Ok? ==> |r.value| == |lbl| && forall i :: 0 <= i < |lbl| ==> r.value[i] == AtomName(lbl, atomset, i)
  {
    if |atomset| == 0 then Ok(seq(|lbl|, i requires 0 <= i < |lbl| => AtomName(lbl, atomset, i)))
    else if |atomset| < |lbl| then Err(IndexError)
    else Ok(atomset[..|lbl|])
  }

  /** One round of `for idx, val in enumerate(label)`: the atom joins the sets its symbol names. */
  function AddSymbol(rv: Rule, val: char, atom: string): Rule
  {
    Rule(if val != 'x' then rv.atoms + {atom} else rv.atoms,
         if val == '1' || val == 'z' then rv.phead + {atom} else rv.phead,
         if val == '1' || val == 'o' then rv.nhead + {atom} else rv.nhead,
         if val == '2' then rv.pbody + {atom} else rv.pbody,
         if val == '0' then rv.nbody + {atom} else rv.nbody)
  }

  /** The first `j + 1` positions' roles, from the first `j`'s. */
  lemma RuleOfSnoc(lbl: string, names: seq<string>, j: nat)
    requires |names| == |lbl| && j + 1 == |lbl|
    ensures RuleOf(lbl, names) == AddSymbol(RuleOf(lbl[..j], names[..j]), lbl[j], names[j])
  {
    var a, b := RuleOf(lbl, names), AddSymbol(RuleOf(lbl[..j], names[..j]), lbl[j], names[j]);
    assert a.atoms == b.atoms;
    assert a.phead == b.phead;
    assert a.nhead == b.nhead;
    assert a.pbody == b.pbody;
    assert a.nbody == b.nbody;
  }

  /** The names the loop read, one per position, are the names of the label. */
  lemma NamesRead(lbl: string, atomset: seq<string>, ns: seq<string>)
    requires |ns| == |lbl| && (|atomset| == 0 || |lbl| <= |atomset|)
    requires forall i :: 0 <= i < |lbl| ==> ns[i] == AtomName(lbl, atomset, i)
    ensures Names(lbl, atomset) == Ok(ns)
  {
    var r := Names(lbl, atomset).value;
    assert |r| == |ns| && forall i :: 0 <= i < |r| ==> r[i] == ns[i];
    assert r == ns;
  }

  /** One more position of the label, as the loop reads it. */
  lemma RuleOfPrefix(lbl: string, ns: seq<string>, atom: string)
    requires |ns| < |lbl|
    ensures RuleOf(lbl[..|ns| + 1], ns + [atom]) == AddSymbol(RuleOf(lbl[..|ns|], ns), lbl[|ns|], atom)
  {
    var j := |ns|;
    RuleOfSnoc(lbl[..j + 1], ns + [atom], j);
    assert lbl[..j + 1][..j] == lbl[..j] && (ns + [atom])[..j] == ns;
  }

  /** `label_to_ruledict(label, atomset)` */
  method LabelToRuleDict(lbl: string, atomset: seq<string>) returns (r: Result<Rule>)
    ensures r.Err? <==> 0 < |atomset| < |lbl|
    ensures r.Err? ==> r.fault == IndexError
    ensures r.Ok? ==> r.value == RuleOf(lbl, Names(lbl, atomset).value)
  {
    var rv := Rule({}, {}, {}, {}, {});
    ghost var ns: seq<string> := [];
    for idx := 0 to |lbl|
      invariant |ns| == idx && rv == RuleOf(lbl[..idx], ns)
      invariant |atomset| > 0 ==> idx <= |atomset|
      invariant forall i :: 0 <= i < idx ==> (|atomset| == 0 || i < |atomset|) && ns[i] == AtomName(lbl, atomset, i)
    {
      if |atomset| > 0 && idx >= |atomset| {
        return Err(IndexError);
      }
      var atom := AtomName(lbl, atomset, idx);
      RuleOfPrefix(lbl, ns, atom);
      rv := AddSymbol(rv, lbl[idx], atom);
      ns := ns + [atom];
    }
    assert lbl[..|lbl|] == lbl;
    NamesRead(lbl, atomset, ns);
    return Ok(rv);
  }

  /** Distinct names carry exactly the roles of their own positions. */
  lemma RolesAt(lbl: string, names: seq<string>, i: nat)
    requires |names| == |lbl| && i < |lbl| && StringsIncreasing(names)
    ensures var rv := RuleOf(lbl, names);
      && (names[i] in rv.atoms <==> lbl[i] != 'x')
      && (names[i] in rv.phead <==> lbl[i] == '1' || lbl[i] == 'z')
      && (names[i] in rv.nhead <==> lbl[i] == '1' || lbl[i] == 'o')
      && (names[i] in rv.pbody <==> lbl[i] == '2')
      && (names[i] in rv.nbody <==> lbl[i] == '0')
  {
    assert forall j :: 0 <= j < i ==> names[j] != names[i];
    assert forall j :: i < j < |lbl| ==> names[i] != names[j];
  }

  /**
   * Reading a label into roles over the sorted atoms and writing it back gives the label
   * again, when there is one atom per position: every symbol names a distinct atom's
   * roles, and `rule_to_label` writes the symbol of exactly those roles.
   */
  lemma RuleLabelRoundTrip(lbl: string, atoms: set<string>)
    requires (forall i :: 0 <= i < |lbl| ==> IsSymbol(lbl[i])) && |lbl| == |atoms|
    ensures Names(lbl, SortedStrings(atoms)).Ok?
    ensures LabelOf(RuleOf(lbl, Names(lbl, SortedStrings(atoms)).value), SortedStrings(atoms), false) == lbl
  {
    var sorted := SortedStrings(atoms);
    SortedStringsLength(atoms);
    SortedStringsIncreasing(atoms);
    var names := Names(lbl, sorted).value;
    assert names == sorted by {
      if |sorted| > 0 {
        assert names == sorted[..|lbl|];
      }
    }
    var rv := RuleOf(lbl, sorted);
    forall a | a in rv.atoms ensures a in rv.phead || a in rv.nhead || a in rv.pbody || a in rv.nbody {
      var i :| 0 <= i < |lbl| && lbl[i] != 'x' && sorted[i] == a;
      RolesAt(lbl, sorted, i);
    }
    var out := LabelOf(rv, sorted, false);
    LabelOfLength(rv, sorted, false);
    forall i | 0 <= i < |lbl| ensures out[i] == lbl[i] {
      LabelOfAt(rv, sorted, false, i);
      RolesAt(lbl, sorted, i);
    }
  }

  /**
   * minish-hat.py's test `atom in phead and nhead` breaks the round trip: the label `zo`
   * over the atoms `a`, `b` reads as `a` in the positive head and `b` in the negative
   * head, and writes back as `1o`.
   */
  lemma RuleLabelAsWrittenBreaks()
    ensures Names("zo", SortedStrings({"a", "b"})).Ok?
    ensures LabelOf(RuleOf("zo", Names("zo", SortedStrings({"a", "b"})).value), SortedStrings({"a", "b"}), true) == "1o"
  {
    var atoms: set<string> := {"a", "b"};
    SortedAB();
    var sorted := SortedStrings(atoms);
    SortedStringsIncreasing(atoms);
    var rv := RuleOf("zo", sorted);
    RolesAt("zo", sorted, 0);
    RolesAt("zo", sorted, 1);
    assert rv.nhead != {};
    forall a | a in rv.atoms ensures a in rv.phead || a in rv.nhead || a in rv.pbody || a in rv.nbody {
      var i :| 0 <= i < 2 && "zo"[i] != 'x' && sorted[i] == a;
      RolesAt("zo", sorted, i);
    }
    var out := LabelOf(rv, sorted, true);
    LabelOfAt(rv, sorted, true, 0);
    LabelOfAt(rv, sorted, true, 1);
    assert out == [out[0], out[1]];
  }

  /** The atoms `a`, `b` sorted. */
  lemma SortedAB()
    ensures SortedStrings({"a", "b"}) == ["a", "b"]
  {
    var atoms: set<string> := {"a", "b"};
    var sorted := SortedStrings(atoms);
    SortedStringsLength(atoms);
    SortedStringsIncreasing(atoms);
    assert sorted[0] in atoms && sorted[1] in atoms && sorted[0] != sorted[1];
    assert LexLe(sorted[0], sorted[1]) && !LexLe("b", "a");
  }
}
