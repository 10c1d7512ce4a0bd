/**
 * The pair loop shared by minish_hat.py, minish-hat.py and minish-ruleset.py: the implicant
 * table is built from the input labels, then each round expands partially adjacent
 * aggregates into their minterms and merges adjacent unmarked implicants, until a round
 * changes nothing.
 */
module Pipeline {
  import opened Wrappers
  import opened Octal
  import opened Codec
  import opened Weights
  import opened Expand
  import opened Adjacency
  import opened Keys
  import opened Implicants
  import Text
  import Minterms

  /** Which script runs the loop. */
  datatype Variant =
    | Hat      // minish_hat.py: guarded check_adjacent, count-based check_partial_adj, buckets 1 or 2 apart
    | HatDash  // minish-hat.py: mask-based check_partial_adj, consecutive buckets 1 apart
    | Ruleset  // minish-ruleset.py: as HatDash, and the expansion step runs in every round

  /** The adjacency table the variant buckets by. */
  function AdjTable(v: Variant): Table
  {
    if v == Hat then HatAdjval else Adjval
  }

  /** The variant's `check_partial_adj`. */
  function PartialPair(v: Variant, a: nat, b: nat): bool
  {
    if v == Hat then PartialAdjacent(a, b) else MaskedPartialAdjacent(a, b)
  }

  /** `get_weight(k) > 0`: the key holds an aggregate symbol. */
  predicate Aggregated(k: nat)
  {
    KeyWeight(Weight, k).Ok? && KeyWeight(Weight, k).value > 0
  }

  /** A minterm key has no aggregate symbol. */
  lemma ConcreteNotAggregated(c: nat, n: nat)
    requires ConcreteKey(c, n)
    ensures KeyWeight(Weight, c) == Ok(0)
  {
    ConcreteDecodes(c, n);
    var lbl := Decode(Pipeline, c).value;
    WeightOfLabel(Weight, lbl);
    WeightZeroIffConcrete(lbl);
  }

  /** Every minterm any entry covers. */
  ghost function AllCovers(entries: map<nat, Implicant>): set<nat>
  {
    set k, c | k in entries && c in entries[k].covers :: c
  }

  /** The minterms the entries of the keys `ks` cover. */
  ghost function CoversOf(entries: map<nat, Implicant>, ks: seq<nat>): set<nat>
  {
    if |ks| == 0 then {}
    else CoversOf(entries, ks[..|ks| - 1]) + (if ks[|ks| - 1] in entries then entries[ks[|ks| - 1]].covers else {})
  }

  /** Walking every key of the table collects every covered minterm. */
  lemma {:induction false} CoversOfAll(entries: map<nat, Implicant>, ks: seq<nat>)
    ensures CoversOf(entries, ks) == set k, c | k in ks && k in entries && c in entries[k].covers :: c
    decreases |ks|
  {
    if |ks| > 0 {
      var init := ks[..|ks| - 1];
      CoversOfAll(entries, init);
      assert forall k :: k in ks <==> k in init || k == ks[|ks| - 1];
    }
  }

  /** The covers of an input label: its countermodels if it holds an aggregate, else its own key. */
  function LabelCovers(m: string): (r: seq<nat>)
    requires IsLabel(m)
    ensures CoversExactly(Encode(Pipeline, m).value, set c | c in r, |m|)
  {
    LabelKeyOfLabel(m);
    if IsConcrete(m) then
      ConcreteOfLabel(m);
      ConcreteCoversItself(Encode(Pipeline, m).value, |m|);
      [Encode(Pipeline, m).value]
    else
      CountermodelsExactly(m);
      Countermodels(m).value
  }

  // ---------------------------------------------------------------- building the table

  /** The `for c in covers` loop gathering the totalizations of the minterms `covers`. */
  method TotalCovers(covers: seq<nat>, ghost n: nat) returns (totalcovers: set<nat>)
    requires forall j :: 0 <= j < |covers| ==> ConcreteKey(covers[j], n)
    ensures TotalCoversExactly(set c | c in covers, (set c | c in covers) + totalcovers)
  {
    totalcovers := {};
    for i := 0 to |covers|
      invariant TotalCoversExactly(set c | c in covers[..i], (set c | c in covers[..i]) + totalcovers)
    {
      var ts := MintermTotalization(covers[i], n);
      ghost var before := covers[..i];
      ghost var after := covers[..i + 1];
      assert after == before + [covers[i]];
      ghost var cb, ca := set c | c in before, set c | c in after;
      assert ca == cb + {covers[i]};
      TotalCoversUnion(cb, cb + totalcovers, {covers[i]}, {covers[i]} + ts);
      assert (cb + totalcovers) + ({covers[i]} + ts) == ca + (totalcovers + ts);
      totalcovers := totalcovers + ts;
    }
    assert covers[..|covers|] == covers;
  }

  /**
   * The entry of one input label (minish_hat.py:408-424): its countermodels when it holds
   * an aggregate, itself otherwise, and those minterms with their totalizations.
   */
  method LabelEntry(m: string) returns (id: nat, e: Implicant, aggregated: bool)
    requires IsLabel(m)
    ensures Encode(Pipeline, m) == Ok(id)
    ensures WellFormed(id, e, |m|) && !e.marked
    ensures aggregated <==> !IsConcrete(m)
    ensures IsConcrete(m) ==> e.covers == {id}
  {
    var n := |m|;
    var r := LabelToOctal(Pipeline, m);
    LabelKeyOfLabel(m);
    id := r.value;
    var w := LaneSum(Weight, id);
    WeightOfLabel(Weight, m);
    WeightZeroIffConcrete(m);
    aggregated := w.value > 0;
    var covers: seq<nat>;
    if aggregated {
      CountermodelsExactly(m);
      covers := Countermodels(m).value;
    } else {
      covers := [id];
    }
    assert covers == LabelCovers(m);
    var cs := set c | c in covers;
    var totalcovers := TotalCovers(covers, n);
    e := Implicant(false, cs, cs + totalcovers);
  }

  /** `label_to_octal` of a label, which cannot fail. */
  function KeyOfLabel(l: string): (k: nat)
    requires IsLabel(l)
    ensures Encode(Pipeline, l) == Ok(k)
  {
    LabelKeyOfLabel(l);
    Encode(Pipeline, l).value
  }

  /** One round of `for m in labels`: the label's entry replaces any entry of its key. */
  method AddLabel(table: MintermTable, m: string, ghost n: nat) returns (aggregated: bool)
    requires IsLabel(m) && |m| == n && table.Valid(n)
    modifies table
    ensures table.Valid(n)
    ensures table.entries.Keys == old(table.entries.Keys) + {KeyOfLabel(m)}
    ensures !table.entries[KeyOfLabel(m)].marked
    ensures forall k :: k in old(table.entries) && k != KeyOfLabel(m) ==> table.entries[k] == old(table.entries[k])
    ensures aggregated <==> !IsConcrete(m)
  {
    var id, e;
    id, e, aggregated := LabelEntry(m);
    AllWellFormedPut(table.entries, id, e, n);
    table.Put(id, e);
  }

  /** What the first `i + 1` labels hold, from what the first `i` hold. */
  lemma LabelsSnoc(labels: seq<string>, i: nat)
    requires i < |labels| && forall l :: l in labels ==> IsLabel(l)
    ensures (set l | l in labels[..i + 1] :: KeyOfLabel(l)) == (set l | l in labels[..i] :: KeyOfLabel(l)) + {KeyOfLabel(labels[i])}
    ensures (exists l :: l in labels[..i + 1] && !IsConcrete(l)) <==> (exists l :: l in labels[..i] && !IsConcrete(l)) || !IsConcrete(labels[i])
  {
    assert labels[..i + 1] == labels[..i] + [labels[i]];
  }

  /**
   * `minterm_dict` built from the input labels, all of width `n`: one unmarked entry per
   * key of a label; `have_aggr` is set when some label holds an aggregate.
   */
  method BuildTable(labels: seq<string>, ghost n: nat) returns (table: MintermTable, haveAggr: bool)
    requires forall l :: l in labels ==> IsLabel(l) && |l| == n
    ensures fresh(table) && table.Valid(n)
    ensures table.entries.Keys == set l | l in labels :: KeyOfLabel(l)
    ensures forall k :: k in table.entries ==> !table.entries[k].marked
    ensures haveAggr <==> exists l :: l in labels && !IsConcrete(l)
  {
    table := new MintermTable();
    haveAggr := false;
    for i := 0 to |labels|
      invariant table.Valid(n)
      invariant table.entries.Keys == set l | l in labels[..i] :: KeyOfLabel(l)
      invariant forall k :: k in table.entries ==> !table.entries[k].marked
      invariant haveAggr <==> exists l :: l in labels[..i] && !IsConcrete(l)
    {
      LabelsSnoc(labels, i);
      ghost var entries := table.entries;
      var aggregated := AddLabel(table, labels[i], n);
      if aggregated {
        haveAggr := true;
      }
      forall k | k in table.entries ensures !table.entries[k].marked {
        if k != KeyOfLabel(labels[i]) {
          assert k in entries.Keys;
        }
      }
    }
    assert labels[..|labels|] == labels;
  }

  // ---------------------------------------------------------------- parse_input of minish-ruleset.py

  /** The lines that `re.match('^[012ozx]+\s*$', line)` accepts, stripped, in order. */
  function RulesetLabels(lines: seq<string>): (r: seq<string>)
    ensures forall i :: 0 <= i < |r| ==> IsLabel(r[i])
    decreases |lines|
  {
    if |lines| == 0 then []
    else
      var line := lines[|lines| - 1];
      RulesetLabels(lines[..|lines| - 1]) + if Minterms.InputLine(Minterms.Old, line) then [StrippedLabel(line)] else []
  }

  /** An accepted line strips to a label. */
  function StrippedLabel(line: string): (l: string)
    requires Minterms.InputLine(Minterms.Old, line)
    ensures l == Text.Strip(line) && IsLabel(l)
  {
    Minterms.InputLineStrip(Minterms.Old, line);
    Text.Strip(line)
  }

  /** A label is read exactly from an accepted line that strips to it. */
  lemma {:induction false} RulesetLabelsMember(lines: seq<string>, l: string)
    ensures l in RulesetLabels(lines) <==> exists i :: 0 <= i < |lines| && Minterms.InputLine(Minterms.Old, lines[i]) && Text.Strip(lines[i]) == l
    decreases |lines|
  {
    if |lines| > 0 {
      var init := lines[..|lines| - 1];
      RulesetLabelsMember(init, l);
      assert forall i :: 0 <= i < |init| ==> init[i] == lines[i];
    }
  }

  /** The keys of the labels of `lines`. */
  function RulesetKeys(lines: seq<string>): set<nat>
  {
    var labels := RulesetLabels(lines);
    set i | 0 <= i < |labels| :: KeyOfLabel(labels[i])
  }

  /** An accepted line adds its label's key, any other line nothing. */
  lemma RulesetKeysSnoc(lines: seq<string>, i: nat)
    requires i < |lines|
    ensures Minterms.InputLine(Minterms.Old, lines[i]) ==> RulesetKeys(lines[..i + 1]) == RulesetKeys(lines[..i]) + {KeyOfLabel(StrippedLabel(lines[i]))}
    ensures !Minterms.InputLine(Minterms.Old, lines[i]) ==> RulesetKeys(lines[..i + 1]) == RulesetKeys(lines[..i])
  {
    var prefix := lines[..i + 1];
    assert prefix[..i] == lines[..i] && prefix[i] == lines[i];
    var before := RulesetLabels(lines[..i]);
    var after := RulesetLabels(prefix);
    if Minterms.InputLine(Minterms.Old, lines[i]) {
      var l := StrippedLabel(lines[i]);
      assert after == before + [l];
      assert after[|before|] == l;
      assert forall j :: 0 <= j < |before| ==> after[j] == before[j];
    } else {
      assert after == before;
    }
  }

  /**
   * `parse_input(file_contents)` of minish-ruleset.py, with all label lines of width `n`:
   * every accepted line stores its label's entry, a later line replacing an earlier one of
   * the same key, and every other line is skipped.
   */
  method ParseRulesetInput(text: string, ghost n: nat) returns (table: MintermTable)
    requires forall line :: line in Text.Split(text, "\n") && Minterms.InputLine(Minterms.Old, line) ==> |Text.Strip(line)| == n
    ensures fresh(table) && table.Valid(n)
    ensures table.entries.Keys == RulesetKeys(Text.Split(text, "\n"))
    ensures forall k :: k in table.entries ==> !table.entries[k].marked
  {
    table := new MintermTable();
    var lines := Text.Split(text, "\n");
    for i := 0 to |lines|
      invariant table.Valid(n)
      invariant table.entries.Keys == RulesetKeys(lines[..i])
      invariant forall k :: k in table.entries ==> !table.entries[k].marked
    {
      RulesetKeysSnoc(lines, i);
      if Minterms.InputLine(Minterms.Old, lines[i]) {
        var m := StrippedLabel(lines[i]);
        ghost var entries := table.entries;
        var _ := AddLabel(table, m, n);
        forall k | k in table.entries ensures !table.entries[k].marked {
          if k != KeyOfLabel(m) {
            assert k in entries.Keys;
          }
        }
      }
    }
    assert lines[..|lines|] == lines;
  }

  /**
   * `initial_minterms` (minish_hat.py:426-437): every minterm some entry covers, mapped
   * to itself with its totalizations.
   */
  method InitialMinterms(table: MintermTable, ghost n: nat) returns (initial: map<nat, set<nat>>)
    requires table.Valid(n)
    ensures initial.Keys == AllCovers(table.entries)
    ensures forall c :: c in initial ==> TotalCoversExactly({c}, initial[c]) && ConcreteKey(c, n)
  {
    initial := map[];
    for i := 0 to |table.order|
      invariant initial.Keys == CoversOf(table.entries, table.order[..i])
      invariant forall c :: c in initial ==> TotalCoversExactly({c}, initial[c]) && ConcreteKey(c, n)
    {
      var mk := table.order[i];
      WellFormedCovers(mk, table.entries[mk], n);
      initial := AddMinterms(initial, table.entries[mk].covers, n);
      assert table.order[..i + 1][..i] == table.order[..i];
    }
    assert table.order[..|table.order|] == table.order;
    CoversOfAll(table.entries, table.order);
  }

  /** The inner `for c in covers` loop of `initial_minterms`: each minterm with its totalizations. */
  method AddMinterms(initial: map<nat, set<nat>>, covers: set<nat>, ghost n: nat) returns (r: map<nat, set<nat>>)
    requires forall c :: c in initial ==> TotalCoversExactly({c}, initial[c]) && ConcreteKey(c, n)
    requires forall c :: c in covers ==> ConcreteKey(c, n)
    ensures r.Keys == initial.Keys + covers
    ensures forall c :: c in r ==> TotalCoversExactly({c}, r[c]) && ConcreteKey(c, n)
  {
    r := initial;
    var cs := covers;
    while cs != {}
      invariant cs <= covers
      invariant r.Keys == initial.Keys + (covers - cs)
      invariant forall c :: c in r ==> TotalCoversExactly({c}, r[c]) && ConcreteKey(c, n)
      decreases cs
    {
      var c :| c in cs;
      var ts := MintermTotalization(c, n);
      r := r[c := {c} + ts];
      cs := cs - {c};
    }
  }
}
