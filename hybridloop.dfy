/**
 * The weight-stepped pair loop of hybrid-minterms.py: `parse_input`, the reverse
 * dictionary, the default `maxstep`, and the `while adj_left and step <= maxstep` loop,
 * whose step `s` pairs the unmarked entries of weight `s` bucket by bucket of adjacency
 * value. Ids are sets of minterm ids (`frozenset`), labels are strings, and both
 * dictionaries keep their insertion order.
 */
module HybridLoop {
  import opened Wrappers
  import opened Codec
  import opened Text
  import opened HybridLabels
  import Expand
  import Minterms
  import Frontier
  import Pairing

  /** A `frozenset` of minterm ids. */
  type Ids = set<nat>

  /** A Python dictionary: its keys in insertion order, and what each key maps to. */
  datatype Dict<K(==), V> = Dict(order: seq<K>, items: map<K, V>)

  /** The order lists every key once and nothing else. */
  ghost predicate Ordered<K(!new), V>(d: Dict<K, V>)
  {
    Expand.NoDuplicates(d.order) && forall k :: k in d.order <==> k in d.items
  }

  /** Every key in the order has an entry. */
  ghost predicate Listed<K(!new), V>(d: Dict<K, V>)
  {
    forall k :: k in d.order ==> k in d.items
  }

  /** `d.update({k: v})`: a new key goes last, a key already there keeps its place. */
  function Put<K(==), V>(d: Dict<K, V>, k: K, v: V): Dict<K, V>
  {
    Dict(if k in d.items then d.order else d.order + [k], d.items[k := v])
  }

  /** An update keeps the dictionary ordered, and a key already there keeps its place. */
  lemma PutOrdered<K(!new), V>(d: Dict<K, V>, k: K, v: V)
    requires Ordered(d)
    ensures Ordered(Put(d, k, v)) && Put(d, k, v).items == d.items[k := v]
    ensures k in d.items ==> Put(d, k, v).order == d.order
  {
  }

  /** What follows position `j` of a sequence is its element there and what follows that. */
  lemma SliceCons<T>(s: seq<T>, j: nat)
    requires j < |s|
    ensures forall x :: x in s[j..] <==> x == s[j] || x in s[j + 1..]
  {
    assert s[j..] == [s[j]] + s[j + 1..];
  }

  /** An entry of `input_dict`. */
  datatype Entry = Entry(lbl: string, mark: bool, weight: nat, adjval: nat)

  /** `input_dict` and `rev_dict`. */
  datatype State = State(input: Dict<Ids, Entry>, rev: Dict<string, Ids>)

  /** Both dictionaries list only keys they hold. */
  ghost predicate Sound(st: State)
  {
    Listed(st.input) && Listed(st.rev)
  }

  /**
   * The entry `parse_input` and a merge store for a label: unmarked, with the label's
   * weight and adjacency value, evaluated in that order.
   */
  function NewEntry(lbl: string): (r: Result<Entry>)
    ensures r.Ok? ==> r.value.lbl == lbl && !r.value.mark && r.value.weight <= 2 * |lbl|
    ensures r.Err? ==> r.fault == KeyError || r.fault == ValueError
  {
    match LabelWeight(lbl)
    case Err(f) => Err(f)
    case Ok(w) =>
      match AdjVal(lbl)
      case Err(f) => Err(f)
      case Ok(a) => Ok(Entry(lbl, false, w, a))
  }

  /** An entry for a label of width `n`, its weight and adjacency value those of its label. */
  ghost predicate EntryOf(e: Entry, n: nat)
  {
    IsLabel(e.lbl) && |e.lbl| == n && NewEntry(e.lbl) == Ok(e.(mark := false))
  }

  // ---------------------------------------------------------------- parse_input

  /**
   * One line of `parse_input`: a line matching `^[012ozx]+\s*$` stores its stripped label
   * under the singleton of the label's id. It never raises, since such a line holds a label.
   */
  function ParseLine(d: Dict<Ids, Entry>, line: string): (r: Result<Dict<Ids, Entry>>)
    ensures r.Ok?
  {
    if !Minterms.InputLine(Minterms.Old, line) then Ok(d)
    else
      var m := Strip(line);
      Frontier.InputLineLabel(line);
      LabelMeasures(m);
      match Id(m)
      case Err(f) => Err(f)
      case Ok(i) =>
        match NewEntry(m)
        case Err(f) => Err(f)
        case Ok(e) => Ok(Put(d, {i}, e))
  }

  /** `parse_input` over the lines `lines`. */
  function ParseLines(lines: seq<string>): (r: Result<Dict<Ids, Entry>>)
    ensures r.Ok?
    decreases |lines|
  {
    if |lines| == 0 then Ok(Dict([], map[]))
    else match ParseLines(lines[..|lines| - 1])
      case Err(f) => Err(f)
      case Ok(d) => ParseLine(d, lines[|lines| - 1])
  }

  /** The keys of a table just parsed: one singleton per entry, the id of its label. */
  ghost predicate Singletons(d: Dict<Ids, Entry>)
  {
    forall k :: k in d.items ==> Id(d.items[k].lbl).Ok? && k == {Id(d.items[k].lbl).value}
  }

  /**
   * `parse_input` never raises: every matching line holds a label. Over labels of width
   * `n` the table lists every label once, under the singleton of its id, unmarked and
   * with its weight and adjacency value.
   */
  lemma {:induction false} ParseLinesMeaning(lines: seq<string>, n: nat)
    requires Frontier.Widths(lines, n)
    ensures Ordered(ParseLines(lines).value) && Singletons(ParseLines(lines).value)
    ensures Entries(ParseLines(lines).value, n)
    decreases |lines|
  {
    if |lines| > 0 {
      var init, line := lines[..|lines| - 1], lines[|lines| - 1];
      assert Frontier.Widths(init, n) by {
        forall j | 0 <= j < |init| && Minterms.InputLine(Minterms.Old, init[j]) ensures Minterms.SymbolSpan(Minterms.Old, init[j]) == n {
          assert init[j] == lines[j];
        }
      }
      ParseLinesMeaning(init, n);
      var d := ParseLines(init).value;
      if Minterms.InputLine(Minterms.Old, line) {
        Frontier.InputLineLabel(line);
        var m := Strip(line);
        LabelMeasures(m);
        assert ParseLines(lines).value == Put(d, {Id(m).value}, NewEntry(m).value);
        PutSingleton(d, m);
        PutEntry(d, m, n);
      } else {
        assert ParseLines(lines) == ParseLines(init);
      }
    }
  }

  /** Every entry is unmarked and that of a label of width `n`. */
  ghost predicate Entries(d: Dict<Ids, Entry>, n: nat)
  {
    forall k :: k in d.items ==> EntryOf(d.items[k], n) && !d.items[k].mark
  }

  /** Storing a label under the singleton of its id keeps the keys singletons of their labels' ids. */
  lemma PutSingleton(d: Dict<Ids, Entry>, m: string)
    requires Ordered(d) && Singletons(d) && Id(m).Ok? && NewEntry(m).Ok?
    ensures Ordered(Put(d, {Id(m).value}, NewEntry(m).value)) && Singletons(Put(d, {Id(m).value}, NewEntry(m).value))
  {
    PutOrdered(d, {Id(m).value}, NewEntry(m).value);
  }

  /** Storing the fresh entry of a label of width `n` keeps every entry unmarked and of width `n`. */
  lemma PutEntry(d: Dict<Ids, Entry>, m: string, n: nat)
    requires Entries(d, n) && IsLabel(m) && |m| == n && Id(m).Ok? && NewEntry(m).Ok?
    ensures Entries(Put(d, {Id(m).value}, NewEntry(m).value), n)
  {
  }

  /** The `for line in file_contents.split('\n')` loop of `parse_input`. */
  method ParseInput(text: string) returns (d: Dict<Ids, Entry>)
    ensures ParseLines(Split(text, "\n")) == Ok(d)
  {
    var lines := Split(text, "\n");
    d := Dict([], map[]);
    for j := 0 to |lines|
      invariant ParseLines(lines[..j]) == Ok(d)
    {
      assert lines[..j + 1][..j] == lines[..j];
      var line := lines[j];
      if Minterms.InputLine(Minterms.Old, line) {
        var m := Strip(line);
        Frontier.InputLineLabel(line);
        LabelMeasures(m);
        var i := Id(m).value;
        var e := NewEntry(m).value;
        d := Put(d, {i}, e);
      }
    }
    assert lines[..|lines|] == lines;
  }

  // ---------------------------------------------------------------- rev_dict and maxstep

  /** `{v['label']: k for k, v in input_dict.items()}` over the keys `ks`. */
  function RevOf(ks: seq<Ids>, items: map<Ids, Entry>): (r: Dict<string, Ids>)
    requires forall k :: k in ks ==> k in items
    decreases |ks|
  {
    if |ks| == 0 then Dict([], map[])
    else
      var init, k := ks[..|ks| - 1], ks[|ks| - 1];
      assert forall j :: j in init ==> j in ks;
      Put(RevOf(init, items), items[k].lbl, k)
  }

  /**
   * `rev_dict` lists each label once, maps it to a key whose entry carries it, holds the
   * label of every key, and begins with the label of the first key.
   */
  lemma RevOfMeaning(ks: seq<Ids>, items: map<Ids, Entry>)
    requires forall k :: k in ks ==> k in items
    ensures Ordered(RevOf(ks, items))
    ensures forall l :: l in RevOf(ks, items).items ==> RevOf(ks, items).items[l] in items && items[RevOf(ks, items).items[l]].lbl == l
    ensures forall k :: k in ks ==> items[k].lbl in RevOf(ks, items).items
    ensures |ks| > 0 ==> |RevOf(ks, items).order| > 0 && RevOf(ks, items).order[0] == items[ks[0]].lbl
  {
    RevOfOrdered(ks, items);
    RevOfItems(ks, items);
    RevOfFirst(ks, items);
  }

  /** `rev_dict` lists each label once. */
  lemma {:induction false} RevOfOrdered(ks: seq<Ids>, items: map<Ids, Entry>)
    requires forall k :: k in ks ==> k in items
    ensures Ordered(RevOf(ks, items))
    decreases |ks|
  {
    if |ks| > 0 {
      var init, k := ks[..|ks| - 1], ks[|ks| - 1];
      assert forall j :: j in init ==> j in ks;
      RevOfOrdered(init, items);
      PutOrdered(RevOf(init, items), items[k].lbl, k);
    }
  }

  /** `rev_dict` maps each label to a key carrying it, and holds the label of every key. */
  lemma {:induction false} RevOfItems(ks: seq<Ids>, items: map<Ids, Entry>)
    requires forall k :: k in ks ==> k in items
    ensures forall l :: l in RevOf(ks, items).items ==> RevOf(ks, items).items[l] in items && items[RevOf(ks, items).items[l]].lbl == l
    ensures forall k :: k in ks ==> items[k].lbl in RevOf(ks, items).items
    decreases |ks|
  {
    if |ks| > 0 {
      var init, k := ks[..|ks| - 1], ks[|ks| - 1];
      assert forall j :: j in init ==> j in ks;
      assert forall j :: j in ks ==> j in init || j == k;
      RevOfItems(init, items);
      assert RevOf(ks, items).items == RevOf(init, items).items[items[k].lbl := k];
    }
  }

  /** `rev_dict` begins with the label of the first key. */
  lemma {:induction false} RevOfFirst(ks: seq<Ids>, items: map<Ids, Entry>)
    requires forall k :: k in ks ==> k in items
    ensures |ks| > 0 ==> |RevOf(ks, items).order| > 0 && RevOf(ks, items).order[0] == items[ks[0]].lbl
    decreases |ks|
  {
    if |ks| > 1 {
      var init, k := ks[..|ks| - 1], ks[|ks| - 1];
      assert forall j :: j in init ==> j in ks;
      RevOfFirst(init, items);
      assert init[0] == ks[0];
    }
  }

  /** The dictionary comprehension that builds `rev_dict`. */
  method ReverseDict(input: Dict<Ids, Entry>) returns (rev: Dict<string, Ids>)
    requires Listed(input)
    ensures rev == RevOf(input.order, input.items)
  {
    rev := Dict([], map[]);
    for j := 0 to |input.order|
      invariant rev == RevOf(input.order[..j], input.items)
    {
      assert input.order[..j + 1][..j] == input.order[..j];
      var k := input.order[j];
      rev := Put(rev, input.items[k].lbl, k);
    }
    assert input.order[..|input.order|] == input.order;
  }

  /**
   * `maxstep`: one less than `--maxstep` when given, otherwise twice the length of the
   * first label in `rev_dict`, an IndexError when there is none.
   */
  function MaxStep(arg: Option<int>, rev: Dict<string, Ids>): (r: Result<int>)
    ensures r.Err? <==> arg.None? && |rev.order| == 0
    ensures r.Ok? && arg.Some? ==> r.value == arg.value - 1
    ensures r.Ok? && arg.None? ==> r.value == 2 * |rev.order[0]|
  {
    match arg
    case Some(m) => Ok(m - 1)
    case None => if |rev.order| == 0 then Err(IndexError) else Ok(|rev.order[0]| * 2)
  }

  // ---------------------------------------------------------------- one step

  /** The keys of `ks` whose entries are unmarked and of weight `step`, in order. */
  function Weighing(ks: seq<Ids>, items: map<Ids, Entry>, step: int): (r: seq<Ids>)
    requires forall k :: k in ks ==> k in items
    decreases |ks|
  {
    if |ks| == 0 then []
    else
      var init, k := ks[..|ks| - 1], ks[|ks| - 1];
      assert forall j :: j in init ==> j in ks;
      var rest := Weighing(init, items, step);
      if items[k].weight == step && !items[k].mark then rest + [k] else rest
  }

  /** The selected keys are the unmarked keys of weight `step`, each once when `ks` lists each once. */
  lemma {:induction false} WeighingMeaning(ks: seq<Ids>, items: map<Ids, Entry>, step: int)
    requires forall k :: k in ks ==> k in items
    ensures forall k :: k in Weighing(ks, items, step) <==> k in ks && items[k].weight == step && !items[k].mark
    ensures Expand.NoDuplicates(ks) ==> Expand.NoDuplicates(Weighing(ks, items, step))
    decreases |ks|
  {
    if |ks| > 0 {
      var init, k := ks[..|ks| - 1], ks[|ks| - 1];
      assert forall j :: j in init ==> j in ks;
      assert forall j :: j in ks ==> j in init || j == k;
      assert Expand.NoDuplicates(ks) ==> k !in init && Expand.NoDuplicates(init);
      WeighingMeaning(init, items, step);
    }
  }

  /**
   * `selected_minterms`: the unmarked entries of weight `step`, in the table's order and
   * with the entries as they stand when the step begins.
   */
  function Selected(d: Dict<Ids, Entry>, step: int): (r: Dict<Ids, Entry>)
    requires Listed(d)
    ensures Listed(r)
  {
    WeighingMeaning(d.order, d.items, step);
    Dict(Weighing(d.order, d.items, step), map k | k in d.items && d.items[k].weight == step && !d.items[k].mark :: d.items[k])
  }

  /**
   * `selected_minterms` holds exactly the unmarked entries of weight `step`, as they stand,
   * each listed once when the table lists each key once.
   */
  lemma SelectedMeaning(d: Dict<Ids, Entry>, step: int)
    requires Listed(d)
    ensures Ordered(d) ==> Ordered(Selected(d, step))
    ensures forall k :: k in Selected(d, step).items <==> k in d.items && d.items[k].weight == step && !d.items[k].mark
    ensures forall k :: k in Selected(d, step).items ==> Selected(d, step).items[k] == d.items[k]
  {
    WeighingMeaning(d.order, d.items, step);
  }

  /** The value `adj_vals.setdefault(a, list())` returns. */
  function Bucket(d: Dict<nat, seq<Ids>>, a: nat): seq<Ids>
  {
    if a in d.items then d.items[a] else []
  }

  /**
   * `adj_vals`: for each adjacency value among the keys `ks`, in the order the values first
   * appear, the keys holding it in their order.
   */
  function Buckets(ks: seq<Ids>, items: map<Ids, Entry>): (r: Dict<nat, seq<Ids>>)
    requires forall k :: k in ks ==> k in items
    decreases |ks|
  {
    if |ks| == 0 then Dict([], map[])
    else
      var init, k := ks[..|ks| - 1], ks[|ks| - 1];
      assert forall j :: j in init ==> j in ks;
      var d := Buckets(init, items);
      Put(d, items[k].adjval, Bucket(d, items[k].adjval) + [k])
  }

  /**
   * `adj_vals` lists each adjacency value once, every key in the bucket of a value has that
   * value, and every key's value has a bucket.
   */
  lemma {:induction false} BucketsMeaning(ks: seq<Ids>, items: map<Ids, Entry>)
    requires forall k :: k in ks ==> k in items
    ensures Ordered(Buckets(ks, items))
    ensures forall a, j :: a in Buckets(ks, items).items && 0 <= j < |Buckets(ks, items).items[a]| ==>
      Buckets(ks, items).items[a][j] in items && items[Buckets(ks, items).items[a][j]].adjval == a
    ensures forall k :: k in ks ==> items[k].adjval in Buckets(ks, items).items
    decreases |ks|
  {
    if |ks| > 0 {
      var init, k := ks[..|ks| - 1], ks[|ks| - 1];
      assert forall j :: j in init ==> j in ks;
      assert forall j :: j in ks ==> j in init || j == k;
      var d := Buckets(init, items);
      BucketsMeaning(init, items);
      PutOrdered(d, items[k].adjval, Bucket(d, items[k].adjval) + [k]);
    }
  }

  /** The `for key, value in selected_minterms.items()` loop that fills `adj_vals`. */
  method Population(sel: Dict<Ids, Entry>) returns (adj: Dict<nat, seq<Ids>>)
    requires Listed(sel)
    ensures adj == Buckets(sel.order, sel.items)
  {
    adj := Dict([], map[]);
    for j := 0 to |sel.order|
      invariant adj == Buckets(sel.order[..j], sel.items)
    {
      assert sel.order[..j + 1][..j] == sel.order[..j];
      var key := sel.order[j];
      var a := sel.items[key].adjval;
      adj := Put(adj, a, Bucket(adj, a) + [key]);
    }
    assert sel.order[..|sel.order|] == sel.order;
  }

  /** Every `(idx, idy)` with `idx` from `xs` and `idy` from `ys`, in the order of the two loops. */
  function Cross(xs: seq<Ids>, ys: seq<Ids>): (r: seq<(Ids, Ids)>)
    decreases |xs|
  {
    if |xs| == 0 then []
    else seq(|ys|, j requires 0 <= j < |ys| => (xs[0], ys[j])) + Cross(xs[1..], ys)
  }

  /** The two loops meet every pair of a key of `xs` and a key of `ys`, and no other. */
  lemma {:induction false} CrossMeaning(xs: seq<Ids>, ys: seq<Ids>)
    ensures forall p :: p in Cross(xs, ys) <==> p.0 in xs && p.1 in ys
    decreases |xs|
  {
    if |xs| > 0 {
      var row := seq(|ys|, j requires 0 <= j < |ys| => (xs[0], ys[j]));
      assert forall p :: p in row <==> p.0 == xs[0] && p.1 in ys by {
        forall p: (Ids, Ids) | p in row ensures p.0 == xs[0] && p.1 in ys {
          var j :| 0 <= j < |row| && row[j] == p;
        }
        forall p: (Ids, Ids) | p.0 == xs[0] && p.1 in ys ensures p in row {
          var j :| 0 <= j < |ys| && ys[j] == p.1;
          assert row[j] == p;
        }
      }
      assert forall z :: z in xs <==> z == xs[0] || z in xs[1..];
      CrossMeaning(xs[1..], ys);
      assert Cross(xs, ys) == row + Cross(xs[1..], ys);
    }
  }

  /**
   * The pairs the `for i in range(len(adj_vals_keys)-1)` loop checks, in its order: each
   * key of one bucket against each key of the next bucket in the sorted list `keys`,
   * whatever the difference of the two values.
   */
  function StepPairs(keys: seq<nat>, buckets: map<nat, seq<Ids>>): (r: seq<(Ids, Ids)>)
    requires forall a :: a in keys ==> a in buckets
    decreases |keys|
  {
    if |keys| < 2 then []
    else
      var init := keys[..|keys| - 1];
      assert forall a :: a in init ==> a in keys;
      StepPairs(init, buckets) + Cross(buckets[keys[|keys| - 2]], buckets[keys[|keys| - 1]])
  }

  /** Every pair checked joins a key of one bucket with a key of the next bucket in `keys`. */
  lemma {:induction false} StepPairsMeaning(keys: seq<nat>, buckets: map<nat, seq<Ids>>)
    requires forall a :: a in keys ==> a in buckets
    ensures forall p :: p in StepPairs(keys, buckets) ==>
      exists i :: 0 <= i < |keys| - 1 && p.0 in buckets[keys[i]] && p.1 in buckets[keys[i + 1]]
    decreases |keys|
  {
    if |keys| >= 2 {
      var init := keys[..|keys| - 1];
      assert forall a :: a in init ==> a in keys;
      var rest := StepPairs(init, buckets);
      var last := |keys| - 2;
      var cross := Cross(buckets[keys[last]], buckets[keys[last + 1]]);
      StepPairsMeaning(init, buckets);
      CrossMeaning(buckets[keys[last]], buckets[keys[last + 1]]);
      forall p: (Ids, Ids) | p in rest + cross
        ensures exists i :: 0 <= i < |keys| - 1 && p.0 in buckets[keys[i]] && p.1 in buckets[keys[i + 1]]
      {
        if p in rest {
          var i :| 0 <= i < |init| - 1 && p.0 in buckets[init[i]] && p.1 in buckets[init[i + 1]];
          assert init[i] == keys[i] && init[i + 1] == keys[i + 1];
        } else {
          assert p.0 in buckets[keys[last]] && p.1 in buckets[keys[last + 1]];
        }
      }
    }
  }

  /** Marking `k`: `input_dict[k]['mark'] = True`, a KeyError when there is no such entry. */
  function Mark(d: Dict<Ids, Entry>, k: Ids): (r: Result<Dict<Ids, Entry>>)
    ensures r.Err? <==> k !in d.items
    ensures r.Err? ==> r.fault == KeyError
    ensures r.Ok? ==> r.value.order == d.order && r.value.items == d.items[k := d.items[k].(mark := true)]
  {
    if k in d.items then Ok(Dict(d.order, d.items[k := d.items[k].(mark := true)])) else Err(KeyError)
  }

  /**
   * The `for mark in marked_ids` loop from position `j`: a KeyError exactly when one of
   * the ids is not in the table; otherwise those entries are marked and no other entry
   * changes.
   */
  function MarkFrom(d: Dict<Ids, Entry>, ks: seq<Ids>, j: nat): (r: Result<Dict<Ids, Entry>>)
    requires j <= |ks|
    ensures r.Ok? ==> r.value.order == d.order && r.value.items.Keys == d.items.Keys
    decreases |ks| - j
  {
    if j == |ks| then Ok(d)
    else match Mark(d, ks[j])
      case Err(f) => Err(f)
      case Ok(d1) => MarkFrom(d1, ks, j + 1)
  }

  /**
   * The marking loop from position `j` raises a KeyError exactly when one of the ids is not
   * in the table; otherwise it marks those entries and changes no other.
   */
  lemma {:induction false} MarkFromMeaning(d: Dict<Ids, Entry>, ks: seq<Ids>, j: nat)
    requires j <= |ks|
    ensures MarkFrom(d, ks, j).Err? <==> exists i :: j <= i < |ks| && ks[i] !in d.items
    ensures MarkFrom(d, ks, j).Err? ==> MarkFrom(d, ks, j).fault == KeyError
    ensures MarkFrom(d, ks, j).Ok? ==> forall k :: k in d.items ==>
      MarkFrom(d, ks, j).value.items[k] == if k in ks[j..] then d.items[k].(mark := true) else d.items[k]
    decreases |ks| - j
  {
    if j < |ks| && ks[j] in d.items {
      var d1 := Mark(d, ks[j]).value;
      MarkFromMeaning(d1, ks, j + 1);
      SliceCons(ks, j);
    }
  }

  /**
   * `get_similar_marks(position, label, rev_dict)` over the labels `ts`: the ids of the
   * labels similar to `lbl` at `p`, in order.
   */
  function SimilarMarks(p: nat, lbl: string, ts: seq<string>, rev: map<string, Ids>): (r: seq<Ids>)
    requires forall t :: t in ts ==> t in rev
    decreases |ts|
  {
    if |ts| == 0 then []
    else
      var init, t := ts[..|ts| - 1], ts[|ts| - 1];
      assert forall u :: u in init ==> u in ts;
      var rest := SimilarMarks(p, lbl, init, rev);
      if Similar(p, lbl, t) then rest + [rev[t]] else rest
  }

  /** `get_similar_marks` returns the ids of the labels of `ts` similar to `lbl` at `p`, and only ids of labels of `ts`. */
  lemma {:induction false} SimilarMarksMeaning(p: nat, lbl: string, ts: seq<string>, rev: map<string, Ids>)
    requires forall t :: t in ts ==> t in rev
    ensures forall k :: k in SimilarMarks(p, lbl, ts, rev) ==> exists t :: t in ts && rev[t] == k
    ensures forall t :: t in ts && Similar(p, lbl, t) ==> rev[t] in SimilarMarks(p, lbl, ts, rev)
    decreases |ts|
  {
    if |ts| > 0 {
      var init, t := ts[..|ts| - 1], ts[|ts| - 1];
      assert forall u :: u in init ==> u in ts;
      assert forall u :: u in ts ==> u in init || u == t;
      SimilarMarksMeaning(p, lbl, init, rev);
    }
  }

  /** `get_similar_marks` with its `for tlab in reverse_dict.keys()` loop. */
  method GetSimilarMarks(p: nat, lbl: string, rev: Dict<string, Ids>) returns (ret: seq<Ids>)
    requires Listed(rev)
    ensures ret == SimilarMarks(p, lbl, rev.order, rev.items)
  {
    ret := [];
    for j := 0 to |rev.order|
      invariant ret == SimilarMarks(p, lbl, rev.order[..j], rev.items)
    {
      assert rev.order[..j + 1][..j] == rev.order[..j];
      var tlab := rev.order[j];
      if Similar(p, lbl, tlab) {
        ret := ret + [rev.items[tlab]];
      }
    }
    assert rev.order[..|rev.order|] == rev.order;
  }

  /**
   * One pair `(idx, idy)` of the inner loop, with the labels read from `selected_minterms`
   * (`snap`): an adjacent pair stores the merged label under the union of the two ids in
   * both dictionaries, then an `x` merge marks every label similar to the merged one and
   * any other merge marks the operand `[idx, idy][p]`.
   */
  function TryPair(st: State, snap: map<Ids, Entry>, idx: Ids, idy: Ids): (r: Result<State>)
    requires Sound(st)
    ensures r.Ok? ==> Sound(r.value)
  {
    if idx !in snap || idy !in snap then Err(KeyError)
    else
      var lx, ly := snap[idx].lbl, snap[idy].lbl;
      match AdjacentOf(lx, ly)
      case Err(f) => Err(f)
      case Ok(v) => if v.NotAdjacent? then Ok(st) else Merge(st, idx, idy, lx, v)
  }

  /** The merge of an adjacent pair: `nlx` and `nid`, their entry, and the marks. */
  function Merge(st: State, idx: Ids, idy: Ids, lx: string, v: Check): (r: Result<State>)
    requires Sound(st) && v.Adjacent? && InRange(lx, v)
    ensures r.Ok? ==> Sound(r.value)
  {
    var nlx := Merged(lx, v.pos, v.sym);
    match NewEntry(nlx)
    case Err(f) => Err(f)
    case Ok(e) => MarkMerged(Store(st, idx + idy, e), nlx, idx, idy, v)
  }

  /** `input_dict.update({nid: entry})` and `rev_dict.update({nlx: nid})`. */
  function Store(st: State, nid: Ids, e: Entry): (r: State)
    requires Sound(st)
    ensures Sound(r)
  {
    State(Put(st.input, nid, e), Put(st.rev, e.lbl, nid))
  }

  /**
   * The marks after a merge at `v.pos` that produced `nlx`: an `x` merge marks the ids `get_similar_marks` finds in `rev_dict`, any other merge the
   * operand `[idx, idy][p]`.
   */
  function MarkMerged(st: State, nlx: string, idx: Ids, idy: Ids, v: Check): (r: Result<State>)
    requires Sound(st) && v.Adjacent? && v.side < 2
    ensures r.Ok? ==> Sound(r.value)
  {
    var marked := if v.sym == 'x' then MarkFrom(st.input, SimilarMarks(v.pos, nlx, st.rev.order, st.rev.items), 0)
                  else Mark(st.input, [idx, idy][v.side]);
    match marked
    case Err(f) => Err(f)
    case Ok(d) => Ok(State(d, st.rev))
  }

  /** The marking loop of an `x` merge. */
  method MarkEach(d: Dict<Ids, Entry>, ks: seq<Ids>) returns (r: Result<Dict<Ids, Entry>>)
    ensures r == MarkFrom(d, ks, 0)
  {
    var cur := d;
    for j := 0 to |ks|
      invariant MarkFrom(cur, ks, j) == MarkFrom(d, ks, 0)
    {
      var m := Mark(cur, ks[j]);
      if m.Err? {
        return Err(m.fault);
      }
      cur := m.value;
    }
    return Ok(cur);
  }

  /** The body of the `for idy in adj_vals[hw]` loop. */
  method MergePair(st: State, snap: map<Ids, Entry>, idx: Ids, idy: Ids) returns (r: Result<State>)
    requires Sound(st)
    ensures r == TryPair(st, snap, idx, idy)
  {
    if idx !in snap || idy !in snap {
      return Err(KeyError);
    }
    var lx := snap[idx].lbl;
    var ly := snap[idy].lbl;
    var v := CheckAdjacent(lx, ly);
    if v.Err? {
      return Err(v.fault);
    }
    if v.value.NotAdjacent? {
      return Ok(st);
    }
    var nlx := Merged(lx, v.value.pos, v.value.sym);
    var nid := idx + idy;
    var e := NewEntry(nlx);
    if e.Err? {
      return Err(e.fault);
    }
    var stored := Store(st, nid, e.value);
    var marked;
    if v.value.sym == 'x' {
      var marks := GetSimilarMarks(v.value.pos, nlx, stored.rev);
      marked := MarkEach(stored.input, marks);
    } else {
      marked := Mark(stored.input, [idx, idy][v.value.side]);
    }
    if marked.Err? {
      return Err(marked.fault);
    }
    return Ok(State(marked.value, stored.rev));
  }

  /** The pairs `ps` from position `j`, each against the table the previous one left. */
  function StepFrom(st: State, snap: map<Ids, Entry>, ps: seq<(Ids, Ids)>, j: nat): (r: Result<State>)
    requires Sound(st) && j <= |ps|
    ensures r.Ok? ==> Sound(r.value)
    decreases |ps| - j
  {
    if j == |ps| then Ok(st)
    else match TryPair(st, snap, ps[j].0, ps[j].1)
      case Err(f) => Err(f)
      case Ok(st1) => StepFrom(st1, snap, ps, j + 1)
  }

  /** `adj_vals_keys`: the adjacency values of the selected entries, sorted, each with its bucket. */
  function AdjKeys(sel: Dict<Ids, Entry>): (r: seq<nat>)
    requires Listed(sel)
    ensures forall a :: a in r ==> a in Buckets(sel.order, sel.items).items
  {
    BucketsMeaning(sel.order, sel.items);
    Pairing.Sorted(Buckets(sel.order, sel.items).order)
  }

  /** The pairs a step checks among the selected entries `sel`. */
  function SelPairs(sel: Dict<Ids, Entry>): seq<(Ids, Ids)>
    requires Listed(sel)
  {
    StepPairs(AdjKeys(sel), Buckets(sel.order, sel.items).items)
  }

  /**
   * Step `step` of the loop: the pairs of consecutive sorted buckets of the selected
   * entries, in order, and whether `adj_left` stays set (some entry was selected).
   */
  function StepOf(st: State, step: int): (r: Result<(State, bool)>)
    requires Sound(st)
    ensures r.Ok? ==> Sound(r.value.0)
  {
    var sel := Selected(st.input, step);
    match StepFrom(st, sel.items, SelPairs(sel), 0)
    case Err(f) => Err(f)
    case Ok(st1) => Ok((st1, |AdjKeys(sel)| != 0))
  }

  /** One iteration of the `while adj_left and step <= maxstep` loop. */
  method HybridStep(st: State, step: int) returns (r: Result<(State, bool)>)
    requires Sound(st)
    ensures r == StepOf(st, step)
  {
    var sel := Selected(st.input, step);
    var adj := Population(sel);
    BucketsMeaning(sel.order, sel.items);
    var keys := Pairing.Sorted(adj.order);
    var ps := StepPairs(keys, adj.items);
    assert keys == AdjKeys(sel) && ps == SelPairs(sel);
    var cur := st;
    for j := 0 to |ps|
      invariant Sound(cur) && StepFrom(cur, sel.items, ps, j) == StepFrom(st, sel.items, ps, 0)
    {
      var t := MergePair(cur, sel.items, ps[j].0, ps[j].1);
      if t.Err? {
        return Err(t.fault);
      }
      cur := t.value;
    }
    return Ok((cur, |keys| != 0));
  }

  /**
   * The loop from step `step` on: it stops after a step that selects nothing, or once
   * `step` exceeds `maxstep`, so it runs at most `maxstep + 1` steps.
   */
  function Steps(st: State, step: int, maxstep: int): (r: Result<State>)
    requires Sound(st)
    ensures r.Ok? ==> Sound(r.value)
    decreases if step <= maxstep then maxstep - step + 1 else 0
  {
    if step > maxstep then Ok(st)
    else match StepOf(st, step)
      case Err(f) => Err(f)
      case Ok(res) => if res.1 then Steps(res.0, step + 1, maxstep) else Ok(res.0)
  }

  /** The `while adj_left and step <= maxstep` loop. */
  method PairLoop(st0: State, maxstep: int) returns (r: Result<State>)
    requires Sound(st0)
    ensures r == Steps(st0, 0, maxstep)
  {
    var st := st0;
    var adjLeft := true;
    var step := 0;
    while adjLeft && step <= maxstep
      invariant Sound(st)
      invariant Steps(st0, 0, maxstep) == if adjLeft then Steps(st, step, maxstep) else Ok(st)
      decreases if step <= maxstep then maxstep - step + 1 else 0
    {
      var res := HybridStep(st, step);
      if res.Err? {
        return Err(res.fault);
      }
      st, adjLeft := res.value.0, res.value.1;
      step := step + 1;
    }
    return Ok(st);
  }

  // ---------------------------------------------------------------- the loop never raises

  /** Every id in `k` is the id of a parsed minterm. */
  predicate FromBase(k: Ids, base: set<Ids>)
  {
    forall e :: e in k ==> {e} in base
  }

  /**
   * What the loop keeps: both dictionaries ordered, every entry that of a label of width
   * `n` whose ids are parsed minterms, and every id `rev_dict` holds a key of `input_dict`.
   */
  ghost predicate Inv(st: State, n: nat, base: set<Ids>)
  {
    && Sound(st)
    && (forall k :: k in st.input.items ==> EntryOf(st.input.items[k], n) && FromBase(k, base))
    && (forall l :: l in st.rev.items ==> st.rev.items[l] in st.input.items)
  }

  /** The entries a step reads its labels from are all still in the table. */
  ghost predicate SnapFits(snap: map<Ids, Entry>, st: State, n: nat, base: set<Ids>)
  {
    forall k :: k in snap ==> k in st.input.items && EntryOf(snap[k], n) && FromBase(k, base)
  }

  /** The pairs `ps` join keys of the snapshot with different adjacency values. */
  ghost predicate PairsFit(snap: map<Ids, Entry>, ps: seq<(Ids, Ids)>)
  {
    forall j :: 0 <= j < |ps| ==> ps[j].0 in snap && ps[j].1 in snap && snap[ps[j].0].adjval != snap[ps[j].1].adjval
  }

  /** The tables just built are what the loop keeps, with the parsed keys as the base. */
  lemma StartInv(d: Dict<Ids, Entry>, n: nat)
    requires Listed(d) && Singletons(d) && forall k :: k in d.items ==> EntryOf(d.items[k], n)
    ensures Inv(State(d, RevOf(d.order, d.items)), n, d.items.Keys)
  {
    RevOfMeaning(d.order, d.items);
    forall k | k in d.items ensures FromBase(k, d.items.Keys) {
      forall e | e in k ensures {e} in d.items {
        assert k == {Id(d.items[k].lbl).value};
      }
    }
  }

  /**
   * A pair of entries with different adjacency values never raises: the labels differ and
   * have one width, a merge yields a label of that width, and every id marked is a key.
   */
  lemma TryPairSafe(st: State, snap: map<Ids, Entry>, idx: Ids, idy: Ids, n: nat, base: set<Ids>)
    requires Inv(st, n, base) && SnapFits(snap, st, n, base)
    requires idx in snap && idy in snap && snap[idx].adjval != snap[idy].adjval
    ensures TryPair(st, snap, idx, idy).Ok?
    ensures Inv(TryPair(st, snap, idx, idy).value, n, base)
    ensures st.input.items.Keys <= TryPair(st, snap, idx, idy).value.input.items.Keys
  {
    var lx, ly := snap[idx].lbl, snap[idy].lbl;
    assert lx != ly && |lx| == |ly| by {
      assert EntryOf(snap[idx], n) && EntryOf(snap[idy], n);
    }
    AdjacentOk(lx, ly);
    var v := AdjacentOf(lx, ly).value;
    if v.Adjacent? {
      MergeSafe(st, snap, idx, idy, v, n, base);
      assert TryPair(st, snap, idx, idy) == Merge(st, idx, idy, lx, v);
    } else {
      assert TryPair(st, snap, idx, idy) == Ok(st);
    }
  }

  /** The merge of such a pair never raises. */
  lemma MergeSafe(st: State, snap: map<Ids, Entry>, idx: Ids, idy: Ids, v: Check, n: nat, base: set<Ids>)
    requires Inv(st, n, base) && SnapFits(snap, st, n, base) && idx in snap && idy in snap
    requires v.Adjacent? && AdjacentOf(snap[idx].lbl, snap[idy].lbl) == Ok(v)
    ensures Merge(st, idx, idy, snap[idx].lbl, v).Ok?
    ensures Inv(Merge(st, idx, idy, snap[idx].lbl, v).value, n, base)
    ensures st.input.items.Keys <= Merge(st, idx, idy, snap[idx].lbl, v).value.input.items.Keys
  {
    var lx, ly := snap[idx].lbl, snap[idy].lbl;
    MergedWeight(lx, ly, v.pos, v.sym, v.side);
    var nlx := Merged(lx, v.pos, v.sym);
    LabelMeasures(nlx);
    var e := NewEntry(nlx).value;
    assert FromBase(idx + idy, base) by {
      assert FromBase(idx, base) && FromBase(idy, base);
    }
    StoreSafe(st, idx + idy, e, n, base);
    MarkMergedSafe(Store(st, idx + idy, e), nlx, idx, idy, v, n, base);
  }

  /** Storing the entry of a label of width `n` whose ids are parsed minterms keeps the invariant. */
  lemma StoreSafe(st: State, nid: Ids, e: Entry, n: nat, base: set<Ids>)
    requires Inv(st, n, base) && EntryOf(e, n) && FromBase(nid, base)
    ensures Inv(Store(st, nid, e), n, base) && st.input.items.Keys <= Store(st, nid, e).input.items.Keys
  {
  }

  /** The marks after a merge are all keys of the table, and marking keeps the invariant. */
  lemma MarkMergedSafe(st: State, nlx: string, idx: Ids, idy: Ids, v: Check, n: nat, base: set<Ids>)
    requires Inv(st, n, base) && v.Adjacent? && v.side < 2 && idx in st.input.items && idy in st.input.items
    ensures MarkMerged(st, nlx, idx, idy, v).Ok?
    ensures Inv(MarkMerged(st, nlx, idx, idy, v).value, n, base)
    ensures MarkMerged(st, nlx, idx, idy, v).value.input.items.Keys == st.input.items.Keys
  {
    if v.sym == 'x' {
      var marks := SimilarMarks(v.pos, nlx, st.rev.order, st.rev.items);
      SimilarMarksKeys(st, v.pos, nlx, n, base);
      MarkFromSafe(st, marks, n, base);
      assert MarkMerged(st, nlx, idx, idy, v) == Ok(State(MarkFrom(st.input, marks, 0).value, st.rev));
    } else {
      MarkSafe(st, [idx, idy][v.side], n, base);
      assert MarkMerged(st, nlx, idx, idy, v) == Ok(State(Mark(st.input, [idx, idy][v.side]).value, st.rev));
    }
  }

  /** `get_similar_marks` only returns ids `rev_dict` holds, which are keys of `input_dict`. */
  lemma SimilarMarksKeys(st: State, p: nat, nlx: string, n: nat, base: set<Ids>)
    requires Inv(st, n, base)
    ensures forall i :: 0 <= i < |SimilarMarks(p, nlx, st.rev.order, st.rev.items)| ==>
      SimilarMarks(p, nlx, st.rev.order, st.rev.items)[i] in st.input.items
  {
    var marks := SimilarMarks(p, nlx, st.rev.order, st.rev.items);
    SimilarMarksMeaning(p, nlx, st.rev.order, st.rev.items);
    forall i | 0 <= i < |marks| ensures marks[i] in st.input.items {
      assert marks[i] in marks;
    }
  }

  /** Changing only marks keeps the invariant. */
  lemma MarksOnly(st: State, d: Dict<Ids, Entry>, n: nat, base: set<Ids>)
    requires Inv(st, n, base) && d.order == st.input.order && d.items.Keys == st.input.items.Keys
    requires forall k :: k in d.items ==> d.items[k] == st.input.items[k] || d.items[k] == st.input.items[k].(mark := true)
    ensures Inv(State(d, st.rev), n, base)
  {
  }

  /** Marking a key of the table keeps the invariant. */
  lemma MarkSafe(st: State, k: Ids, n: nat, base: set<Ids>)
    requires Inv(st, n, base) && k in st.input.items
    ensures Mark(st.input, k).Ok? && Inv(State(Mark(st.input, k).value, st.rev), n, base)
  {
    MarksOnly(st, Mark(st.input, k).value, n, base);
  }

  /** Marking keys of the table keeps the invariant. */
  lemma MarkFromSafe(st: State, ks: seq<Ids>, n: nat, base: set<Ids>)
    requires Inv(st, n, base) && forall i :: 0 <= i < |ks| ==> ks[i] in st.input.items
    ensures MarkFrom(st.input, ks, 0).Ok? && Inv(State(MarkFrom(st.input, ks, 0).value, st.rev), n, base)
  {
    MarkFromMeaning(st.input, ks, 0);
    MarksOnly(st, MarkFrom(st.input, ks, 0).value, n, base);
  }

  /** A run of such pairs never raises. */
  lemma {:induction false} StepFromSafe(st: State, snap: map<Ids, Entry>, ps: seq<(Ids, Ids)>, j: nat, n: nat, base: set<Ids>)
    requires Inv(st, n, base) && SnapFits(snap, st, n, base) && PairsFit(snap, ps) && j <= |ps|
    ensures StepFrom(st, snap, ps, j).Ok? && Inv(StepFrom(st, snap, ps, j).value, n, base)
    decreases |ps| - j
  {
    if j < |ps| {
      TryPairSafe(st, snap, ps[j].0, ps[j].1, n, base);
      StepFromSafe(TryPair(st, snap, ps[j].0, ps[j].1).value, snap, ps, j + 1, n, base);
    }
  }

  /**
   * A step never raises and keeps the invariant: consecutive sorted buckets hold entries
   * of different adjacency values.
   */
  lemma StepSafe(st: State, step: int, n: nat, base: set<Ids>)
    requires Inv(st, n, base)
    ensures StepOf(st, step).Ok? && Inv(StepOf(st, step).value.0, n, base)
  {
    var sel := Selected(st.input, step);
    SelectedMeaning(st.input, step);
    SelPairsFit(sel);
    StepFromSafe(st, sel.items, SelPairs(sel), 0, n, base);
    assert StepOf(st, step) == Ok((StepFrom(st, sel.items, SelPairs(sel), 0).value, |AdjKeys(sel)| != 0));
  }

  /** Consecutive sorted buckets hold entries of different adjacency values. */
  lemma SelPairsFit(sel: Dict<Ids, Entry>)
    requires Listed(sel)
    ensures PairsFit(sel.items, SelPairs(sel))
  {
    var adj := Buckets(sel.order, sel.items);
    var keys := AdjKeys(sel);
    var ps := SelPairs(sel);
    StepPairsMeaning(keys, adj.items);
    forall j | 0 <= j < |ps|
      ensures ps[j].0 in sel.items && ps[j].1 in sel.items && sel.items[ps[j].0].adjval != sel.items[ps[j].1].adjval
    {
      assert ps[j] in ps;
      var i :| 0 <= i < |keys| - 1 && ps[j].0 in adj.items[keys[i]] && ps[j].1 in adj.items[keys[i + 1]];
      BucketMember(sel.order, sel.items, keys[i], ps[j].0);
      BucketMember(sel.order, sel.items, keys[i + 1], ps[j].1);
      assert keys[i] < keys[i + 1];
    }
  }

  /** An entry found in the bucket of `a` has adjacency value `a`. */
  lemma BucketMember(ks: seq<Ids>, items: map<Ids, Entry>, a: nat, x: Ids)
    requires forall k :: k in ks ==> k in items
    requires a in Buckets(ks, items).items && x in Buckets(ks, items).items[a]
    ensures x in items && items[x].adjval == a
  {
    BucketsMeaning(ks, items);
    var j :| 0 <= j < |Buckets(ks, items).items[a]| && Buckets(ks, items).items[a][j] == x;
  }

  /** The loop never raises and keeps the invariant. */
  lemma {:induction false} StepsSafe(st: State, step: int, maxstep: int, n: nat, base: set<Ids>)
    requires Inv(st, n, base)
    ensures Steps(st, step, maxstep).Ok? && Inv(Steps(st, step, maxstep).value, n, base)
    decreases if step <= maxstep then maxstep - step + 1 else 0
  {
    if step <= maxstep {
      StepSafe(st, step, n, base);
      var res := StepOf(st, step).value;
      if res.1 {
        StepsSafe(res.0, step + 1, maxstep, n, base);
        assert Steps(st, step, maxstep) == Steps(res.0, step + 1, maxstep);
      } else {
        assert Steps(st, step, maxstep) == Ok(res.0);
      }
    }
  }

  /** No key of `ks` with an entry of weight `step` leaves nothing to select. */
  lemma {:induction false} WeighingNone(ks: seq<Ids>, items: map<Ids, Entry>, step: int)
    requires forall k :: k in ks ==> k in items && items[k].weight != step
    ensures Weighing(ks, items, step) == []
    decreases |ks|
  {
    if |ks| > 0 {
      assert forall j :: j in ks[..|ks| - 1] ==> j in ks;
      WeighingNone(ks[..|ks| - 1], items, step);
    }
  }

  /** No label of width `n` weighs more than `2n`, so a later step selects nothing and ends the loop. */
  lemma LateStepIdle(st: State, step: int, n: nat, base: set<Ids>)
    requires Inv(st, n, base) && step > 2 * n
    ensures StepOf(st, step) == Ok((st, false))
  {
    forall k | k in st.input.items ensures st.input.items[k].weight <= 2 * n {
      assert EntryOf(st.input.items[k], n);
    }
    WeighingNone(st.input.order, st.input.items, step);
    var sel := Selected(st.input, step);
    assert sel.order == [];
    assert Buckets(sel.order, sel.items).order == [];
    assert AdjKeys(sel) == [];
  }

  /** Once past `2n`, the loop leaves the table as it is, whatever the bound. */
  lemma LateStepsIdle(st: State, step: int, maxstep: int, n: nat, base: set<Ids>)
    requires Inv(st, n, base) && step > 2 * n
    ensures Steps(st, step, maxstep) == Ok(st)
  {
    if step <= maxstep {
      LateStepIdle(st, step, n, base);
    }
  }

  /**
   * The default bound `2n` examines every weight a label of width `n` can have: any bound
   * at least as large gives the same result.
   */
  lemma {:induction false} BoundBeyondWeights(st: State, step: int, maxstep: int, n: nat, base: set<Ids>)
    requires Inv(st, n, base) && maxstep >= 2 * n
    ensures Steps(st, step, maxstep) == Steps(st, step, 2 * n)
    decreases if step <= maxstep then maxstep - step + 1 else 0
  {
    if step > 2 * n {
      LateStepsIdle(st, step, maxstep, n, base);
      LateStepsIdle(st, step, 2 * n, n, base);
    } else {
      StepSafe(st, step, n, base);
      var res := StepOf(st, step).value;
      if res.1 {
        BoundBeyondWeights(res.0, step + 1, maxstep, n, base);
        assert Steps(st, step, maxstep) == Steps(res.0, step + 1, maxstep);
        assert Steps(st, step, 2 * n) == Steps(res.0, step + 1, 2 * n);
      } else {
        assert Steps(st, step, maxstep) == Ok(res.0);
        assert Steps(st, step, 2 * n) == Ok(res.0);
      }
    }
  }
}
