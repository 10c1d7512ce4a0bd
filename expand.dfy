/**
 * Expansions of a label into concrete labels, all built on `itertools.product`:
 * the countermodels of a label (each `z`, `o`, `x` replaced by the values it
 * aggregates), the totalizations of `get_totalize` (each `2` replaced by `1` or `2`)
 * and the patterns of `totalize` / `make_patterns` (each `1` or `2` replaced by `2`
 * or `1`, rewritten in place in a list).
 */
module Expand {
  import opened Wrappers
  import opened Numerals
  import opened Codec

  // ---------------------------------------------------------------- product

  /** `[c] + t` for every `c` of `cs` and every `t` of `tails`, `cs` varying slowest. */
  function Prepend(cs: seq<char>, tails: seq<string>): (r: seq<string>)
    ensures |r| == |cs| * |tails|
  {
    if |cs| == 0 then []
    else seq(|tails|, j requires 0 <= j < |tails| => [cs[0]] + tails[j]) + Prepend(cs[1..], tails)
  }

  /** `list(itertools.product(*opts))`, each tuple joined into a string. */
  function Product(opts: seq<seq<char>>): seq<string>
    decreases |opts|
  {
    if |opts| == 0 then [[]] else Prepend(opts[0], Product(opts[1..]))
  }

  /** The product of the option counts. */
  function Choices(opts: seq<seq<char>>): nat
  {
    if |opts| == 0 then 1 else |opts[0]| * Choices(opts[1..])
  }

  /** `s` picks one option at every position. */
  predicate Picks(s: string, opts: seq<seq<char>>)
  {
    |s| == |opts| && forall i :: 0 <= i < |s| ==> s[i] in opts[i]
  }

  predicate NoDuplicates<T(==)>(s: seq<T>)
  {
    forall i, j :: 0 <= i < j < |s| ==> s[i] != s[j]
  }

  lemma {:induction false} PrependMember(cs: seq<char>, tails: seq<string>, s: string)
    ensures s in Prepend(cs, tails) <==> |s| > 0 && s[0] in cs && s[1..] in tails
    decreases |cs|
  {
    if |cs| > 0 {
      PrependMember(cs[1..], tails, s);
      var first := seq(|tails|, j requires 0 <= j < |tails| => [cs[0]] + tails[j]);
      if s in first {
        var j :| 0 <= j < |tails| && first[j] == s;
        assert s[1..] == tails[j];
      }
      if |s| > 0 && s[0] == cs[0] && s[1..] in tails {
        var j :| 0 <= j < |tails| && tails[j] == s[1..];
        assert first[j] == s;
      }
    }
  }

  /** The product holds exactly the strings that pick one option per position. */
  lemma {:induction false} ProductMember(opts: seq<seq<char>>, s: string)
    ensures s in Product(opts) <==> Picks(s, opts)
    decreases |opts|
  {
    if |opts| > 0 {
      PrependMember(opts[0], Product(opts[1..]), s);
      if |s| > 0 {
        ProductMember(opts[1..], s[1..]);
        assert Picks(s, opts) <==> s[0] in opts[0] && Picks(s[1..], opts[1..]) by {
          if s[0] in opts[0] && Picks(s[1..], opts[1..]) {
            forall i | 0 <= i < |s| ensures s[i] in opts[i] {
              if i > 0 {
                assert s[1..][i - 1] == s[i];
              }
            }
          }
        }
      }
    }
  }

  /** The product has one entry per combination of choices. */
  lemma {:induction false} ProductLength(opts: seq<seq<char>>)
    ensures |Product(opts)| == Choices(opts)
    decreases |opts|
  {
    if |opts| > 0 {
      ProductLength(opts[1..]);
    }
  }

  lemma {:induction false} PrependNoDuplicates(cs: seq<char>, tails: seq<string>)
    requires NoDuplicates(cs) && NoDuplicates(tails)
    ensures NoDuplicates(Prepend(cs, tails))
    decreases |cs|
  {
    if |cs| > 0 {
      PrependNoDuplicates(cs[1..], tails);
      var first := seq(|tails|, j requires 0 <= j < |tails| => [cs[0]] + tails[j]);
      var rest := Prepend(cs[1..], tails);
      forall i, j | 0 <= i < |first| && 0 <= j < |rest| ensures first[i] != rest[j] {
        PrependMember(cs[1..], tails, rest[j]);
        assert rest[j][0] in cs[1..];
      }
      forall i, j | 0 <= i < j < |first| ensures first[i] != first[j] {
        assert first[i][1..] == tails[i];
        assert first[j][1..] == tails[j];
      }
      var r := first + rest;
      forall i, j | 0 <= i < j < |r| ensures r[i] != r[j] {
        if j < |first| {
        } else if i >= |first| {
          assert r[i] == rest[i - |first|] && r[j] == rest[j - |first|];
        } else {
          assert r[j] == rest[j - |first|];
        }
      }
    }
  }

  /** Options without repetitions give a product without repetitions. */
  lemma {:induction false} ProductNoDuplicates(opts: seq<seq<char>>)
    requires forall i :: 0 <= i < |opts| ==> NoDuplicates(opts[i])
    ensures NoDuplicates(Product(opts))
    decreases |opts|
  {
    if |opts| > 0 {
      ProductNoDuplicates(opts[1..]);
      PrependNoDuplicates(opts[0], Product(opts[1..]));
    }
  }

  /** The first entry of the product picks every first option. */
  lemma {:induction false} ProductFirst(opts: seq<seq<char>>)
    requires forall i :: 0 <= i < |opts| ==> |opts[i]| > 0
    ensures |Product(opts)| > 0
    ensures Product(opts)[0] == seq(|opts|, i requires 0 <= i < |opts| => opts[i][0])
    decreases |opts|
  {
    if |opts| > 0 {
      ProductFirst(opts[1..]);
    }
  }

  /** The labels of `labels` read as keys: `[label_to_octal(l) for l in labels]`. */
  function EncodeAll(labels: seq<string>): (r: Result<seq<nat>>)
    ensures r.Ok? ==> |r.value| == |labels|
    ensures r.Ok? ==> forall j :: 0 <= j < |labels| ==> Encode(Pipeline, labels[j]) == Ok(r.value[j])
  {
    if |labels| == 0 then Ok([])
    else match Encode(Pipeline, labels[0])
      case Err(f) => Err(f)
      case Ok(k) =>
        match EncodeAll(labels[1..])
        case Err(f) => Err(f)
        case Ok(ks) => Ok([k] + ks)
  }

  /** Labels over the six symbols, all of them, encode without an error. */
  lemma {:induction false} EncodeAllOk(labels: seq<string>)
    requires forall j :: 0 <= j < |labels| ==> IsLabel(labels[j])
    ensures EncodeAll(labels).Ok?
    decreases |labels|
  {
    if |labels| > 0 {
      EncodeAccepts(labels[0]);
      EncodeAllOk(labels[1..]);
    }
  }

  // ---------------------------------------------------------------- countermodels

  /** The values an aggregated symbol stands for (`options` of `get_countermodels`). */
  function CounterOptions(c: char): seq<char>
  {
    if c == 'z' then "01" else if c == 'o' then "12" else if c == 'x' then "012" else [c]
  }

  /** `get_countermodels(label)`, minish_hat.py:56-63 (the same in minish-hat.py, minish-ruleset.py, minish-countermodels.py). */
  function CountermodelLabels(lbl: string): seq<string>
  {
    Product(seq(|lbl|, i requires 0 <= i < |lbl| => CounterOptions(lbl[i])))
  }

  function Countermodels(lbl: string): Result<seq<nat>>
  {
    EncodeAll(CountermodelLabels(lbl))
  }

  /** A concrete label `s` is a countermodel of `lbl`: it keeps every variable symbol and resolves every aggregate. */
  predicate Resolves(s: string, lbl: string)
  {
    |s| == |lbl| && forall i :: 0 <= i < |s| ==> s[i] in CounterOptions(lbl[i])
  }

  /** The countermodels of a label are exactly the labels that resolve it, each once. */
  lemma CountermodelsMember(lbl: string, s: string)
    ensures s in CountermodelLabels(lbl) <==> Resolves(s, lbl)
    ensures NoDuplicates(CountermodelLabels(lbl))
  {
    var opts := seq(|lbl|, i requires 0 <= i < |lbl| => CounterOptions(lbl[i]));
    ProductMember(opts, s);
    ProductNoDuplicates(opts);
  }

  /** Counting countermodels: two per `z` or `o`, three per `x`. */
  lemma {:induction false} CountermodelsCount(lbl: string)
    ensures |CountermodelLabels(lbl)| == Pow(2, Occurrences(lbl, 'z') + Occurrences(lbl, 'o')) * Pow(3, Occurrences(lbl, 'x'))
    decreases |lbl|
  {
    var opts := seq(|lbl|, i requires 0 <= i < |lbl| => CounterOptions(lbl[i]));
    ProductLength(opts);
    ChoicesOfCounterOptions(lbl);
  }

  lemma {:induction false} ChoicesOfCounterOptions(lbl: string)
    ensures Choices(seq(|lbl|, i requires 0 <= i < |lbl| => CounterOptions(lbl[i])))
         == Pow(2, Occurrences(lbl, 'z') + Occurrences(lbl, 'o')) * Pow(3, Occurrences(lbl, 'x'))
    decreases |lbl|
  {
    var opts := seq(|lbl|, i requires 0 <= i < |lbl| => CounterOptions(lbl[i]));
    if |lbl| > 0 {
      ChoicesOfCounterOptions(lbl[1..]);
      assert opts[1..] == seq(|lbl[1..]|, i requires 0 <= i < |lbl[1..]| => CounterOptions(lbl[1..][i]));
      var z, o, x := Occurrences(lbl[1..], 'z'), Occurrences(lbl[1..], 'o'), Occurrences(lbl[1..], 'x');
      var p, q := Pow(2, z + o), Pow(3, x);
      assert Choices(opts) == |opts[0]| * (p * q);
      var c := lbl[0];
      if c == 'z' || c == 'o' {
        assert Pow(2, z + o + 1) == 2 * p;
        MulAssoc(2, p, q);
      } else if c == 'x' {
        assert Pow(3, x + 1) == 3 * q;
        MulAssoc(3, p, q);
        assert 3 * (p * q) == p * (3 * q) by {
          MulAssoc(p, 3, q);
        }
      }
    }
  }

  lemma MulAssoc(a: nat, b: nat, c: nat)
    ensures a * (b * c) == (a * b) * c
  {
  }

  /** Occurrences of `c` in `s`. */
  function Occurrences(s: string, c: char): nat
  {
    if |s| == 0 then 0 else (if s[0] == c then 1 else 0) + Occurrences(s[1..], c)
  }

  /** Every countermodel is concrete, and a concrete label is its own only countermodel. */
  lemma CountermodelsOfConcrete(lbl: string, s: string)
    requires Resolves(s, lbl)
    ensures IsConcrete(s) || exists i :: 0 <= i < |lbl| && !IsSymbol(lbl[i]) && s[i] == lbl[i]
    ensures IsConcrete(lbl) ==> s == lbl
  {
    if !IsConcrete(s) {
      var i :| 0 <= i < |s| && !IsVariable(s[i]);
      assert !IsSymbol(lbl[i]) && s[i] == lbl[i];
    }
  }

  // ---------------------------------------------------------------- get_totalize

  /** `options` of `get_totalize`: an undefined-true `2` is also totalized to `1`. */
  function TotalizeOptions(c: char): seq<char>
  {
    if c == '2' then "12" else [c]
  }

  /** `get_totalize(label)`, minish_hat.py:92-97 (the same in minish-hat.py, minish-ruleset.py, minish-countermodels.py). */
  function TotalizeLabels(lbl: string): seq<string>
  {
    Product(seq(|lbl|, i requires 0 <= i < |lbl| => TotalizeOptions(lbl[i])))
  }

  function GetTotalize(lbl: string): Result<seq<nat>>
  {
    EncodeAll(TotalizeLabels(lbl))
  }

  /** The totalizations of `lbl` are the labels that replace any of its `2`s by `1`; the first has every `2` replaced. */
  lemma GetTotalizeMember(lbl: string, s: string)
    ensures s in TotalizeLabels(lbl) <==>
      |s| == |lbl| && forall i :: 0 <= i < |s| ==> s[i] == lbl[i] || (lbl[i] == '2' && s[i] == '1')
    ensures NoDuplicates(TotalizeLabels(lbl))
    ensures |TotalizeLabels(lbl)| == Pow(2, Occurrences(lbl, '2'))
    ensures TotalizeLabels(lbl)[0] == seq(|lbl|, i requires 0 <= i < |lbl| => if lbl[i] == '2' then '1' else lbl[i])
  {
    var opts := seq(|lbl|, i requires 0 <= i < |lbl| => TotalizeOptions(lbl[i]));
    ProductMember(opts, s);
    ProductNoDuplicates(opts);
    ProductLength(opts);
    ChoicesOfTotalizeOptions(lbl);
    ProductFirst(opts);
  }

  lemma {:induction false} ChoicesOfTotalizeOptions(lbl: string)
    ensures Choices(seq(|lbl|, i requires 0 <= i < |lbl| => TotalizeOptions(lbl[i]))) == Pow(2, Occurrences(lbl, '2'))
    decreases |lbl|
  {
    var opts := seq(|lbl|, i requires 0 <= i < |lbl| => TotalizeOptions(lbl[i]));
    if |lbl| > 0 {
      ChoicesOfTotalizeOptions(lbl[1..]);
      assert opts[1..] == seq(|lbl[1..]|, i requires 0 <= i < |lbl[1..]| => TotalizeOptions(lbl[1..][i]));
    }
  }

  // ---------------------------------------------------------------- totalize / make_patterns

  /** `[i for i, c in enumerate(s) if c in '21']`. */
  function KeyPositions(s: string): (idx: seq<nat>)
    ensures forall m :: 0 <= m < |idx| ==> idx[m] < |s| && IsKey(s[idx[m]])
    ensures forall m, n :: 0 <= m < n < |idx| ==> idx[m] < idx[n]
    ensures forall p :: 0 <= p < |s| && IsKey(s[p]) ==> p in idx
  {
    if |s| == 0 then []
    else
      var init := KeyPositions(s[..|s| - 1]);
      assert forall p :: 0 <= p < |s| - 1 ==> s[..|s| - 1][p] == s[p];
      if IsKey(s[|s| - 1]) then init + [|s| - 1] else init
  }

  /** `n` copies of the option string: `product(keyletters, repeat=n)`. */
  function Repeat(cs: seq<char>, n: nat): (r: seq<seq<char>>)
    ensures |r| == n && forall i :: 0 <= i < n ==> r[i] == cs
  {
    seq(n, i => cs)
  }

  /** `for i, c in zip(idx, t): seq[i] = c`, applied to `s` (a position past the end is skipped). */
  function Subst(s: string, idx: seq<nat>, t: string): (r: string)
    ensures |r| == |s|
  {
    if |idx| == 0 || |t| == 0 then s
    else
      var r := Subst(s, idx[..|idx| - 1], t[..|t| - 1]);
      var p := idx[|idx| - 1];
      if p < |r| then r[p := t[|t| - 1]] else r
  }

  /** The list `totalize(s)` / `make_patterns(s)` returns: one string per tuple of the product. */
  function Patterns(s: string): seq<string>
  {
    var idx := KeyPositions(s);
    var tuples := Product(Repeat("21", |idx|));
    seq(|tuples|, j requires 0 <= j < |tuples| => Subst(s, idx, tuples[j]))
  }

  /** One pass of the inner loop: `for i, c in zip(indices, t): buf[i] = c`. */
  method WritePattern(buf: array<char>, indices: seq<nat>, t: string)
    requires |indices| == |t| && forall m :: 0 <= m < |indices| ==> indices[m] < buf.Length
    modifies buf
    ensures buf[..] == Subst(old(buf[..]), indices, t)
  {
    for m := 0 to |indices|
      invariant buf[..] == Subst(old(buf[..]), indices[..m], t[..m])
    {
      assert indices[..m + 1][..m] == indices[..m] && t[..m + 1][..m] == t[..m];
      buf[indices[m]] := t[m];
    }
    assert indices[..|indices|] == indices && t[..|t|] == t;
  }

  /**
   * `totalize(s)` of hybrid-minterms.py (and `make_patterns` of helper/total_expand.py,
   * which prints the same strings): `s` is copied into a list once and every tuple of
   * the product overwrites the key positions in place.
   */
  method Totalize(s: string) returns (ret: seq<string>)
    ensures ret == Patterns(s)
  {
    var buf := new char[|s|](i requires 0 <= i < |s| => s[i]);
    var indices := KeyPositions(s);
    var tuples := Product(Repeat("21", |indices|));
    ret := [];
    for j := 0 to |tuples|
      invariant |ret| == j
      invariant forall q :: 0 <= q < j ==> ret[q] == Subst(s, indices, tuples[q])
      invariant buf.Length == |s|
      invariant forall p :: 0 <= p < |s| && p !in indices ==> buf[p] == s[p]
    {
      var t := tuples[j];
      ProductMember(Repeat("21", |indices|), t);
      NextPattern(buf, s, indices, t);
      ret := ret + [buf[..]];
    }
  }

  /** One tuple of `totalize`: the buffer, equal to `s` off the key positions, becomes `s` with `t` written in. */
  method NextPattern(buf: array<char>, s: string, indices: seq<nat>, t: string)
    requires buf.Length == |s| && |t| == |indices|
    requires forall m :: 0 <= m < |indices| ==> indices[m] < |s|
    requires forall x, y :: 0 <= x < y < |indices| ==> indices[x] < indices[y]
    requires forall p :: 0 <= p < |s| && p !in indices ==> buf[p] == s[p]
    modifies buf
    ensures buf[..] == Subst(s, indices, t)
    ensures forall p :: 0 <= p < |s| && p !in indices ==> buf[p] == s[p]
  {
    ghost var start := buf[..];
    WritePattern(buf, indices, t);
    SubstOutside(start, indices, t);
    SubstIgnoresStart(start, s, indices, t);
  }

  /** Positions outside `idx` keep their letter. */
  lemma {:induction false} SubstOutside(s: string, idx: seq<nat>, t: string)
    requires |idx| == |t|
    ensures forall p :: 0 <= p < |s| && p !in idx ==> Subst(s, idx, t)[p] == s[p]
    decreases |idx|
  {
    if |idx| > 0 {
      SubstOutside(s, idx[..|idx| - 1], t[..|t| - 1]);
      forall p | 0 <= p < |s| && p !in idx ensures Subst(s, idx, t)[p] == s[p] {
        assert p !in idx[..|idx| - 1];
      }
    }
  }

  /** Along distinct positions, position `idx[m]` receives `t[m]`. */
  lemma {:induction false} SubstInside(s: string, idx: seq<nat>, t: string, m: nat)
    requires |idx| == |t| && forall n :: 0 <= n < |idx| ==> idx[n] < |s|
    requires forall a, b :: 0 <= a < b < |idx| ==> idx[a] != idx[b]
    requires m < |idx|
    ensures Subst(s, idx, t)[idx[m]] == t[m]
    decreases |idx|
  {
    if m < |idx| - 1 {
      SubstInside(s, idx[..|idx| - 1], t[..|t| - 1], m);
    }
  }

  /** What was in the buffer at the key positions before does not matter. */
  lemma SubstIgnoresStart(a: string, b: string, idx: seq<nat>, t: string)
    requires |a| == |b| && |idx| == |t| && forall m :: 0 <= m < |idx| ==> idx[m] < |a|
    requires forall x, y :: 0 <= x < y < |idx| ==> idx[x] < idx[y]
    requires forall p :: 0 <= p < |a| && p !in idx ==> a[p] == b[p]
    ensures Subst(a, idx, t) == Subst(b, idx, t)
  {
    SubstOutside(a, idx, t);
    SubstOutside(b, idx, t);
    forall p | 0 <= p < |a| ensures Subst(a, idx, t)[p] == Subst(b, idx, t)[p] {
      if p in idx {
        var m :| 0 <= m < |idx| && idx[m] == p;
        SubstInside(a, idx, t, m);
        SubstInside(b, idx, t, m);
      }
    }
  }

  /** `x` keeps every letter of `s` other than `1` and `2`, and has `1` or `2` where `s` has one. */
  predicate PatternOf(x: string, s: string)
  {
    |x| == |s| && forall p :: 0 <= p < |s| ==> if IsKey(s[p]) then IsKey(x[p]) else x[p] == s[p]
  }

  /** The key letters of `totalize`: `1` and `2`. */
  predicate IsKey(c: char)
  {
    c == '2' || c == '1'
  }

  lemma PatternsSound(s: string, j: nat)
    requires j < |Patterns(s)|
    ensures PatternOf(Patterns(s)[j], s)
  {
    var idx := KeyPositions(s);
    var tuples := Product(Repeat("21", |idx|));
    var x := Patterns(s)[j];
    ProductMember(Repeat("21", |idx|), tuples[j]);
    SubstOutside(s, idx, tuples[j]);
    forall p | 0 <= p < |s| ensures if IsKey(s[p]) then IsKey(x[p]) else x[p] == s[p] {
      if IsKey(s[p]) {
        var m :| 0 <= m < |idx| && idx[m] == p;
        SubstInside(s, idx, tuples[j], m);
        assert tuples[j][m] in "21";
      } else {
        assert p !in idx;
      }
    }
  }

  lemma PatternsComplete(s: string, x: string)
    requires PatternOf(x, s)
    ensures x in Patterns(s)
  {
    var idx := KeyPositions(s);
    var tuples := Product(Repeat("21", |idx|));
    var t := seq(|idx|, m requires 0 <= m < |idx| => x[idx[m]]);
    assert Picks(t, Repeat("21", |idx|)) by {
      forall m | 0 <= m < |t| ensures t[m] in Repeat("21", |idx|)[m] {
        assert IsKey(s[idx[m]]);
      }
    }
    ProductMember(Repeat("21", |idx|), t);
    var j :| 0 <= j < |tuples| && tuples[j] == t;
    SubstOutside(s, idx, t);
    forall p | 0 <= p < |s| ensures Subst(s, idx, t)[p] == x[p] {
      if p in idx {
        var m :| 0 <= m < |idx| && idx[m] == p;
        SubstInside(s, idx, t, m);
      }
    }
    assert Patterns(s)[j] == x;
  }

  /**
   * The patterns of `s` are exactly the strings that keep every letter other than `1`
   * and `2` and put `1` or `2` where `s` has one; there are `2^k` of them for `k` such
   * positions, none repeated.
   */
  lemma PatternsMember(s: string, x: string)
    ensures x in Patterns(s) <==> PatternOf(x, s)
    ensures |Patterns(s)| == Pow(2, |KeyPositions(s)|)
  {
    var idx := KeyPositions(s);
    ProductLength(Repeat("21", |idx|));
    ChoicesOfRepeat(|idx|);
    if x in Patterns(s) {
      var j :| 0 <= j < |Patterns(s)| && Patterns(s)[j] == x;
      PatternsSound(s, j);
    }
    if PatternOf(x, s) {
      PatternsComplete(s, x);
    }
  }

  /** The last entry of `[c] + t` lists the last option before the last tail. */
  lemma {:induction false} PrependLast(cs: seq<char>, tails: seq<string>)
    requires |cs| > 0 && |tails| > 0
    ensures |Prepend(cs, tails)| > 0
    ensures Prepend(cs, tails)[|Prepend(cs, tails)| - 1] == [cs[|cs| - 1]] + tails[|tails| - 1]
    decreases |cs|
  {
    if |cs| > 1 {
      PrependLast(cs[1..], tails);
      assert cs[1..][|cs[1..]| - 1] == cs[|cs| - 1];
    }
  }

  /** The last entry of the product picks every last option. */
  lemma {:induction false} ProductLast(opts: seq<seq<char>>)
    requires forall i :: 0 <= i < |opts| ==> |opts[i]| > 0
    ensures |Product(opts)| > 0
    ensures Product(opts)[|Product(opts)| - 1] == seq(|opts|, i requires 0 <= i < |opts| => opts[i][|opts[i]| - 1])
    decreases |opts|
  {
    if |opts| > 0 {
      ProductLast(opts[1..]);
      PrependLast(opts[0], Product(opts[1..]));
    }
  }

  /**
   * The first pattern puts `2` at every position holding `1` or `2`, and the last puts
   * `1` there (the order of `product('21', ...)`); a string with no such position is its
   * own only pattern.
   */
  lemma PatternsFirstLast(s: string)
    ensures |Patterns(s)| > 0
    ensures forall p :: 0 <= p < |s| ==> Patterns(s)[0][p] == if IsKey(s[p]) then '2' else s[p]
    ensures forall p :: 0 <= p < |s| ==> Patterns(s)[|Patterns(s)| - 1][p] == if IsKey(s[p]) then '1' else s[p]
    ensures |KeyPositions(s)| == 0 ==> Patterns(s) == [s]
  {
    var idx := KeyPositions(s);
    var opts := Repeat("21", |idx|);
    ProductFirst(opts);
    ProductLast(opts);
    var tuples := Product(opts);
    PatternAt(s, 0, '2');
    PatternAt(s, |tuples| - 1, '1');
  }

  /** Pattern `j` is `s` with `c` written at every key position, when tuple `j` is all `c`. */
  lemma PatternAt(s: string, j: nat, c: char)
    requires j < |Product(Repeat("21", |KeyPositions(s)|))|
    requires |Product(Repeat("21", |KeyPositions(s)|))[j]| == |KeyPositions(s)|
    requires forall m :: 0 <= m < |KeyPositions(s)| ==> Product(Repeat("21", |KeyPositions(s)|))[j][m] == c
    ensures forall p :: 0 <= p < |s| ==> Patterns(s)[j][p] == if IsKey(s[p]) then c else s[p]
  {
    var idx := KeyPositions(s);
    var t := Product(Repeat("21", |idx|))[j];
    assert Patterns(s)[j] == Subst(s, idx, t);
    SubstOutside(s, idx, t);
    forall p | 0 <= p < |s| && IsKey(s[p]) ensures Subst(s, idx, t)[p] == c {
      var m :| 0 <= m < |idx| && idx[m] == p;
      SubstInside(s, idx, t, m);
    }
  }

  lemma {:induction false} ChoicesOfRepeat(n: nat)
    ensures Choices(Repeat("21", n)) == Pow(2, n)
  {
    if n > 0 {
      ChoicesOfRepeat(n - 1);
      assert Repeat("21", n)[1..] == Repeat("21", n - 1);
    }
  }

  /** `totalize` of bitwise-minterms.py: the patterns as keys. */
  function TotalizeKeys(s: string): Result<seq<nat>>
  {
    EncodeAll(Patterns(s))
  }

  /**
   * On the labels bitwise-minterms.py and minish-countermodels.py totalize (over `0`
   * and `2`), `totalize` and `get_totalize` produce the same labels.
   */
  lemma TotalizeAgree(s: string, x: string)
    requires forall p :: 0 <= p < |s| ==> s[p] == '0' || s[p] == '2'
    ensures x in Patterns(s) <==> x in TotalizeLabels(s)
  {
    PatternsMember(s, x);
    GetTotalizeMember(s, x);
  }
}
