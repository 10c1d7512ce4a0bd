/**
 * The iteration order of a Python set of small integers, taken here as ascending order:
 * the elements of a finite set of naturals listed from the least up.
 */
module Ordering {

  /** A non-empty set of naturals has a least element. */
  lemma {:induction false} LeastExists(s: set<nat>)
    requires s != {}
    ensures exists m :: m in s && IsLeast(m, s)
    decreases |s|
  {
    var y :| y in s;
    var t := s - {y};
    if t == {} {
      assert s == {y};
      assert IsLeast(y, s);
    } else {
      assert |t| < |s|;
      LeastExists(t);
      var m :| m in t && IsLeast(m, t);
      var w := if y < m then y else m;
      assert w in s;
      assert IsLeast(w, s) by {
        forall x | x in s ensures w <= x {
          if x != y {
            assert x in t;
          }
        }
      }
    }
  }

  /** `m` is no greater than any element of `s`. */
  predicate IsLeast(m: nat, s: set<nat>)
  {
    forall x :: x in s ==> m <= x
  }

  /** The least element of a non-empty set. */
  function Least(s: set<nat>): (m: nat)
    requires s != {}
    ensures m in s && forall x :: x in s ==> m <= x
  {
    LeastExists(s);
    var m :| m in s && IsLeast(m, s);
    m
  }

  /** Strictly increasing. */
  predicate Increasing(r: seq<nat>)
  {
    forall i, j :: 0 <= i < j < |r| ==> r[i] < r[j]
  }

  /** The elements of `s`, each once, from the least up. */
  function Ascending(s: set<nat>): (r: seq<nat>)
    ensures forall x :: x in r <==> x in s
    ensures Increasing(r)
    decreases |s|
  {
    if s == {} then []
    else
      var m := Least(s);
      var t := s - {m};
      assert |t| == |s| - 1;
      var rest := Ascending(t);
      assert forall j :: 0 <= j < |rest| ==> m < rest[j] by {
        forall j | 0 <= j < |rest| ensures m < rest[j] {
          assert rest[j] in t;
        }
      }
      [m] + rest
  }

  /** An increasing listing of a set lists each element once. */
  lemma {:induction false} AscendingLength(s: set<nat>)
    ensures |Ascending(s)| == |s|
    decreases |s|
  {
    if s != {} {
      var m := Least(s);
      assert |s - {m}| == |s| - 1;
      AscendingLength(s - {m});
    }
  }

  /** Listing a set in order is determined by the set and determines it. */
  lemma AscendingInjective(a: set<nat>, b: set<nat>)
    requires Ascending(a) == Ascending(b)
    ensures a == b
  {
    forall x ensures x in a <==> x in b {
      assert x in a <==> x in Ascending(a);
    }
  }

  // ---------------------------------------------------------------- strings

  /** Python's `<=` on strings: code point by code point, a proper prefix first. */
  predicate LexLe(a: string, b: string)
    decreases |a|
  {
    |a| == 0 || (|b| > 0 && (a[0] < b[0] || (a[0] == b[0] && LexLe(a[1..], b[1..]))))
  }

  lemma {:induction false} LexTotal(a: string, b: string)
    ensures LexLe(a, b) || LexLe(b, a)
    decreases |a|
  {
    if |a| > 0 && |b| > 0 && a[0] == b[0] {
      LexTotal(a[1..], b[1..]);
    }
  }

  lemma {:induction false} LexAntisymmetric(a: string, b: string)
    requires LexLe(a, b) && LexLe(b, a)
    ensures a == b
    decreases |a|
  {
    if |a| > 0 {
      LexAntisymmetric(a[1..], b[1..]);
      assert a == [a[0]] + a[1..] && b == [b[0]] + b[1..];
    }
  }

  lemma {:induction false} LexTransitive(a: string, b: string, c: string)
    requires LexLe(a, b) && LexLe(b, c)
    ensures LexLe(a, c)
    decreases |a|
  {
    if |a| > 0 && a[0] == b[0] && b[0] == c[0] {
      LexTransitive(a[1..], b[1..], c[1..]);
    }
  }

  /** `m` is `LexLe` every element of `s`. */
  predicate IsLeastString(m: string, s: set<string>)
  {
    forall x :: x in s ==> LexLe(m, x)
  }

  /** A non-empty set of strings has a least element. */
  lemma {:induction false} LeastStringExists(s: set<string>)
    requires s != {}
    ensures exists m :: m in s && IsLeastString(m, s)
    decreases |s|
  {
    var y :| y in s;
    var t := s - {y};
    if t == {} {
      assert s == {y};
      LexTotal(y, y);
      assert IsLeastString(y, s);
    } else {
      assert |t| < |s|;
      LeastStringExists(t);
      var m :| m in t && IsLeastString(m, t);
      LexTotal(y, m);
      var w := if LexLe(y, m) then y else m;
      assert w in s;
      assert IsLeastString(w, s) by {
        forall x | x in s ensures LexLe(w, x) {
          if x == y {
            LexTotal(y, y);
          } else {
            assert x in t;
            if w == y {
              LexTransitive(y, m, x);
            }
          }
        }
      }
    }
  }

  /** The least string of a non-empty set. */
  function LeastString(s: set<string>): (m: string)
    requires s != {}
    ensures m in s && forall x :: x in s ==> LexLe(m, x)
  {
    LeastStringExists(s);
    var m :| m in s && IsLeastString(m, s);
    assert forall m' :: m' in s && IsLeastString(m', s) ==> m' == m by {
      forall m' | m' in s && IsLeastString(m', s) ensures m' == m {
        LexAntisymmetric(m, m');
      }
    }
    m
  }

  /** Strictly increasing, under `LexLe`. */
  predicate StringsIncreasing(r: seq<string>)
  {
    forall i, j :: 0 <= i < j < |r| ==> LexLe(r[i], r[j]) && r[i] != r[j]
  }

  /** `sorted(s)` of a set of strings: each element once, from the least up (`SortedStringsIncreasing`). */
  function SortedStrings(s: set<string>): (r: seq<string>)
    ensures forall x :: x in r <==> x in s
    decreases |s|
  {
    if s == {} then []
    else
      var m := LeastString(s);
      var t := s - {m};
      assert |t| == |s| - 1;
      [m] + SortedStrings(t)
  }

  /** `sorted` lists the strings from the least up, each once. */
  lemma {:induction false} SortedStringsIncreasing(s: set<string>)
    ensures StringsIncreasing(SortedStrings(s))
    decreases |s|
  {
    if s != {} {
      var m := LeastString(s);
      var t := s - {m};
      assert |t| == |s| - 1;
      SortedStringsIncreasing(t);
      var rest := SortedStrings(t);
      var r := [m] + rest;
      assert r == SortedStrings(s);
      forall i, j | 0 <= i < j < |r| ensures LexLe(r[i], r[j]) && r[i] != r[j] {
        if i == 0 {
          assert r[j] == rest[j - 1] && rest[j - 1] in t;
        } else {
          assert r[i] == rest[i - 1] && r[j] == rest[j - 1];
        }
      }
    }
  }

  /** `sorted` lists as many strings as the set holds. */
  lemma {:induction false} SortedStringsLength(s: set<string>)
    ensures |SortedStrings(s)| == |s|
    decreases |s|
  {
    if s != {} {
      var m := LeastString(s);
      assert |s - {m}| == |s| - 1;
      SortedStringsLength(s - {m});
    }
  }
}
