/**
 * The covering stage of minish_hat.py:547-610, minish-hat.py:443-520 and
 * minish-ruleset.py:326-400: which unmarked primes cover each initial minterm
 * (`cover_dict`), the greedy loop that extracts essential primes (`--hybridcover`), and
 * the reduced covering problem handed to the solver (`id_cover`, written out by
 * `mincover_facts`).
 */
module Cover {
  import opened Wrappers
  import opened Numerals
  import opened Expand
  import opened Implicants
  import opened Pipeline
  import opened Ordering
  import opened Text

  /**
   * Whether the prime `e` covers the initial minterm `ik`, whose record `initial[ik]` holds
   * the minterm and its totalizations: minish_hat.py asks for the minterm among the prime's
   * covers, minish-hat.py for a common total cover, minish-ruleset.py for a common cover.
   */
  predicate CoveredBy(v: Variant, ik: nat, initial: map<nat, set<nat>>, e: Implicant)
    requires ik in initial
  {
    match v
    case Hat => ik in e.covers
    case HatDash => initial[ik] * e.totalcovers != {}
    case Ruleset => initial[ik] * e.covers != {}
  }

  /** What choosing the prime `e` covers: its total covers, or its covers in minish-ruleset.py. */
  function EssentialCover(v: Variant, e: Implicant): set<nat>
  {
    if v == Ruleset then e.covers else e.totalcovers
  }

  /** The keys among `us` whose primes cover `ik`, in the order of `us`. */
  function Coverers(v: Variant, ik: nat, initial: map<nat, set<nat>>, primes: map<nat, Implicant>, us: seq<nat>): (r: seq<nat>)
    requires ik in initial && forall u :: u in us ==> u in primes
    ensures forall u :: u in r <==> u in us && CoveredBy(v, ik, initial, primes[u])
    decreases |us|
  {
    if |us| == 0 then []
    else
      var u := us[|us| - 1];
      assert forall x :: x in us <==> x in us[..|us| - 1] || x == u;
      Coverers(v, ik, initial, primes, us[..|us| - 1]) + (if CoveredBy(v, ik, initial, primes[u]) then [u] else [])
  }

  /**
   * The `covered_by` lists of `cover_dict` over the initial minterms `iks` and the unmarked
   * keys `us`: a minterm is listed exactly when some prime covers it, with all of its
   * coverers in the order of `us`. The `is_used` flags start out false; the essential loop
   * keeps the set of minterms whose flag it has set.
   */
  function CoverTable(v: Variant, initial: map<nat, set<nat>>, primes: map<nat, Implicant>, us: seq<nat>, iks: seq<nat>): (cd: map<nat, seq<nat>>)
    requires (forall ik :: ik in iks ==> ik in initial) && forall u :: u in us ==> u in primes
    ensures forall ck :: ck in cd <==> ck in iks && Coverers(v, ck, initial, primes, us) != []
    ensures forall ck :: ck in cd ==> cd[ck] == Coverers(v, ck, initial, primes, us)
    decreases |iks|
  {
    if |iks| == 0 then map[]
    else
      var ik := iks[|iks| - 1];
      assert forall x :: x in iks <==> x in iks[..|iks| - 1] || x == ik;
      var cd := CoverTable(v, initial, primes, us, iks[..|iks| - 1]);
      var cs := Coverers(v, ik, initial, primes, us);
      if cs == [] then cd else cd[ik := cs]
  }

  /** The inner `for uk, uv in unmarked.items()` loop for one initial minterm `ik`. */
  method AddCoverers(cd: map<nat, seq<nat>>, v: Variant, ik: nat, initial: map<nat, set<nat>>, primes: map<nat, Implicant>, us: seq<nat>)
    returns (r: map<nat, seq<nat>>)
    requires ik in initial && ik !in cd && forall u :: u in us ==> u in primes
    ensures r == if Coverers(v, ik, initial, primes, us) == [] then cd else cd[ik := Coverers(v, ik, initial, primes, us)]
  {
    r := cd;
    ghost var found: seq<nat> := [];
    for j := 0 to |us|
      invariant found == Coverers(v, ik, initial, primes, us[..j])
      invariant r == if found == [] then cd else cd[ik := found]
    {
      var uk := us[j];
      CoverersSnoc(v, ik, initial, primes, us, j);
      if CoveredBy(v, ik, initial, primes[uk]) {
        if ik !in r {
          assert found == [];
          r := r[ik := [uk]];
          assert found + [uk] == [uk];
        } else {
          assert r[ik] == found;
          r := r[ik := r[ik] + [uk]];
        }
        found := found + [uk];
      }
    }
    assert us[..|us|] == us;
  }

  /** The coverers among the first `j + 1` keys of `us`, from those among the first `j`. */
  lemma CoverersSnoc(v: Variant, ik: nat, initial: map<nat, set<nat>>, primes: map<nat, Implicant>, us: seq<nat>, j: nat)
    requires ik in initial && (forall u :: u in us ==> u in primes) && j < |us|
    ensures Coverers(v, ik, initial, primes, us[..j + 1]) ==
      Coverers(v, ik, initial, primes, us[..j]) + (if CoveredBy(v, ik, initial, primes[us[j]]) then [us[j]] else [])
  {
    assert us[..j + 1][..j] == us[..j];
  }

  /**
   * The `cover_dict` loops over the initial minterms `iks` (the keys of
   * `initial_minterms`, in its order) and the unmarked keys `us`.
   */
  method BuildCoverTable(v: Variant, initial: map<nat, set<nat>>, iks: seq<nat>, primes: map<nat, Implicant>, us: seq<nat>)
    returns (cd: map<nat, seq<nat>>)
    requires NoDuplicates(iks) && (forall ik :: ik in iks ==> ik in initial) && forall u :: u in us ==> u in primes
    ensures cd == CoverTable(v, initial, primes, us, iks)
  {
    cd := map[];
    for i := 0 to |iks|
      invariant cd == CoverTable(v, initial, primes, us, iks[..i])
    {
      assert iks[..i + 1][..i] == iks[..i];
      assert iks[i] !in iks[..i];
      cd := AddCoverers(cd, v, iks[i], initial, primes, us);
    }
    assert iks[..|iks|] == iks;
  }

  // ---------------------------------------------------------------- the essential loop

  /** Every coverer `cd` lists is a prime. */
  ghost predicate Fits(cd: map<nat, seq<nat>>, primes: map<nat, Implicant>)
  {
    forall k, u :: k in cd && u in cd[k] ==> u in primes
  }

  /** Every key of `us` is in the table. */
  predicate Within(us: seq<nat>, cd: map<nat, seq<nat>>)
  {
    forall j :: 0 <= j < |us| ==> us[j] in cd
  }

  /** `unused_cover_dict`: the minterms of the table not in `used`, in the order of `iks`. */
  function UnusedIn(iks: seq<nat>, cd: map<nat, seq<nat>>, used: set<nat>): (r: seq<nat>)
    ensures forall k :: k in r <==> k in iks && k in cd && k !in used
    ensures Within(r, cd)
    decreases |iks|
  {
    if |iks| == 0 then []
    else
      var k := iks[|iks| - 1];
      assert forall x :: x in iks <==> x in iks[..|iks| - 1] || x == k;
      UnusedIn(iks[..|iks| - 1], cd, used) + (if k in cd && k !in used then [k] else [])
  }

  /**
   * `cover_dict[minid]['is_used'] = True` for every `minid` of `ms`: a KeyError when some
   * `minid` is not in the table, else the minterms of `ms` join the used ones.
   */
  function MarkUsed(cd: map<nat, seq<nat>>, used: set<nat>, ms: set<nat>): (r: Result<set<nat>>)
  {
    if ms <= cd.Keys then Ok(used + ms) else Err(KeyError)
  }

  /** The `for minid in list(essential_cover & initial_minterms_set)` loop. */
  method MarkCover(cd: map<nat, seq<nat>>, used: set<nat>, ms: set<nat>) returns (r: Result<set<nat>>)
    ensures r.Ok? <==> ms <= cd.Keys
    ensures r.Err? ==> r.fault == KeyError
    ensures r.Ok? ==> r.value == used + ms
    ensures r == MarkUsed(cd, used, ms)
  {
    var cur := used;
    var rest, done := ms, {};
    while rest != {}
      invariant rest + done == ms && done <= cd.Keys && cur == used + done
      decreases rest
    {
      var minid :| minid in rest;
      if minid !in cd {
        return Err(KeyError);
      }
      cur := cur + {minid};
      rest, done := rest - {minid}, done + {minid};
    }
    return Ok(cur);
  }

  /** The state a pass carries: the used minterms, `essential_implicates` in its order, and `essential_count`. */
  datatype Pass = Pass(used: set<nat>, essentials: seq<nat>, count: nat)

  /**
   * One `for ck, cv in unused_cover_dict.items()` round, for a minterm with coverers `cs`:
   * a single coverer becomes essential (`update` keeps an existing key in place) and marks
   * what it covers.
   */
  function Step(st: Pass, cs: seq<nat>, cd: map<nat, seq<nat>>, v: Variant, primes: map<nat, Implicant>, initialKeys: set<nat>): Result<Pass>
    requires forall u :: u in cs ==> u in primes
  {
    if |cs| != 1 then Ok(st)
    else
      var ek := cs[0];
      var essentials := if ek in st.essentials then st.essentials else st.essentials + [ek];
      match MarkUsed(cd, st.used, EssentialCover(v, primes[ek]) * initialKeys)
      case Err(f) => Err(f)
      case Ok(used) => Ok(Pass(used, essentials, st.count + 1))
  }

  /** The rounds of one pass over the unused minterms `us`. */
  function PassOver(st: Pass, cd: map<nat, seq<nat>>, us: seq<nat>, v: Variant, primes: map<nat, Implicant>, initialKeys: set<nat>): Result<Pass>
    requires Fits(cd, primes) && Within(us, cd)
    decreases |us|
  {
    if |us| == 0 then Ok(st)
    else
      match PassOver(st, cd, us[..|us| - 1], v, primes, initialKeys)
      case Err(f) => Err(f)
      case Ok(mid) => Step(mid, cd[us[|us| - 1]], cd, v, primes, initialKeys)
  }

  /** A KeyError ends the pass: the rounds after it do not run. */
  lemma {:induction false} PassOverFails(st: Pass, cd: map<nat, seq<nat>>, us: seq<nat>, j: nat, v: Variant, primes: map<nat, Implicant>, initialKeys: set<nat>)
    requires Fits(cd, primes) && Within(us, cd) && j <= |us|
    requires PassOver(st, cd, us[..j], v, primes, initialKeys).Err?
    ensures PassOver(st, cd, us, v, primes, initialKeys) == PassOver(st, cd, us[..j], v, primes, initialKeys)
    decreases |us| - j
  {
    if j < |us| {
      assert us[..|us| - 1][..j] == us[..j];
      PassOverFails(st, cd, us[..|us| - 1], j, v, primes, initialKeys);
    } else {
      assert us[..j] == us;
    }
  }

  /** One pass of the `while True` loop, over the minterms unused when it starts. */
  method EssentialPass(v: Variant, primes: map<nat, Implicant>, initialKeys: set<nat>, iks: seq<nat>, cd: map<nat, seq<nat>>, used: set<nat>, essentials: seq<nat>)
    returns (r: Result<Pass>)
    requires Fits(cd, primes)
    ensures r == PassOver(Pass(used, essentials, 0), cd, UnusedIn(iks, cd, used), v, primes, initialKeys)
  {
    var unused := UnusedIn(iks, cd, used);
    var cur, ess, count := used, essentials, 0;
    for i := 0 to |unused|
      invariant PassOver(Pass(used, essentials, 0), cd, unused[..i], v, primes, initialKeys) == Ok(Pass(cur, ess, count))
    {
      PassOverSnoc(Pass(used, essentials, 0), cd, unused, i, v, primes, initialKeys);
      var cs := cd[unused[i]];
      if |cs| == 1 {
        count := count + 1;
        var ek := cs[0];
        if ek !in ess {
          ess := ess + [ek];
        }
        var m := MarkCover(cd, cur, EssentialCover(v, primes[ek]) * initialKeys);
        if m.Err? {
          PassOverFails(Pass(used, essentials, 0), cd, unused, i + 1, v, primes, initialKeys);
          return Err(m.fault);
        }
        cur := m.value;
      }
    }
    assert unused[..|unused|] == unused;
    return Ok(Pass(cur, ess, count));
  }

  /** One more minterm is one more round of the pass. */
  lemma PassOverSnoc(st: Pass, cd: map<nat, seq<nat>>, us: seq<nat>, i: nat, v: Variant, primes: map<nat, Implicant>, initialKeys: set<nat>)
    requires Fits(cd, primes) && Within(us, cd) && i < |us|
    ensures Within(us[..i], cd) && Within(us[..i + 1], cd)
    ensures PassOver(st, cd, us[..i + 1], v, primes, initialKeys) ==
      match PassOver(st, cd, us[..i], v, primes, initialKeys)
      case Err(f) => Err(f)
      case Ok(mid) => Step(mid, cd[us[i]], cd, v, primes, initialKeys)
  {
    assert us[..i + 1][..i] == us[..i];
  }

  /** The minterms of `us` with a single coverer. */
  ghost function Singles(cd: map<nat, seq<nat>>, us: seq<nat>): set<nat>
  {
    set k | k in us && k in cd && |cd[k]| == 1
  }

  /** The primes that are the single coverer of some minterm of `us`. */
  ghost function SingleCoverers(cd: map<nat, seq<nat>>, us: seq<nat>): set<nat>
  {
    set k | k in us && k in cd && |cd[k]| == 1 :: cd[k][0]
  }

  /** The initial minterms that choosing the primes `es` covers. */
  ghost function Marks(v: Variant, primes: map<nat, Implicant>, initialKeys: set<nat>, es: set<nat>): set<nat>
  {
    set e, k | e in es && e in primes && k in EssentialCover(v, primes[e]) && k in initialKeys :: k
  }

  lemma MarksUnion(v: Variant, primes: map<nat, Implicant>, initialKeys: set<nat>, a: set<nat>, b: set<nat>)
    ensures Marks(v, primes, initialKeys, a + b) == Marks(v, primes, initialKeys, a) + Marks(v, primes, initialKeys, b)
  {
  }

  /** The elements of a sequence. */
  function Elems(s: seq<nat>): set<nat>
  {
    set x | x in s
  }

  /**
   * What a pass that ends without a KeyError does: the single coverers of the minterms it
   * reads join the essentials (no key twice), what they cover joins the used minterms, and
   * the count stays put exactly when no minterm it reads has a single coverer.
   */
  lemma PassOverOk(st: Pass, cd: map<nat, seq<nat>>, us: seq<nat>, v: Variant, primes: map<nat, Implicant>, initialKeys: set<nat>)
    requires Fits(cd, primes) && Within(us, cd)
    requires PassOver(st, cd, us, v, primes, initialKeys).Ok?
    ensures var r := PassOver(st, cd, us, v, primes, initialKeys).value;
      && r.used == st.used + Marks(v, primes, initialKeys, SingleCoverers(cd, us))
      && Elems(r.essentials) == Elems(st.essentials) + SingleCoverers(cd, us)
      && (NoDuplicates(st.essentials) ==> NoDuplicates(r.essentials))
      && (r.count == st.count <==> Singles(cd, us) == {})
  {
    PassOverCount(st, cd, us, v, primes, initialKeys);
    PassOverUses(st, cd, us, v, primes, initialKeys);
    PassOverEssentials(st, cd, us, v, primes, initialKeys);
  }

  /** A pass's count grows exactly when it reads a minterm with a single coverer. */
  lemma {:induction false} PassOverCount(st: Pass, cd: map<nat, seq<nat>>, us: seq<nat>, v: Variant, primes: map<nat, Implicant>, initialKeys: set<nat>)
    requires Fits(cd, primes) && Within(us, cd)
    requires PassOver(st, cd, us, v, primes, initialKeys).Ok?
    ensures var r := PassOver(st, cd, us, v, primes, initialKeys).value;
      && r.count >= st.count && (r.count == st.count <==> Singles(cd, us) == {})
    decreases |us|
  {
    if |us| > 0 {
      var init, k := us[..|us| - 1], us[|us| - 1];
      PassOverCount(st, cd, init, v, primes, initialKeys);
      assert forall x :: x in us <==> x in init || x == k;
      if |cd[k]| == 1 {
        assert Singles(cd, us) == Singles(cd, init) + {k};
      } else {
        assert Singles(cd, us) == Singles(cd, init);
      }
    }
  }

  /** A pass uses up exactly what the single coverers of the minterms it reads cover. */
  lemma {:induction false} PassOverUses(st: Pass, cd: map<nat, seq<nat>>, us: seq<nat>, v: Variant, primes: map<nat, Implicant>, initialKeys: set<nat>)
    requires Fits(cd, primes) && Within(us, cd)
    requires PassOver(st, cd, us, v, primes, initialKeys).Ok?
    ensures PassOver(st, cd, us, v, primes, initialKeys).value.used == st.used + Marks(v, primes, initialKeys, SingleCoverers(cd, us))
    decreases |us|
  {
    if |us| > 0 {
      var init, k := us[..|us| - 1], us[|us| - 1];
      PassOverUses(st, cd, init, v, primes, initialKeys);
      assert forall x :: x in us <==> x in init || x == k;
      if |cd[k]| == 1 {
        var ek := cd[k][0];
        assert SingleCoverers(cd, us) == SingleCoverers(cd, init) + {ek};
        MarksUnion(v, primes, initialKeys, SingleCoverers(cd, init), {ek});
        assert Marks(v, primes, initialKeys, {ek}) == EssentialCover(v, primes[ek]) * initialKeys;
      } else {
        assert SingleCoverers(cd, us) == SingleCoverers(cd, init);
      }
    }
  }

  /** A pass adds the single coverers of the minterms it reads to the essentials, each once. */
  lemma {:induction false} PassOverEssentials(st: Pass, cd: map<nat, seq<nat>>, us: seq<nat>, v: Variant, primes: map<nat, Implicant>, initialKeys: set<nat>)
    requires Fits(cd, primes) && Within(us, cd)
    requires PassOver(st, cd, us, v, primes, initialKeys).Ok?
    ensures var r := PassOver(st, cd, us, v, primes, initialKeys).value;
      && Elems(r.essentials) == Elems(st.essentials) + SingleCoverers(cd, us)
      && (NoDuplicates(st.essentials) ==> NoDuplicates(r.essentials))
    decreases |us|
  {
    if |us| > 0 {
      var init, k := us[..|us| - 1], us[|us| - 1];
      PassOverEssentials(st, cd, init, v, primes, initialKeys);
      var mid := PassOver(st, cd, init, v, primes, initialKeys).value;
      assert forall x :: x in us <==> x in init || x == k;
      if |cd[k]| == 1 {
        var ek := cd[k][0];
        assert Elems(mid.essentials + [ek]) == Elems(mid.essentials) + {ek};
        assert SingleCoverers(cd, us) == SingleCoverers(cd, init) + {ek};
      } else {
        assert SingleCoverers(cd, us) == SingleCoverers(cd, init);
      }
    }
  }

  /** A KeyError in a pass comes from a single coverer covering an initial minterm missing from the table. */
  lemma {:induction false} PassOverErr(st: Pass, cd: map<nat, seq<nat>>, us: seq<nat>, v: Variant, primes: map<nat, Implicant>, initialKeys: set<nat>)
    requires Fits(cd, primes) && Within(us, cd)
    requires PassOver(st, cd, us, v, primes, initialKeys).Err?
    ensures PassOver(st, cd, us, v, primes, initialKeys).fault == KeyError
    ensures exists e :: e in SingleCoverers(cd, us) && e in primes && !(EssentialCover(v, primes[e]) * initialKeys <= cd.Keys)
    decreases |us|
  {
    var init, k := us[..|us| - 1], us[|us| - 1];
    assert forall x :: x in init ==> x in us;
    var p := PassOver(st, cd, init, v, primes, initialKeys);
    if p.Err? {
      PassOverErr(st, cd, init, v, primes, initialKeys);
      var e :| e in SingleCoverers(cd, init) && e in primes && !(EssentialCover(v, primes[e]) * initialKeys <= cd.Keys);
      assert e in SingleCoverers(cd, us);
    } else {
      var ek := cd[k][0];
      assert ek in SingleCoverers(cd, us);
    }
  }

  /**
   * Each minterm is among what each of its coverers covers when chosen: minish_hat.py lists
   * a prime as a coverer only when the minterm is among its covers, a part of its total covers.
   */
  ghost predicate Determined(v: Variant, primes: map<nat, Implicant>, initialKeys: set<nat>, cd: map<nat, seq<nat>>)
  {
    forall k, u :: k in cd && u in cd[k] ==> u in primes && k in initialKeys && k in EssentialCover(v, primes[u])
  }

  /**
   * In a table where coverers determine their minterms, a pass that finds a single coverer
   * uses up a minterm: the one it is the single coverer of.
   */
  lemma PassProgress(v: Variant, primes: map<nat, Implicant>, initialKeys: set<nat>, cd: map<nat, seq<nat>>, us: seq<nat>, used: set<nat>)
    requires Determined(v, primes, initialKeys, cd) && Within(us, cd) && forall j :: 0 <= j < |us| ==> us[j] !in used
    requires Singles(cd, us) != {}
    ensures used < used + Marks(v, primes, initialKeys, SingleCoverers(cd, us))
  {
    var k :| k in Singles(cd, us);
    var e := cd[k][0];
    assert e in SingleCoverers(cd, us);
    assert e in cd[k];
    assert e in primes && k in EssentialCover(v, primes[e]) && k in initialKeys;
    assert k in Marks(v, primes, initialKeys, SingleCoverers(cd, us));
  }

  /** How the essential loop ends, other than with a KeyError. */
  datatype Ending =
    | FullCover    // no unused minterm is left (`fullcover = True`)
    | NoEssentials // a pass found no minterm with a single coverer
    | OutOfPasses  // the bound on passes was reached first

  /**
   * What the essential loop keeps after `passes` passes over the table `cd`: the essentials
   * are single coverers listed once each, the used minterms are exactly what they cover,
   * and where coverers determine their minterms each pass so far used one up.
   */
  ghost predicate Extracting(v: Variant, primes: map<nat, Implicant>, initialKeys: set<nat>, iks: seq<nat>, cd: map<nat, seq<nat>>,
                             used: set<nat>, essentials: seq<nat>, passes: nat)
  {
    && NoDuplicates(essentials)
    && Elems(essentials) <= SingleCoverers(cd, iks)
    && used == Marks(v, primes, initialKeys, Elems(essentials))
    && used <= cd.Keys
    && (Determined(v, primes, initialKeys, cd) ==> passes <= |used|)
  }

  /**
   * The `--hybridcover` loop over the table `cd` built by the `cover_dict` loops, for at
   * most `maxPasses` passes. The essentials are single coverers, listed once each; the used
   * minterms are exactly what they cover; a full cover leaves no minterm unused; a pass
   * with no essentials leaves no unused minterm with a single coverer; a KeyError comes
   * from a single coverer covering an initial minterm that no prime covers. Where
   * coverers determine their minterms the loop ends within `|cd.Keys| + 1` passes.
   */
  method EssentialLoop(v: Variant, primes: map<nat, Implicant>, initialKeys: set<nat>, iks: seq<nat>, cd: map<nat, seq<nat>>, maxPasses: nat)
    returns (r: Result<Ending>, used: set<nat>, essentials: seq<nat>, passes: nat)
    requires Fits(cd, primes) && cd.Keys <= Elems(iks)
    ensures passes <= maxPasses && NoDuplicates(essentials) && Elems(essentials) <= SingleCoverers(cd, iks)
    ensures r.Ok? ==> used == Marks(v, primes, initialKeys, Elems(essentials)) && used <= cd.Keys
    ensures r == Ok(FullCover) ==> used == cd.Keys
    ensures r == Ok(NoEssentials) ==> used < cd.Keys && forall k :: k in cd && k !in used ==> |cd[k]| != 1
    ensures r.Err? ==> r.fault == KeyError && exists e :: e in SingleCoverers(cd, iks) && e in primes && !(EssentialCover(v, primes[e]) * initialKeys <= cd.Keys)
    ensures Determined(v, primes, initialKeys, cd) && maxPasses > |cd.Keys| ==> r != Ok(OutOfPasses)
  {
    used, essentials, passes := {}, [], 0;
    while true
      invariant Extracting(v, primes, initialKeys, iks, cd, used, essentials, passes) && passes <= maxPasses
      decreases maxPasses - passes
    {
      if passes == maxPasses {
        if Determined(v, primes, initialKeys, cd) {
          SubsetNoLarger(used, cd.Keys);
        }
        return Ok(OutOfPasses), used, essentials, passes;
      }
      var stop;
      stop, used, essentials := EssentialRound(v, primes, initialKeys, iks, cd, used, essentials, passes);
      if stop.Some? {
        return stop.value, used, essentials, passes;
      }
      passes := passes + 1;
    }
  }

  /** How a round that ends the loop leaves it. */
  ghost predicate Ended(r: Result<Ending>, v: Variant, primes: map<nat, Implicant>, initialKeys: set<nat>, iks: seq<nat>, cd: map<nat, seq<nat>>, used: set<nat>)
  {
    && (r == Ok(FullCover) ==> used == cd.Keys)
    && (r == Ok(NoEssentials) ==> used < cd.Keys && forall k :: k in cd && k !in used ==> |cd[k]| != 1)
    && (r.Err? ==> r.fault == KeyError && exists e :: e in SingleCoverers(cd, iks) && e in primes && !(EssentialCover(v, primes[e]) * initialKeys <= cd.Keys))
    && r != Ok(OutOfPasses)
  }

  /**
   * One round of the `while True` loop: a full cover or a pass without essentials ends the
   * loop, and so does a KeyError; otherwise the pass is one further on.
   */
  method EssentialRound(v: Variant, primes: map<nat, Implicant>, initialKeys: set<nat>, iks: seq<nat>, cd: map<nat, seq<nat>>,
                        used: set<nat>, essentials: seq<nat>, ghost passes: nat)
    returns (stop: Option<Result<Ending>>, used': set<nat>, essentials': seq<nat>)
    requires Fits(cd, primes) && cd.Keys <= Elems(iks) && Extracting(v, primes, initialKeys, iks, cd, used, essentials, passes)
    ensures stop.None? ==> Extracting(v, primes, initialKeys, iks, cd, used', essentials', passes + 1)
    ensures stop.Some? ==> used' == used && essentials' == essentials && Ended(stop.value, v, primes, initialKeys, iks, cd, used)
  {
    used', essentials' := used, essentials;
    var unused := UnusedIn(iks, cd, used);
    if |unused| == 0 {
      FullEnds(v, primes, initialKeys, iks, cd, used);
      return Some(Ok(FullCover)), used', essentials';
    }
    var p := EssentialPass(v, primes, initialKeys, iks, cd, used, essentials);
    if p.Err? {
      PassKeyError(v, primes, initialKeys, iks, cd, used, essentials);
      return Some(Err(p.fault)), used', essentials';
    }
    if p.value.count == 0 {
      PassIdle(v, primes, initialKeys, iks, cd, used, essentials, p.value);
      return Some(Ok(NoEssentials)), used', essentials';
    }
    PassAdvances(v, primes, initialKeys, iks, cd, used, essentials, passes, p.value);
    return None, p.value.used, p.value.essentials;
  }

  /** No unused minterm left means every minterm of the table is used. */
  lemma FullEnds(v: Variant, primes: map<nat, Implicant>, initialKeys: set<nat>, iks: seq<nat>, cd: map<nat, seq<nat>>, used: set<nat>)
    requires cd.Keys <= Elems(iks) && used <= cd.Keys && |UnusedIn(iks, cd, used)| == 0
    ensures Ended(Ok(FullCover), v, primes, initialKeys, iks, cd, used)
  {
    var unused := UnusedIn(iks, cd, used);
    forall k | k in cd ensures k in used {
      assert k !in unused;
    }
  }

  /** A pass that counts an essential keeps what the loop keeps, one pass further on. */
  lemma PassAdvances(v: Variant, primes: map<nat, Implicant>, initialKeys: set<nat>, iks: seq<nat>, cd: map<nat, seq<nat>>,
                     used: set<nat>, essentials: seq<nat>, passes: nat, p: Pass)
    requires Fits(cd, primes) && Extracting(v, primes, initialKeys, iks, cd, used, essentials, passes)
    requires PassOver(Pass(used, essentials, 0), cd, UnusedIn(iks, cd, used), v, primes, initialKeys) == Ok(p) && p.count > 0
    ensures Extracting(v, primes, initialKeys, iks, cd, p.used, p.essentials, passes + 1)
  {
    var unused := UnusedIn(iks, cd, used);
    PassOverOk(Pass(used, essentials, 0), cd, unused, v, primes, initialKeys);
    assert SingleCoverers(cd, unused) <= SingleCoverers(cd, iks);
    MarksUnion(v, primes, initialKeys, Elems(essentials), SingleCoverers(cd, unused));
    PassOverWithin(Pass(used, essentials, 0), cd, unused, v, primes, initialKeys);
    if Determined(v, primes, initialKeys, cd) {
      PassProgress(v, primes, initialKeys, cd, unused, used);
      SubsetSmaller(used, p.used);
    }
  }

  /** A pass that ends without a KeyError uses only minterms of the table. */
  lemma {:induction false} PassOverWithin(st: Pass, cd: map<nat, seq<nat>>, us: seq<nat>, v: Variant, primes: map<nat, Implicant>, initialKeys: set<nat>)
    requires Fits(cd, primes) && Within(us, cd) && st.used <= cd.Keys
    requires PassOver(st, cd, us, v, primes, initialKeys).Ok?
    ensures PassOver(st, cd, us, v, primes, initialKeys).value.used <= cd.Keys
    decreases |us|
  {
    if |us| > 0 {
      PassOverWithin(st, cd, us[..|us| - 1], v, primes, initialKeys);
    }
  }

  /** A pass that counts no essential leaves no unused minterm with a single coverer. */
  lemma PassIdle(v: Variant, primes: map<nat, Implicant>, initialKeys: set<nat>, iks: seq<nat>, cd: map<nat, seq<nat>>,
                 used: set<nat>, essentials: seq<nat>, p: Pass)
    requires Fits(cd, primes) && cd.Keys <= Elems(iks)
    requires used <= cd.Keys && |UnusedIn(iks, cd, used)| > 0
    requires PassOver(Pass(used, essentials, 0), cd, UnusedIn(iks, cd, used), v, primes, initialKeys) == Ok(p) && p.count == 0
    ensures Ended(Ok(NoEssentials), v, primes, initialKeys, iks, cd, used)
  {
    var unused := UnusedIn(iks, cd, used);
    assert unused[0] in cd && unused[0] !in used;
    PassOverCount(Pass(used, essentials, 0), cd, unused, v, primes, initialKeys);
    forall k | k in cd && k !in used ensures |cd[k]| != 1 {
      assert k in unused;
      assert k !in Singles(cd, unused);
    }
  }

  /** A KeyError in a pass comes from a single coverer covering an initial minterm outside the table. */
  lemma PassKeyError(v: Variant, primes: map<nat, Implicant>, initialKeys: set<nat>, iks: seq<nat>, cd: map<nat, seq<nat>>,
                     used: set<nat>, essentials: seq<nat>)
    requires Fits(cd, primes)
    requires PassOver(Pass(used, essentials, 0), cd, UnusedIn(iks, cd, used), v, primes, initialKeys).Err?
    ensures Ended(Err(PassOver(Pass(used, essentials, 0), cd, UnusedIn(iks, cd, used), v, primes, initialKeys).fault), v, primes, initialKeys, iks, cd, used)
  {
    var unused := UnusedIn(iks, cd, used);
    PassOverErr(Pass(used, essentials, 0), cd, unused, v, primes, initialKeys);
    assert SingleCoverers(cd, unused) <= SingleCoverers(cd, iks);
  }

  lemma SubsetSmaller(a: set<nat>, b: set<nat>)
    requires a < b
    ensures |a| < |b|
  {
    assert b == a + (b - a);
    assert b - a != {};
  }

  lemma SubsetNoLarger(a: set<nat>, b: set<nat>)
    requires a <= b
    ensures |a| <= |b|
  {
    assert b == a + (b - a);
  }

  // ---------------------------------------------------------------- the table's properties

  /** The coverers `cover_dict` lists are unmarked keys, and its minterms are initial minterms. */
  lemma CoverTableFits(v: Variant, initial: map<nat, set<nat>>, primes: map<nat, Implicant>, us: seq<nat>, iks: seq<nat>)
    requires (forall ik :: ik in iks ==> ik in initial) && forall u :: u in us ==> u in primes
    ensures Fits(CoverTable(v, initial, primes, us, iks), primes)
    ensures CoverTable(v, initial, primes, us, iks).Keys <= Elems(iks)
    ensures forall k :: k in CoverTable(v, initial, primes, us, iks) ==>
              CoverTable(v, initial, primes, us, iks)[k] != [] && forall u :: u in CoverTable(v, initial, primes, us, iks)[k] ==> u in us
  {
    var cd := CoverTable(v, initial, primes, us, iks);
    forall k, u | k in cd && u in cd[k] ensures u in primes && u in us {
      assert u in Coverers(v, k, initial, primes, us);
    }
  }

  /**
   * In minish_hat.py a prime covers an initial minterm when the minterm is among its
   * covers, and the covers of a well-formed entry are among its total covers: so choosing
   * any coverer of a minterm marks that minterm used, which is what makes every pass of
   * the essential loop that finds an essential use up at least one more minterm.
   */
  lemma HatDetermined(initial: map<nat, set<nat>>, primes: map<nat, Implicant>, us: seq<nat>, iks: seq<nat>, n: nat)
    requires forall ik :: ik in iks ==> ik in initial
    requires forall u :: u in us ==> u in primes && WellFormed(u, primes[u], n)
    ensures Determined(Hat, primes, initial.Keys, CoverTable(Hat, initial, primes, us, iks))
  {
    var cd := CoverTable(Hat, initial, primes, us, iks);
    forall k, u | k in cd && u in cd[k] ensures u in primes && k in initial.Keys && k in EssentialCover(Hat, primes[u]) {
      assert u in Coverers(Hat, k, initial, primes, us);
      WellFormedCovers(u, primes[u], n);
    }
  }

  // ---------------------------------------------------------------- the reduced covering problem

  /**
   * `prime_left`: with `--hybridcover` the unmarked keys that did not become essential,
   * otherwise every unmarked key, in the order of `us`.
   */
  function PrimeLeft(hybrid: bool, us: seq<nat>, essentials: seq<nat>): (r: seq<nat>)
    ensures forall k :: k in r <==> k in us && !(hybrid && k in essentials)
    ensures NoDuplicates(us) ==> NoDuplicates(r)
    decreases |us|
  {
    if |us| == 0 then []
    else
      var rest := PrimeLeft(hybrid, us[1..], essentials);
      assert forall x :: x in us[1..] ==> x in us;
      assert NoDuplicates(us) ==> us[0] !in us[1..] && NoDuplicates(us[1..]);
      if hybrid && us[0] in essentials then rest else [us[0]] + rest
  }

  /**
   * `minids`: with `--hybridcover` the minterms the essential loop left unused, otherwise
   * every minterm of `cover_dict`.
   */
  function MinIds(hybrid: bool, cd: map<nat, seq<nat>>, used: set<nat>): (r: set<nat>)
    ensures r <= cd.Keys
    ensures forall k :: k in cd ==> (k in r <==> !(hybrid && k in used))
  {
    if hybrid then cd.Keys - used else cd.Keys
  }

  /**
   * `id_cover`: for each key of `left` in order, what choosing its prime covers among the
   * minterms `minids`, when that is not empty.
   */
  function IdCover(v: Variant, primes: map<nat, Implicant>, left: seq<nat>, minids: set<nat>): (r: seq<(nat, set<nat>)>)
    requires forall k :: k in left ==> k in primes
    ensures forall i :: 0 <= i < |r| ==> r[i].0 in left && r[i].1 == EssentialCover(v, primes[r[i].0]) * minids && r[i].1 != {}
    ensures forall k :: k in left && EssentialCover(v, primes[k]) * minids != {} ==> exists i :: 0 <= i < |r| && r[i].0 == k
    decreases |left|
  {
    if |left| == 0 then []
    else
      var k := left[|left| - 1];
      var rest := IdCover(v, primes, left[..|left| - 1], minids);
      assert forall x :: x in left <==> x in left[..|left| - 1] || x == k;
      var limited := EssentialCover(v, primes[k]) * minids;
      if limited != {} then
        var r := rest + [(k, limited)];
        assert forall i :: 0 <= i < |rest| ==> r[i] == rest[i];
        assert r[|rest|].0 == k;
        r
      else rest
  }

  /** The `for k,v in prime_left.items()` loop building `id_cover`. */
  method BuildIdCover(v: Variant, primes: map<nat, Implicant>, left: seq<nat>, minids: set<nat>) returns (r: seq<(nat, set<nat>)>)
    requires forall k :: k in left ==> k in primes
    ensures r == IdCover(v, primes, left, minids)
  {
    r := [];
    for i := 0 to |left|
      invariant r == IdCover(v, primes, left[..i], minids)
    {
      assert left[..i + 1][..i] == left[..i];
      var limited := EssentialCover(v, primes[left[i]]) * minids;
      if |limited| > 0 {
        r := r + [(left[i], limited)];
      }
    }
    assert left[..|left|] == left;
  }

  /**
   * The reduced problem loses no minterm: a minterm of `minids` that some prime left
   * covers is covered by some listed entry, and nothing outside `minids` is listed.
   */
  lemma IdCoverComplete(v: Variant, primes: map<nat, Implicant>, left: seq<nat>, minids: set<nat>, m: nat)
    requires forall k :: k in left ==> k in primes
    requires m in minids && exists k :: k in left && m in EssentialCover(v, primes[k])
    ensures exists i :: 0 <= i < |IdCover(v, primes, left, minids)| && m in IdCover(v, primes, left, minids)[i].1
  {
    var r := IdCover(v, primes, left, minids);
    var k :| k in left && m in EssentialCover(v, primes[k]);
    assert m in EssentialCover(v, primes[k]) * minids;
    var i :| 0 <= i < |r| && r[i].0 == k;
    assert m in r[i].1;
  }

  /**
   * Where coverers determine their minterms, the reduced problem can cover every minterm
   * of `minids`: a minterm left unused has no essential among its coverers (choosing
   * one would have used it), so one of its coverers is in `prime_left` and lists it.
   */
  lemma ReducedProblemCovers(v: Variant, primes: map<nat, Implicant>, initialKeys: set<nat>, cd: map<nat, seq<nat>>, us: seq<nat>,
                             hybrid: bool, used: set<nat>, essentials: seq<nat>, m: nat)
    requires Determined(v, primes, initialKeys, cd)
    requires forall k :: k in cd ==> cd[k] != [] && forall u :: u in cd[k] ==> u in us
    requires forall u :: u in us ==> u in primes
    requires used == Marks(v, primes, initialKeys, Elems(essentials))
    requires m in MinIds(hybrid, cd, used)
    ensures exists i :: 0 <= i < |IdCover(v, primes, PrimeLeft(hybrid, us, essentials), MinIds(hybrid, cd, used))|
                        && m in IdCover(v, primes, PrimeLeft(hybrid, us, essentials), MinIds(hybrid, cd, used))[i].1
  {
    var u := cd[m][0];
    assert u in cd[m];
    assert u in primes && m in initialKeys && m in EssentialCover(v, primes[u]);
    assert u in essentials ==> u in Elems(essentials) && m in used;
    var left := PrimeLeft(hybrid, us, essentials);
    assert u in left;
    IdCoverComplete(v, primes, left, MinIds(hybrid, cd, used), m);
  }

  // ---------------------------------------------------------------- mincover_facts

  /** `"leftid(\"{0}\"). ".format(k)` */
  function LeftIdFact(k: nat): string
  {
    "leftid(\"" + Decimal(k) + "\"). "
  }

  /** `"covers(\"{0}\", \"{1}\"). ".format(k, val)` */
  function CoversFact(k: nat, val: nat): string
  {
    "covers(\"" + Decimal(k) + "\", \"" + Decimal(val) + "\"). "
  }

  /** The `covers` facts of the key `k` for the values `vals`, in order. */
  function CoversFacts(k: nat, vals: seq<nat>): string
    decreases |vals|
  {
    if |vals| == 0 then ""
    else CoversFacts(k, vals[..|vals| - 1]) + CoversFact(k, vals[|vals| - 1])
  }

  /** The facts of one entry of `id_cover`: its `leftid`, its `covers` (the set in ascending order), and a line break. */
  function EntryFacts(k: nat, vals: set<nat>): string
  {
    LeftIdFact(k) + CoversFacts(k, Ascending(vals)) + "\n"
  }

  /** `mincover_facts(id_cover)`: the facts of each entry, in order. */
  function MincoverFacts(idc: seq<(nat, set<nat>)>): string
    decreases |idc|
  {
    if |idc| == 0 then ""
    else MincoverFacts(idc[..|idc| - 1]) + EntryFacts(idc[|idc| - 1].0, idc[|idc| - 1].1)
  }

  /** One round of the outer loop of `mincover_facts`: the facts of one entry. */
  method WriteEntryFacts(k: nat, v: set<nat>) returns (line: string)
    ensures line == EntryFacts(k, v)
  {
    var vals := Ascending(v);
    var covers := "";
    for j := 0 to |vals|
      invariant covers == CoversFacts(k, vals[..j])
    {
      assert vals[..j + 1][..j] == vals[..j];
      covers := covers + CoversFact(k, vals[j]);
    }
    assert vals[..|vals|] == vals;
    line := LeftIdFact(k) + covers + "\n";
  }

  /** The loops of `mincover_facts`, appending to `facts`. */
  method WriteMincoverFacts(idc: seq<(nat, set<nat>)>) returns (facts: string)
    ensures facts == MincoverFacts(idc)
  {
    facts := "";
    for i := 0 to |idc|
      invariant facts == MincoverFacts(idc[..i])
    {
      assert idc[..i + 1][..i] == idc[..i];
      var line := WriteEntryFacts(idc[i].0, idc[i].1);
      facts := facts + line;
    }
    assert idc[..|idc|] == idc;
  }

  /** The `covers` facts of a key hold no line break. */
  lemma {:induction false} CoversFactsOneLine(k: nat, vals: seq<nat>)
    ensures LineBreaks(CoversFacts(k, vals)) == 0
    decreases |vals|
  {
    if |vals| > 0 {
      CoversFactsOneLine(k, vals[..|vals| - 1]);
      NoLineBreaks(CoversFact(k, vals[|vals| - 1]));
      LineBreaksAppend(CoversFacts(k, vals[..|vals| - 1]), CoversFact(k, vals[|vals| - 1]));
    }
  }

  /** `mincover_facts` writes one line per entry of `id_cover`. */
  lemma {:induction false} MincoverFactsLines(idc: seq<(nat, set<nat>)>)
    ensures LineBreaks(MincoverFacts(idc)) == |idc|
    decreases |idc|
  {
    if |idc| > 0 {
      var (k, v) := idc[|idc| - 1];
      MincoverFactsLines(idc[..|idc| - 1]);
      NoLineBreaks(LeftIdFact(k));
      CoversFactsOneLine(k, Ascending(v));
      LineBreaksAppend(LeftIdFact(k), CoversFacts(k, Ascending(v)));
      LineBreaksAppend(LeftIdFact(k) + CoversFacts(k, Ascending(v)), "\n");
      OneLineBreak();
      LineBreaksAppend(MincoverFacts(idc[..|idc| - 1]), EntryFacts(k, v));
    }
  }
}
