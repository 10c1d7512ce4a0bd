/**
 * The cover stage of hybrid-minterms.py: `init_minterms` with the total cover of every
 * label over `0` and `2`, the prime implicants (the entries the pair loop left unmarked)
 * with their extended covers, `cover_dict` (for each input minterm, the primes covering
 * it). The extraction of essential primes is in HybridEssential and the facts handed
 * to the Petrick solver in HybridPetrick.
 */
module HybridCover {
  import opened Wrappers
  import opened Codec
  import opened Numerals
  import opened Text
  import opened Ordering
  import opened HybridLabels
  import opened HybridLoop
  import Expand
  import Frontier

  // ---------------------------------------------------------------- init_minterms

  /** An entry of `init_minterms`: the label, whether it is total, and the ids of its totalizations. */
  datatype Initial = Initial(lbl: string, isTotal: bool, totalCover: set<nat>)

  /** `frozenset([int(lb, 6) for lb in ls])`: a ValueError at the first string that is no base-6 numeral. */
  function IdsOf(ls: seq<string>): Result<set<nat>>
    decreases |ls|
  {
    if |ls| == 0 then Ok({})
    else match IdsOf(ls[..|ls| - 1])
      case Err(f) => Err(f)
      case Ok(s) =>
        match Id(ls[|ls| - 1])
        case Err(f) => Err(f)
        case Ok(x) => Ok(s + {x})
  }

  /** The ids are those of the strings, and there are ids exactly when every string has one. */
  lemma {:induction false} IdsOfMeaning(ls: seq<string>)
    ensures IdsOf(ls).Ok? <==> forall i :: 0 <= i < |ls| ==> Id(ls[i]).Ok?
    ensures IdsOf(ls).Ok? ==> forall x :: x in IdsOf(ls).value <==> exists i :: 0 <= i < |ls| && Id(ls[i]) == Ok(x)
    decreases |ls|
  {
    if |ls| > 0 {
      var init := ls[..|ls| - 1];
      IdsOfMeaning(init);
      assert forall i :: 0 <= i < |init| ==> init[i] == ls[i];
    }
  }

  /**
   * The `init_minterms` entry of a label: one matching `^[0,2]+$` is total and covers the
   * ids of its totalizations (`totalize`, the labels that turn any of its `2`s into `1`).
   */
  function InitialOf(lbl: string): (r: Result<Initial>)
    ensures IsLabel(lbl) ==> r.Ok? && r.value.lbl == lbl
  {
    PatternIds(lbl);
    if Frontier.ZeroTwo(lbl) then
      match IdsOf(Expand.Patterns(lbl))
      case Err(f) => Err(f)
      case Ok(ids) => Ok(Initial(lbl, true, ids))
    else Ok(Initial(lbl, false, {}))
  }

  /** A totalization of a label is a label. */
  lemma PatternIsLabel(lbl: string, t: string)
    requires IsLabel(lbl) && Expand.PatternOf(t, lbl)
    ensures IsLabel(t)
  {
    forall p | 0 <= p < |t| ensures IsSymbol(t[p]) {
      assert Expand.IsKey(lbl[p]) ==> Expand.IsKey(t[p]);
    }
  }

  /** Every totalization of a label has an id. */
  lemma PatternIds(lbl: string)
    ensures IsLabel(lbl) ==> forall i :: 0 <= i < |Expand.Patterns(lbl)| ==>
      Id(Expand.Patterns(lbl)[i]).Ok? && Expand.PatternOf(Expand.Patterns(lbl)[i], lbl)
    ensures IsLabel(lbl) ==> IdsOf(Expand.Patterns(lbl)).Ok?
  {
    if IsLabel(lbl) {
      var ps := Expand.Patterns(lbl);
      forall i | 0 <= i < |ps| ensures Id(ps[i]).Ok? && Expand.PatternOf(ps[i], lbl) {
        Expand.PatternsMember(lbl, ps[i]);
        PatternIsLabel(lbl, ps[i]);
      }
      IdsOfMeaning(ps);
    }
  }

  /**
   * For a label, `init_minterms` never raises; the entry is total exactly when the label
   * is over `0` and `2`, and then its total cover holds the ids of its totalizations.
   */
  lemma InitialMeaning(lbl: string)
    requires IsLabel(lbl)
    ensures InitialOf(lbl).Ok? && InitialOf(lbl).value.lbl == lbl
    ensures InitialOf(lbl).value.isTotal <==> forall i :: 0 <= i < |lbl| ==> lbl[i] == '0' || lbl[i] == '2'
    ensures forall x :: x in InitialOf(lbl).value.totalCover <==>
      InitialOf(lbl).value.isTotal && exists t :: Expand.PatternOf(t, lbl) && Id(t) == Ok(x)
  {
    if Frontier.ZeroTwo(lbl) {
      var ps := Expand.Patterns(lbl);
      PatternIds(lbl);
      IdsOfMeaning(ps);
      forall x: nat ensures x in IdsOf(ps).value <==> exists t :: Expand.PatternOf(t, lbl) && Id(t) == Ok(x) {
        if exists t :: Expand.PatternOf(t, lbl) && Id(t) == Ok(x) {
          var t :| Expand.PatternOf(t, lbl) && Id(t) == Ok(x);
          Expand.PatternsMember(lbl, t);
          var i :| 0 <= i < |ps| && ps[i] == t;
        }
      }
    }
  }

  /** The `for k,v in input_dict.items()` loop that builds `init_minterms`, from position `j`. */
  function InitFrom(acc: Dict<Ids, Initial>, ks: seq<Ids>, items: map<Ids, Entry>, j: nat): (r: Result<Dict<Ids, Initial>>)
    requires j <= |ks| && forall k :: k in ks ==> k in items
    ensures Listed(acc) && r.Ok? ==> Listed(r.value)
    decreases |ks| - j
  {
    if j == |ks| then Ok(acc)
    else match InitialOf(items[ks[j]].lbl)
      case Err(f) => Err(f)
      case Ok(e) => InitFrom(Put(acc, ks[j], e), ks, items, j + 1)
  }

  /**
   * Over labels the loop never raises, and it leaves an entry for every key from `j` on
   * (the `init_minterms` entry of its label) besides those already there.
   */
  lemma {:induction false} InitFromMeaning(acc: Dict<Ids, Initial>, ks: seq<Ids>, items: map<Ids, Entry>, j: nat)
    requires j <= |ks| && forall k :: k in ks ==> k in items && IsLabel(items[k].lbl)
    ensures InitFrom(acc, ks, items, j).Ok?
    ensures Ordered(acc) ==> Ordered(InitFrom(acc, ks, items, j).value)
    ensures forall k :: k in InitFrom(acc, ks, items, j).value.items <==> k in acc.items || k in ks[j..]
    ensures forall k :: k in InitFrom(acc, ks, items, j).value.items ==>
      InitFrom(acc, ks, items, j).value.items[k] == if k in ks[j..] then InitialOf(items[k].lbl).value else acc.items[k]
    decreases |ks| - j
  {
    if j < |ks| {
      InitialMeaning(items[ks[j]].lbl);
      if Ordered(acc) {
        PutOrdered(acc, ks[j], InitialOf(items[ks[j]].lbl).value);
      }
      InitFromMeaning(Put(acc, ks[j], InitialOf(items[ks[j]].lbl).value), ks, items, j + 1);
      SliceCons(ks, j);
    }
  }

  /** One step of the loop: a label `initial_of` rejects stops it, any other is put into the table. */
  lemma InitFromStep(acc: Dict<Ids, Initial>, ks: seq<Ids>, items: map<Ids, Entry>, j: nat)
    requires j < |ks| && forall k :: k in ks ==> k in items
    ensures InitialOf(items[ks[j]].lbl).Err? ==>
      InitFrom(acc, ks, items, j) == Err(InitialOf(items[ks[j]].lbl).fault)
    ensures InitialOf(items[ks[j]].lbl).Ok? ==>
      InitFrom(acc, ks, items, j) == InitFrom(Put(acc, ks[j], InitialOf(items[ks[j]].lbl).value), ks, items, j + 1)
  {
  }

  /** `init_minterms` of the table `parse_input` built. */
  function InitMintermsOf(d: Dict<Ids, Entry>): (r: Result<Dict<Ids, Initial>>)
    requires Listed(d)
    ensures r.Ok? ==> Listed(r.value)
  {
    InitFrom(Dict([], map[]), d.order, d.items, 0)
  }

  /** The loop building `init_minterms`. */
  method InitMinterms(d: Dict<Ids, Entry>) returns (r: Result<Dict<Ids, Initial>>)
    requires Listed(d)
    ensures r == InitMintermsOf(d)
  {
    ghost var target := InitMintermsOf(d);
    var acc := Dict([], map[]);
    for j := 0 to |d.order|
      invariant InitFrom(acc, d.order, d.items, j) == target
    {
      var k := d.order[j];
      var e := InitialOf(d.items[k].lbl);
      InitFromStep(acc, d.order, d.items, j);
      if e.Err? {
        return Err(e.fault);
      }
      acc := Put(acc, k, e.value);
    }
    return Ok(acc);
  }

  // ---------------------------------------------------------------- unmarked and extended covers

  /** The keys of `ks` whose entries are unmarked, in order. */
  function UnmarkedKeys(ks: seq<Ids>, items: map<Ids, Entry>): seq<Ids>
    requires forall k :: k in ks ==> k in items
    decreases |ks|
  {
    if |ks| == 0 then []
    else
      var init, k := ks[..|ks| - 1], ks[|ks| - 1];
      assert forall j :: j in init ==> j in ks;
      var rest := UnmarkedKeys(init, items);
      if items[k].mark then rest else rest + [k]
  }

  /** The unmarked keys of `ks` are kept, and only those. */
  lemma {:induction false} UnmarkedKeysMeaning(ks: seq<Ids>, items: map<Ids, Entry>)
    requires forall k :: k in ks ==> k in items
    ensures forall k :: k in UnmarkedKeys(ks, items) <==> k in ks && !items[k].mark
    decreases |ks|
  {
    if |ks| > 0 {
      var init, k := ks[..|ks| - 1], ks[|ks| - 1];
      assert forall j :: j in init ==> j in ks;
      assert forall j :: j in ks ==> j in init || j == k;
      UnmarkedKeysMeaning(init, items);
    }
  }

  /** `unmarked`: the entries the pair loop left unmarked, the prime implicants, in order. */
  function Unmarked(d: Dict<Ids, Entry>): (r: Dict<Ids, Entry>)
    requires Listed(d)
    ensures Listed(r)
  {
    UnmarkedKeysMeaning(d.order, d.items);
    Dict(UnmarkedKeys(d.order, d.items), map k | k in d.items && !d.items[k].mark :: d.items[k])
  }

  /** An entry of `extended_cover_unmarked`: label, extended cover, whether it is essential. */
  datatype Prime = Prime(lbl: string, covers: set<nat>, essential: bool)

  /** The ids the total entries of `init_minterms` add for the ids of `k`. */
  function TotalsOf(k: Ids, init: map<Ids, Initial>): set<nat>
  {
    set e, x | e in k && {e} in init && init[{e}].isTotal && x in init[{e}].totalCover :: x
  }

  /**
   * `ext_cover` of a key `k`: a KeyError when an id of `k` has no entry in `init_minterms`,
   * otherwise `k` with the total cover of each of its total ids.
   */
  function ExtCoverOf(k: Ids, init: map<Ids, Initial>): Result<set<nat>>
  {
    if exists e :: e in k && {e} !in init then Err(KeyError)
    else Ok(k + TotalsOf(k, init))
  }

  /** Adding one id to those examined adds its total cover, if it is total. */
  lemma TotalsAdd(s: Ids, e: nat, init: map<Ids, Initial>)
    requires {e} in init
    ensures TotalsOf(s + {e}, init) == TotalsOf(s, init) + (if init[{e}].isTotal then init[{e}].totalCover else {})
  {
  }

  /** One round of the loop over the ids of `k`: examining `e` adds its total cover, if it is total. */
  lemma ExtendStep(k: Ids, left: Ids, e: nat, init: map<Ids, Initial>)
    requires e in left && left <= k && {e} in init
    ensures TotalsOf(k - (left - {e}), init) == TotalsOf(k - left, init) + (if init[{e}].isTotal then init[{e}].totalCover else {})
  {
    TotalsAdd(k - left, e, init);
    assert k - (left - {e}) == (k - left) + {e};
  }

  /** The `for e in list(k)` loop that extends the cover of `k`. */
  method ExtendCover(k: Ids, init: map<Ids, Initial>) returns (r: Result<set<nat>>)
    ensures r == ExtCoverOf(k, init)
  {
    var left, cover := k, k;
    while left != {}
      invariant left <= k
      invariant forall e :: e in k - left ==> {e} in init
      invariant cover == k + TotalsOf(k - left, init)
      decreases |left|
    {
      var e :| e in left;
      if {e} !in init {
        return Err(KeyError);
      }
      ExtendStep(k, left, e, init);
      if init[{e}].isTotal {
        cover := cover + init[{e}].totalCover;
      }
      left := left - {e};
    }
    assert k - left == k;
    return Ok(cover);
  }

  /** The `for k, v in unmarked.items()` loop building `extended_cover_unmarked`, from position `j`. */
  function ExtFrom(acc: Dict<Ids, Prime>, ks: seq<Ids>, items: map<Ids, Entry>, init: map<Ids, Initial>, j: nat): (r: Result<Dict<Ids, Prime>>)
    requires j <= |ks| && forall k :: k in ks ==> k in items
    ensures Listed(acc) && r.Ok? ==> Listed(r.value)
    ensures (forall k :: k in acc.items ==> !acc.items[k].essential) && r.Ok? ==> forall k :: k in r.value.items ==> !r.value.items[k].essential
    decreases |ks| - j
  {
    if j == |ks| then Ok(acc)
    else match ExtCoverOf(ks[j], init)
      case Err(f) => Err(f)
      case Ok(cov) => ExtFrom(Put(acc, ks[j], Prime(items[ks[j]].lbl, cov, false)), ks, items, init, j + 1)
  }

  /**
   * When every id of every key from `j` on has an entry in `init_minterms`, the loop never
   * raises and gives each such key its label, its extended cover and no essential mark.
   */
  lemma {:induction false} ExtFromMeaning(acc: Dict<Ids, Prime>, ks: seq<Ids>, items: map<Ids, Entry>, init: map<Ids, Initial>, j: nat)
    requires j <= |ks| && forall k :: k in ks ==> k in items
    requires forall k, e :: k in ks && e in k ==> {e} in init
    ensures ExtFrom(acc, ks, items, init, j).Ok?
    ensures forall k :: k in ExtFrom(acc, ks, items, init, j).value.items <==> k in acc.items || k in ks[j..]
    ensures forall k :: k in ExtFrom(acc, ks, items, init, j).value.items ==>
      ExtFrom(acc, ks, items, init, j).value.items[k] ==
        if k in ks[j..] then Prime(items[k].lbl, k + TotalsOf(k, init), false) else acc.items[k]
    decreases |ks| - j
  {
    if j < |ks| {
      var k := ks[j];
      ExtFromMeaning(Put(acc, k, Prime(items[k].lbl, k + TotalsOf(k, init), false)), ks, items, init, j + 1);
      SliceCons(ks, j);
    }
  }

  /** `extended_cover_unmarked` of the prime implicants `u`. */
  function ExtendedOf(u: Dict<Ids, Entry>, init: map<Ids, Initial>): (r: Result<Dict<Ids, Prime>>)
    requires Listed(u)
    ensures r.Ok? ==> Listed(r.value)
    ensures r.Ok? ==> forall k :: k in r.value.items ==> !r.value.items[k].essential
  {
    ExtFrom(Dict([], map[]), u.order, u.items, init, 0)
  }

  /** The loop building `extended_cover_unmarked`. */
  method ExtendedCovers(u: Dict<Ids, Entry>, init: map<Ids, Initial>) returns (r: Result<Dict<Ids, Prime>>)
    requires Listed(u)
    ensures r == ExtendedOf(u, init)
  {
    var acc := Dict([], map[]);
    for j := 0 to |u.order|
      invariant ExtFrom(acc, u.order, u.items, init, j) == ExtendedOf(u, init)
    {
      var k := u.order[j];
      var cov := ExtendCover(k, init);
      if cov.Err? {
        return Err(cov.fault);
      }
      acc := Put(acc, k, Prime(u.items[k].lbl, cov.value, false));
    }
    return Ok(acc);
  }

  // ---------------------------------------------------------------- cover_dict

  /** An entry of `cover_dict`: the primes covering a minterm (`covered_by`, key and label), its label, `is_used`. */
  datatype Covered = Covered(coveredBy: seq<(Ids, string)>, lbl: string, used: bool)

  /** The primes of `uks` that cover `ik` (`len(ik & covers) == 1`), with their labels, in order. */
  function Coverers(ik: Ids, uks: seq<Ids>, ext: map<Ids, Prime>): seq<(Ids, string)>
    requires forall u :: u in uks ==> u in ext
    decreases |uks|
  {
    if |uks| == 0 then []
    else
      var init, u := uks[..|uks| - 1], uks[|uks| - 1];
      assert forall v :: v in init ==> v in uks;
      var rest := Coverers(ik, init, ext);
      if |ik * ext[u].covers| == 1 then rest + [(u, ext[u].lbl)] else rest
  }

  /** The coverers listed are the primes of `uks` that meet `ik` in one id, with their labels, and every such prime is listed. */
  lemma {:induction false} CoverersMeaning(ik: Ids, uks: seq<Ids>, ext: map<Ids, Prime>)
    requires forall u :: u in uks ==> u in ext
    ensures forall p :: p in Coverers(ik, uks, ext) ==> p.0 in uks && |ik * ext[p.0].covers| == 1 && p.1 == ext[p.0].lbl
    ensures forall u :: u in uks && |ik * ext[u].covers| == 1 ==> (u, ext[u].lbl) in Coverers(ik, uks, ext)
    decreases |uks|
  {
    if |uks| > 0 {
      var init, u := uks[..|uks| - 1], uks[|uks| - 1];
      assert forall v :: v in init ==> v in uks;
      assert forall v :: v in uks ==> v in init || v == u;
      CoverersMeaning(ik, init, ext);
    }
  }

  /** `cover_dict` over the minterms `iks`: each one some prime covers, with its coverers and label, unused. */
  function CoverDictOf(iks: seq<Ids>, init: map<Ids, Initial>, ext: Dict<Ids, Prime>): Dict<Ids, Covered>
    requires Listed(ext) && forall k :: k in iks ==> k in init
    decreases |iks|
  {
    if |iks| == 0 then Dict([], map[])
    else
      var rest, ik := iks[..|iks| - 1], iks[|iks| - 1];
      assert forall k :: k in rest ==> k in iks;
      var d := CoverDictOf(rest, init, ext);
      var cb := Coverers(ik, ext.order, ext.items);
      if cb == [] then d else Put(d, ik, Covered(cb, init[ik].lbl, false))
  }

  /**
   * `cover_dict` lists each minterm once; it holds the minterms of `iks` that some prime
   * covers, each with all its coverers in order, its label from `init_minterms`, and unused.
   */
  lemma {:induction false} CoverDictMeaning(iks: seq<Ids>, init: map<Ids, Initial>, ext: Dict<Ids, Prime>)
    requires Listed(ext) && forall k :: k in iks ==> k in init
    ensures Ordered(CoverDictOf(iks, init, ext))
    ensures forall k :: k in CoverDictOf(iks, init, ext).items <==> k in iks && Coverers(k, ext.order, ext.items) != []
    ensures forall k :: k in CoverDictOf(iks, init, ext).items ==>
      CoverDictOf(iks, init, ext).items[k] == Covered(Coverers(k, ext.order, ext.items), init[k].lbl, false)
    decreases |iks|
  {
    if |iks| > 0 {
      var rest, ik := iks[..|iks| - 1], iks[|iks| - 1];
      assert forall k :: k in rest ==> k in iks;
      assert forall k :: k in iks ==> k in rest || k == ik;
      var d := CoverDictOf(rest, init, ext);
      CoverDictMeaning(rest, init, ext);
      var cb := Coverers(ik, ext.order, ext.items);
      if cb != [] {
        PutOrdered(d, ik, Covered(cb, init[ik].lbl, false));
      }
    }
  }

  /** The entry of `ik` after the inner loop has examined the primes `uks`, if one covers it. */
  function Partial(base: Dict<Ids, Covered>, ik: Ids, lbl: string, uks: seq<Ids>, ext: map<Ids, Prime>): Dict<Ids, Covered>
    requires forall u :: u in uks ==> u in ext
  {
    var cb := Coverers(ik, uks, ext);
    if cb == [] then base else Put(base, ik, Covered(cb, lbl, false))
  }

  /** One round of the inner loop: the prime `uk` covering `ik` is put in `covered_by`, or starts it. */
  lemma PartialStep(base: Dict<Ids, Covered>, ik: Ids, lbl: string, uks: seq<Ids>, j: nat, ext: map<Ids, Prime>)
    requires j < |uks| && ik !in base.items && forall u :: u in uks ==> u in ext
    ensures var cd := Partial(base, ik, lbl, uks[..j], ext);
      var uk := uks[j];
      Partial(base, ik, lbl, uks[..j + 1], ext) ==
        if |ik * ext[uk].covers| != 1 then cd
        else if ik !in cd.items then Put(cd, ik, Covered([(uk, ext[uk].lbl)], lbl, false))
        else Put(cd, ik, cd.items[ik].(coveredBy := cd.items[ik].coveredBy + [(uk, ext[uk].lbl)]))
  {
    var pre, uk := uks[..j], uks[j];
    assert uks[..j + 1][..j] == pre;
    assert forall u :: u in pre ==> u in uks;
    var cb := Coverers(ik, pre, ext);
    var item := (uk, ext[uk].lbl);
    assert Coverers(ik, uks[..j + 1], ext) == if |ik * ext[uk].covers| == 1 then cb + [item] else cb;
    if |ik * ext[uk].covers| == 1 && cb != [] {
      var cd := Put(base, ik, Covered(cb, lbl, false));
      assert cd == Partial(base, ik, lbl, pre, ext);
      assert ik in cd.items && cd.items[ik] == Covered(cb, lbl, false);
      assert cd.items[ik].(coveredBy := cb + [item]) == Covered(cb + [item], lbl, false);
      assert Put(cd, ik, Covered(cb + [item], lbl, false)) == Put(base, ik, Covered(cb + [item], lbl, false));
      assert Partial(base, ik, lbl, uks[..j + 1], ext) == Put(base, ik, Covered(cb + [item], lbl, false));
    } else if |ik * ext[uk].covers| == 1 {
      assert Partial(base, ik, lbl, pre, ext) == base;
      assert cb + [item] == [item];
      assert Partial(base, ik, lbl, uks[..j + 1], ext) == Put(base, ik, Covered([item], lbl, false));
    } else {
      assert Partial(base, ik, lbl, uks[..j + 1], ext) == Partial(base, ik, lbl, pre, ext);
    }
  }

  /** The two loops that build `cover_dict`: for each minterm, for each prime that covers it. */
  method BuildCoverDict(init: Dict<Ids, Initial>, ext: Dict<Ids, Prime>) returns (cd: Dict<Ids, Covered>)
    requires Ordered(init) && Listed(ext)
    ensures cd == CoverDictOf(init.order, init.items, ext)
  {
    cd := Dict([], map[]);
    var iks, uks := init.order, ext.order;
    for i := 0 to |iks|
      invariant cd == CoverDictOf(iks[..i], init.items, ext)
    {
      assert iks[..i + 1][..i] == iks[..i];
      var ik := iks[i];
      ghost var base := cd;
      CoverDictMeaning(iks[..i], init.items, ext);
      assert ik !in base.items by {
        assert forall a, b :: 0 <= a < b < |iks| ==> iks[a] != iks[b];
      }
      for j := 0 to |uks|
        invariant cd == Partial(base, ik, init.items[ik].lbl, uks[..j], ext.items)
      {
        PartialStep(base, ik, init.items[ik].lbl, uks, j, ext.items);
        var uk := uks[j];
        if |ik * ext.items[uk].covers| == 1 {
          if ik !in cd.items {
            cd := Put(cd, ik, Covered([(uk, ext.items[uk].lbl)], init.items[ik].lbl, false));
          } else {
            cd := Put(cd, ik, cd.items[ik].(coveredBy := cd.items[ik].coveredBy + [(uk, ext.items[uk].lbl)]));
          }
        }
      }
      assert uks[..|uks|] == uks;
    }
    assert iks[..|iks|] == iks;
  }
}
