/** Which pages a storage query opens: the pruning by the headers' filters and time ranges. */
module PageSelect {
  import opened Wrappers
  import opened Measurements
  import opened Bloom
  import opened PageAppend
  import opened PageReaders
  import opened CacheWriter
  import opened Caches

  /** The header fields the pruning looks at; the times of an empty page are zero. */
  datatype Header = Header(minTime: U64, maxTime: U64, filters: Filters)

  function HeaderOf(f: PageFile): Header {
    match f.times
    case Unset => Header(0, 0, f.filters)
    case Range(lo, hi) => Header(lo, hi, f.filters)
  }

  // ---- the declarative form ----

  /** The filters do not rule the page out. */
  predicate MayHold(h: Header, q: Query) {
    && (q.flag != 0 && h.filters.flag != 0 ==> Check(h.filters.flag, Word(q.flag)))
    && (q.source != 0 && h.filters.source != 0 ==> Check(h.filters.source, Word(q.source)))
    && (q.ids != [] && h.filters.id != 0 ==> AnyId(h.filters.id, q.ids))
  }

  /** The page starts after `from`, and the page before ends no later than `from`. */
  predicate AfterGap(hs: seq<Header>, i: nat, q: Query)
    requires i < |hs|
  {
    i > 0 && hs[i - 1].maxTime <= q.from < hs[i].minTime
  }

  function Max(a: nat, b: nat): nat { if a < b then b else a }

  /**
   The page's times meet the interval, whichever way round that is given; but a page that ends exactly where
   a longer interval starts counts only if it starts there, too.
   */
  predicate Meets(h: Header, q: Query) {
    && h.minTime <= Max(q.from, q.to) && Min(q.from, q.to) <= h.maxTime
    && (h.maxTime == q.from < q.to ==> h.minTime == q.from)
  }

  /** The pages added when page `i` is looked at. */
  function Picked(hs: seq<Header>, i: nat, q: Query): seq<nat>
    requires i < |hs|
  {
    if !MayHold(hs[i], q) then []
    else if AfterGap(hs, i, q) then [i - 1, i]
    else if Meets(hs[i], q) then [i]
    else []
  }

  function PickedBefore(hs: seq<Header>, k: nat, q: Query): seq<nat>
    requires k <= |hs|
  {
    if k == 0 then [] else PickedBefore(hs, k - 1, q) + Picked(hs, k - 1, q)
  }

  // ---- the loop ----

  /** The three filter tests of the loop. */
  method FiltersAdmit(h: Header, q: Query) returns (b: bool)
    ensures b == MayHold(h, q)
  {
    if q.flag != 0 && h.filters.flag != 0 && !Check(h.filters.flag, Word(q.flag)) {
      return false;
    }
    if q.source != 0 && h.filters.source != 0 && !Check(h.filters.source, Word(q.source)) {
      return false;
    }
    if |q.ids| != 0 && h.filters.id != 0 {
      b := AnyAdmitted(h.filters.id, q.ids);
      return;
    }
    b := true;
  }

  /** Some id of the query may be in the page. */
  predicate AnyId(fltr: bv64, ids: seq<U64>) { exists i :: 0 <= i < |ids| && Check(fltr, Word(ids[i])) }

  method AnyAdmitted(fltr: bv64, ids: seq<U64>) returns (found: bool)
    ensures found == AnyId(fltr, ids)
  {
    found := false;
    for k := 0 to |ids|
      invariant forall i :: 0 <= i < k ==> !Check(fltr, Word(ids[i]))
    {
      if Check(fltr, Word(ids[k])) {
        return true;
      }
    }
  }

  ghost predicate Ordered(hs: seq<Header>) { forall i :: 0 <= i < |hs| ==> hs[i].minTime <= hs[i].maxTime }

  /** The interval starts in the page and goes on behind it. */
  predicate StartsIn(h: Header, q: Query) { MayHold(h, q) && h.minTime <= q.from < h.maxTime < q.to }

  /** The interval lies in the page. */
  predicate LiesIn(h: Header, q: Query) { MayHold(h, q) && h.minTime <= q.from && q.to <= h.maxTime }

  /**
   The page whose window completes the answer: the one before the last page, not the first of all, in which
   the interval starts and goes on; without such a page, the one before the first page listed if the
   interval lies in that.
   */
  ghost predicate PrevIs(hs: seq<Header>, k: nat, list: seq<nat>, q: Query, prev: Option<nat>)
    requires k <= |hs|
  {
    && (forall i :: LastStart(hs, k, q, i) ==> prev == Some(i - 1))
    && ((forall i :: !LastStart(hs, k, q, i)) ==>
          if list != [] && 0 < list[0] < |hs| && LiesIn(hs[list[0]], q) then prev == Some(list[0] - 1)
          else prev == None)
  }

  /** Page `i` is the last of those before `k`, the first of all apart, in which the interval starts and goes on. */
  ghost predicate LastStart(hs: seq<Header>, k: nat, q: Query, i: int)
    requires k <= |hs|
  {
    0 < i < k && StartsIn(hs[i], q) && forall j :: i < j < k ==> !StartsIn(hs[j], q)
  }

  lemma {:induction false} LastStartNext(hs: seq<Header>, k: nat, k': nat, q: Query)
    requires k' == k + 1 <= |hs|
    ensures if 0 < k && StartsIn(hs[k], q) then forall i :: LastStart(hs, k', q, i) <==> i == k
            else forall i :: LastStart(hs, k', q, i) <==> LastStart(hs, k, q, i)
  {
  }

  /** What looking at page `k` does to the previous page. */
  lemma {:induction false} PrevNext(hs: seq<Header>, k: nat, k': nat, list: seq<nat>, list': seq<nat>, q: Query,
                                    prev: Option<nat>, prev': Option<nat>)
    requires k' == k + 1 <= |hs| && PrevIs(hs, k, list, q, prev) && list' == list + Picked(hs, k, q)
    requires Ordered(hs) && list == PickedBefore(hs, k, q)
    requires prev' == if 0 < k && StartsIn(hs[k], q) then Some(k - 1)
                      else if 0 < k && LiesIn(hs[k], q) && prev.None? && list == [] then Some(k - 1)
                      else prev
    ensures PrevIs(hs, k', list', q, prev')
  {
    LastStartNext(hs, k, k', q);
    if 0 < k && StartsIn(hs[k], q) {
      assert LastStart(hs, k', q, k);
    } else if list == [] {
      NothingListed(hs, k, q);
    } else {
      assert list'[0] == list[0];
    }
  }

  /** A page in which the interval starts or lies is listed. */
  lemma {:induction false} NothingListed(hs: seq<Header>, k: nat, q: Query)
    requires Ordered(hs) && k <= |hs| && PickedBefore(hs, k, q) == []
    ensures forall i :: 0 <= i < k ==> !StartsIn(hs[i], q) && !LiesIn(hs[i], q)
  {
    forall i | 0 <= i < k
      ensures !StartsIn(hs[i], q) && !LiesIn(hs[i], q)
    {
      if StartsIn(hs[i], q) || LiesIn(hs[i], q) {
        PickedLater(hs, i, k, q, i);
      }
    }
  }

  /** The time tests of the loop for a page the filters admit. */
  method PickOne(hs: seq<Header>, i: nat, q: Query, list0: seq<nat>, prev0: Option<nat>)
    returns (list: seq<nat>, prev: Option<nat>)
    requires Ordered(hs) && i < |hs| && MayHold(hs[i], q)
    ensures list == list0 + Picked(hs, i, q)
    ensures prev == if 0 < i && StartsIn(hs[i], q) then Some(i - 1)
                    else if 0 < i && LiesIn(hs[i], q) && prev0.None? && list0 == [] then Some(i - 1)
                    else prev0
  {
    list, prev := list0, prev0;
    var h := hs[i];
    if h.minTime <= q.from && h.maxTime >= q.to {
      list := list + [i];
      if i > 0 && prev.None? && |list| == 1 {
        prev := Some(i - 1);
      }
      return;
    }
    if h.minTime <= q.from && h.maxTime > q.from {
      list := list + [i];
      if i > 0 {
        prev := Some(i - 1);
      }
      return;
    }
    if h.minTime > q.from {
      if i > 0 && hs[i - 1].maxTime <= q.from {
        list := list + [i - 1];
        list := list + [i];
        return;
      }
    }
    if h.minTime >= q.from && h.maxTime >= q.to && h.minTime <= q.to {
      list := list + [i];
      return;
    }
    if h.minTime >= q.from && h.maxTime <= q.to {
      list := list + [i];
    }
  }

  /** The page selection of Storage::readInterval. */
  method SelectPages(hs: seq<Header>, q: Query) returns (list: seq<nat>, prev: Option<nat>)
    requires Ordered(hs)
    ensures list == PickedBefore(hs, |hs|, q) && PrevIs(hs, |hs|, list, q, prev)
  {
    list, prev := [], None;
    for i := 0 to |hs|
      invariant list == PickedBefore(hs, i, q) && PrevIs(hs, i, list, q, prev)
    {
      ghost var list0, prev0 := list, prev;
      var may := FiltersAdmit(hs[i], q);
      if may {
        list, prev := PickOne(hs, i, q, list, prev);
      }
      PrevNext(hs, i, i + 1, list0, list, q, prev0, prev);
    }
  }

  // ---- no page is missed ----

  lemma {:induction false} HeaderIsOrdered(f: PageFile, ms: seq<Meas>)
    requires FileHolds(f, ms)
    ensures HeaderOf(f).minTime <= HeaderOf(f).maxTime
    ensures forall j :: 0 <= j < |ms| ==> HeaderOf(f).minTime <= ms[j].time <= HeaderOf(f).maxTime
  {
    if f.times.Range? {
      assert HasTime(ms, f.times.min);
    }
  }

  /** As far as bits tell, the number may be among those stored: none has any, or together they have all of its bits. */
  ghost predicate Possible(x: U64, stored: seq<U64>) { NoBits(stored) || Covered(x, stored) }

  /** As far as the bits of flags, sources and ids tell, a page that stores `ms` may hold what is asked for. */
  ghost predicate BitsAgree(q: Query, ms: seq<Meas>) {
    && (q.flag != 0 ==> Possible(q.flag, Flags(ms)))
    && (q.source != 0 ==> Possible(q.source, Sources(ms)))
    && (q.ids != [] ==> NoBits(Ids(ms)) || exists i :: 0 <= i < |q.ids| && Covered(q.ids[i], Ids(ms)))
  }

  lemma {:induction false} TestIff(fltr: bv64, stored: seq<U64>, x: U64)
    requires BitsOf(fltr, stored)
    ensures (fltr != 0 ==> Check(fltr, Word(x))) <==> Possible(x, stored)
  {
    AdmitsIff(fltr, stored, x);
  }

  lemma {:induction false} AnyIdIff(fltr: bv64, stored: seq<U64>, ids: seq<U64>)
    requires BitsOf(fltr, stored) && ids != []
    ensures (fltr != 0 ==> AnyId(fltr, ids)) <==>
            NoBits(stored) || exists i :: 0 <= i < |ids| && Covered(ids[i], stored)
  {
    AdmitsIff(fltr, stored, ids[0]);
    forall i | 0 <= i < |ids|
      ensures Check(fltr, Word(ids[i])) <==> Covered(ids[i], stored)
    {
      AdmitsIff(fltr, stored, ids[i]);
    }
  }

  lemma {:induction false} FiltersIff(h: Header, q: Query, ms: seq<Meas>)
    requires BitsOf(h.filters.id, Ids(ms)) && BitsOf(h.filters.flag, Flags(ms))
    requires BitsOf(h.filters.source, Sources(ms))
    ensures MayHold(h, q) <==> BitsAgree(q, ms)
  {
    TestIff(h.filters.flag, Flags(ms), q.flag);
    TestIff(h.filters.source, Sources(ms), q.source);
    if q.ids != [] {
      AnyIdIff(h.filters.id, Ids(ms), q.ids);
    }
  }

  /**
   The filters of a page's header admit a query if and only if the bits of the flags, sources and ids stored in the
   page agree with it; so a page is ruled out when every id asked for has a bit that no stored id has.
   */
  lemma {:induction false} MayHoldIff(f: PageFile, ms: seq<Meas>, q: Query)
    requires FileHolds(f, ms)
    ensures MayHold(HeaderOf(f), q) <==> BitsAgree(q, ms)
  {
    FedFields(f.filters, ms);
    FiltersIff(HeaderOf(f), q, ms);
  }

  /** A page that holds a measurement the flags let pass is not ruled out by the filters. */
  lemma {:induction false} FiltersKeep(f: PageFile, ms: seq<Meas>, q: Query, j: nat)
    requires FileHolds(f, ms) && j < |ms| && FlagsPass(q, ms[j])
    ensures MayHold(HeaderOf(f), q)
  {
    PassingBitsAgree(q, ms, j);
    MayHoldIff(f, ms, q);
  }

  lemma {:induction false} ListedIsCovered(xs: seq<U64>, j: nat)
    requires j < |xs|
    ensures Covered(xs[j], xs)
  {
  }

  lemma {:induction false} PassingBitsAgree(q: Query, ms: seq<Meas>, j: nat)
    requires j < |ms| && FlagsPass(q, ms[j])
    ensures BitsAgree(q, ms)
  {
    ListedIsCovered(Flags(ms), j);
    ListedIsCovered(Sources(ms), j);
    ListedIsCovered(Ids(ms), j);
  }

  /**
   A page is listed by its own look if and only if the bits stored in it agree with the query and its times
   meet the interval or come after a gap.
   */
  lemma {:induction false} OwnLookIff(files: seq<PageFile>, pages: seq<seq<Meas>>, hs: seq<Header>, q: Query, k: nat)
    requires AllHold(files, pages) && HeadersOf(hs, files) && k < |pages|
    ensures k in Picked(hs, k, q) <==> BitsAgree(q, pages[k]) && (AfterGap(hs, k, q) || Meets(hs[k], q))
  {
    assert FileHolds(files[k], pages[k]);
    MayHoldIff(files[k], pages[k], q);
  }

  /** A page is listed if and only if its own look lists it, or a page admitted by its bits follows it after a gap. */
  lemma {:induction false} ListedIff(files: seq<PageFile>, pages: seq<seq<Meas>>, hs: seq<Header>, q: Query, k: nat)
    requires AllHold(files, pages) && HeadersOf(hs, files) && k < |pages|
    ensures k in PickedBefore(hs, |hs|, q) <==>
            || (BitsAgree(q, pages[k]) && (AfterGap(hs, k, q) || Meets(hs[k], q)))
            || (k + 1 < |hs| && BitsAgree(q, pages[k + 1]) && AfterGap(hs, k + 1, q))
  {
    OwnLookIff(files, pages, hs, q, k);
    if k + 1 < |hs| {
      assert FileHolds(files[k + 1], pages[k + 1]);
      MayHoldIff(files[k + 1], pages[k + 1], q);
    }
    if k in Picked(hs, k, q) {
      PickedLater(hs, k, |hs|, q, k);
    } else {
      AddedByNext(hs, k, q);
    }
  }

  lemma {:induction false} PickedLater(hs: seq<Header>, k: nat, n: nat, q: Query, i: nat)
    requires k < n <= |hs| && i in Picked(hs, k, q)
    ensures i in PickedBefore(hs, n, q)
  {
    if k + 1 < n {
      PickedLater(hs, k, n - 1, q, i);
    }
  }

  ghost predicate HeadersOf(hs: seq<Header>, files: seq<PageFile>) {
    |hs| == |files| && forall i :: 0 <= i < |hs| ==> hs[i] == HeaderOf(files[i])
  }

  /** The page ends exactly where a longer interval starts, starts earlier, and no admitted page after a gap follows. */
  predicate EndsAtFrom(hs: seq<Header>, k: nat, q: Query)
    requires k < |hs|
  {
    && hs[k].minTime < q.from == hs[k].maxTime < q.to
    && !(k + 1 < |hs| && MayHold(hs[k + 1], q) && q.from < hs[k + 1].minTime)
  }

  /** A page that its own look does not add is added by the look at the next page or not at all. */
  lemma {:induction false} AddedByNext(hs: seq<Header>, k: nat, q: Query)
    requires k < |hs| && k !in Picked(hs, k, q)
    ensures k in PickedBefore(hs, |hs|, q) <==> k + 1 < |hs| && k in Picked(hs, k + 1, q)
  {
    PickedBelow(hs, k, q);
    if k + 1 < |hs| {
      OnlyNear(hs, k, k + 2, |hs|, q);
      var list, own, more := PickedBefore(hs, k, q), Picked(hs, k, q), Picked(hs, k + 1, q);
      assert PickedBefore(hs, k + 2, q) == list + own + more;
      assert k in list + own + more <==> k in list || k in own || k in more;
      if k in Picked(hs, k + 1, q) {
        PickedLater(hs, k + 1, |hs|, q, k);
      }
    }
  }

  /** From two looks later on a page is added no more. */
  lemma {:induction false} OnlyNear(hs: seq<Header>, k: nat, near: nat, n: nat, q: Query)
    requires near == k + 2 <= n <= |hs|
    ensures k in PickedBefore(hs, n, q) <==> k in PickedBefore(hs, near, q)
    decreases n
  {
    if n != near {
      var i: nat := n - 1;
      OnlyNear(hs, k, near, i, q);
      FarIsNotAdded(hs, k, i, n, q);
    }
  }

  lemma {:induction false} FarIsNotAdded(hs: seq<Header>, k: nat, i: nat, n: nat, q: Query)
    requires k + 2 <= i && n == i + 1 <= |hs|
    ensures k in PickedBefore(hs, n, q) <==> k in PickedBefore(hs, i, q)
  {
    PickedNear(hs, i, q);
    var list, more := PickedBefore(hs, i, q), Picked(hs, i, q);
    assert PickedBefore(hs, n, q) == list + more;
    assert k in list + more <==> k in list || k in more;
  }

  /**
   A page that holds a measurement asked for is selected if and only if it does not end exactly at `from`
   in that way; then the measurements at `from` are what is missed.
   */
  lemma {:induction false} SelectedIff(files: seq<PageFile>, pages: seq<seq<Meas>>, hs: seq<Header>, q: Query,
                                       k: nat, j: nat)
    requires AllHold(files, pages) && HeadersOf(hs, files)
    requires k < |pages| && j < |pages[k]| && Pass(q, pages[k][j])
    ensures k in PickedBefore(hs, |hs|, q) <==> !EndsAtFrom(hs, k, q)
  {
    assert FileHolds(files[k], pages[k]);
    FiltersKeep(files[k], pages[k], q, j);
    HeaderIsOrdered(files[k], pages[k]);
    if k in Picked(hs, k, q) {
      PickedLater(hs, k, |hs|, q, k);
    } else {
      AddedByNext(hs, k, q);
    }
  }

  /** Every page that holds a measurement asked for, later than `from`, is selected. */
  lemma {:induction false} NoPageMissed(files: seq<PageFile>, pages: seq<seq<Meas>>, hs: seq<Header>, q: Query,
                                        k: nat, j: nat)
    requires AllHold(files, pages) && HeadersOf(hs, files) && q.from <= q.to
    requires k < |pages| && j < |pages[k]| && FlagsPass(q, pages[k][j]) && q.from < pages[k][j].time <= q.to
    ensures k in PickedBefore(hs, |hs|, q)
  {
    assert FileHolds(files[k], pages[k]);
    HeaderIsOrdered(files[k], pages[k]);
    SelectedIff(files, pages, hs, q, k, j);
  }

  /** A page with the times 3 and 5 is not selected for the interval from 5 to 9, which asks for the time 5. */
  lemma {:induction false} PageAtFromMissed()
    ensures var q := Query([], 0, 0, 5, 9);
            PickedBefore([Header(3, 5, NO_FILTERS)], 1, q) == [] && Pass(q, EMPTY.(time := 5))
  {
    var q := Query([], 0, 0, 5, 9);
    assert PickedBefore([Header(3, 5, NO_FILTERS)], 0, q) == [];
  }

  ghost predicate Ascends(list: seq<nat>) { forall a, b :: 0 <= a < b < |list| ==> list[a] <= list[b] }

  lemma {:induction false} AscendsOn(list: seq<nat>, more: seq<nat>)
    requires Ascends(list) && Ascends(more) && forall x, y :: x in list && y in more ==> x <= y
    ensures Ascends(list + more)
  {
    assert forall a :: 0 <= a < |list| ==> list[a] in list;
    assert forall a :: 0 <= a < |more| ==> more[a] in more;
  }

  lemma {:induction false} PickedAscends(hs: seq<Header>, i: nat, q: Query)
    requires i < |hs|
    ensures Ascends(Picked(hs, i, q)) && forall x :: x in Picked(hs, i, q) ==> x + 1 >= i
  {
  }

  lemma {:induction false} PickedBehind(hs: seq<Header>, i: nat, q: Query)
    requires i < |hs|
    ensures Ascends(Picked(hs, i, q))
    ensures forall x, y :: x in PickedBefore(hs, i, q) && y in Picked(hs, i, q) ==> x <= y
  {
    PickedAscends(hs, i, q);
    PickedBelow(hs, i, q);
  }

  /** The pages are listed in the order of their times. */
  lemma {:induction false} PickedAscending(hs: seq<Header>, k: nat, q: Query)
    requires k <= |hs|
    ensures Ascends(PickedBefore(hs, k, q))
  {
    if k > 0 {
      PickedAscending(hs, k - 1, q);
      PickedBehind(hs, k - 1, q);
      AscendsOn(PickedBefore(hs, k - 1, q), Picked(hs, k - 1, q));
    }
  }

  // ---- no page is selected twice ----

  ghost predicate Once(list: seq<nat>) { forall a, b :: 0 <= a < b < |list| ==> list[a] != list[b] }

  /** Page `i` is listed for itself and again before page `i + 1`. */
  predicate ListedTwice(hs: seq<Header>, i: nat, q: Query)
    requires i + 1 < |hs|
  {
    && MayHold(hs[i], q) && MayHold(hs[i + 1], q)
    && q.from < hs[i + 1].minTime
    && (if q.from < q.to then hs[i].minTime == hs[i].maxTime == q.from else q.to <= hs[i].maxTime <= q.from)
  }

  ghost predicate NoneListedTwice(hs: seq<Header>, k: nat, q: Query)
    requires k <= |hs|
  {
    forall i :: 0 <= i < k - 1 ==> !ListedTwice(hs, i, q)
  }

  lemma {:induction false} PickedNear(hs: seq<Header>, i: nat, q: Query)
    requires i < |hs|
    ensures forall x :: x in Picked(hs, i, q) ==> x == i || x + 1 == i
  {
  }

  /** What was picked before page `k` lies before it, and page `k - 1` is in it only by its own look. */
  lemma {:induction false} PickedBelow(hs: seq<Header>, k: nat, q: Query)
    requires k <= |hs|
    ensures forall i :: i in PickedBefore(hs, k, q) ==> i < k
    ensures k > 0 ==> (k - 1 in PickedBefore(hs, k, q) <==> k - 1 in Picked(hs, k - 1, q))
  {
    if k > 0 {
      PickedBelow(hs, k - 1, q);
      PickedNear(hs, k - 1, q);
      var list, more := PickedBefore(hs, k - 1, q), Picked(hs, k - 1, q);
      assert forall i :: i in list + more <==> i in list || i in more;
    }
  }

  /** The look at page `k` repeats a page exactly when page `k - 1` is listed twice. */
  lemma {:induction false} RepeatsPage(hs: seq<Header>, k: nat, q: Query)
    requires Ordered(hs) && k < |hs|
    ensures (forall i :: i in PickedBefore(hs, k, q) ==> i !in Picked(hs, k, q)) <==>
            !(k > 0 && ListedTwice(hs, k - 1, q))
  {
    PickedBelow(hs, k, q);
    if k > 0 && ListedTwice(hs, k - 1, q) {
      assert k - 1 in Picked(hs, k, q) && k - 1 in Picked(hs, k - 1, q);
    }
  }

  /**
   No page is selected twice if and only if none that starts and ends exactly at `from` (for an interval that is
   a point or the wrong way round: that ends in it) is followed by one that starts later, both admitted by
   the filters.
   */
  lemma {:induction false} OnceIff(hs: seq<Header>, k: nat, q: Query)
    requires Ordered(hs) && k <= |hs|
    ensures Once(PickedBefore(hs, k, q)) <==> NoneListedTwice(hs, k, q)
  {
    if k > 0 {
      OnceIff(hs, k - 1, q);
      RepeatsPage(hs, k - 1, q);
      OnceConcat(PickedBefore(hs, k - 1, q), Picked(hs, k - 1, q));
      NoneTwiceNext(hs, k, q);
    }
  }

  lemma {:induction false} NoneTwiceNext(hs: seq<Header>, k: nat, q: Query)
    requires 0 < k <= |hs|
    ensures NoneListedTwice(hs, k, q) <==> NoneListedTwice(hs, k - 1, q) && !(k > 1 && ListedTwice(hs, k - 2, q))
  {
  }

  /** In particular no page is selected twice when none ends exactly at `from`. */
  lemma {:induction false} PickedOnce(hs: seq<Header>, q: Query)
    requires Ordered(hs) && q.from <= q.to && forall i :: 0 <= i < |hs| ==> hs[i].maxTime != q.from
    ensures Once(PickedBefore(hs, |hs|, q))
  {
    OnceIff(hs, |hs|, q);
  }

  lemma {:induction false} OnceConcat(a: seq<nat>, b: seq<nat>)
    requires Once(b)
    ensures Once(a + b) <==> Once(a) && forall i :: i in a ==> i !in b
  {
    var ab := a + b;
    assert forall i :: 0 <= i < |a| ==> ab[i] == a[i] && a[i] in a;
    assert forall i :: 0 <= i < |b| ==> ab[|a| + i] == b[i] && b[i] in b;
    if Once(ab) {
      forall x, y | 0 <= x < |a| && 0 <= y < |b|
        ensures a[x] != b[y]
      {
        assert ab[x] != ab[|a| + y];
      }
    }
  }

  /** A page can come twice: here one that starts and ends exactly at `from`. */
  lemma {:induction false} SelectedTwice()
    ensures var q := Query([], 0, 0, 5, 9);
            PickedBefore([Header(5, 5, NO_FILTERS), Header(7, 8, NO_FILTERS)], 2, q) == [0, 0, 1]
  {
    var q := Query([], 0, 0, 5, 9);
    var hs := [Header(5, 5, NO_FILTERS), Header(7, 8, NO_FILTERS)];
    assert PickedBefore(hs, 0, q) == [];
    assert PickedBefore(hs, 1, q) == [0];
  }
}
