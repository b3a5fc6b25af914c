/** Whole runs on a page: from appended batches over the index to a query. */
module PageRuns {
  import opened Measurements
  import opened PageLayout
  import opened Entries
  import opened TreeShape
  import opened TreeContents
  import opened TreeSize
  import opened NodeArrays
  import opened NodeArena
  import opened IndexWalk
  import opened PageAppend
  import opened PageIndex
  import opened IndexRuns
  import opened PageReaders
  import opened Picking
  import opened IndexedQuery
  import opened PageQuery
  import opened CacheWriter
  import WriteWindow

  // ---- the times of the records ----

  /** The record's times are those of the first and the last measurement it covers. */
  ghost predicate ExactTimes(rec: IndexRecord, ms: seq<Meas>) {
    && rec.count >= 1 && rec.pos + rec.count <= |ms|
    && rec.minTime == ms[rec.pos].time && rec.maxTime == ms[rec.pos + rec.count - 1].time
  }

  ghost predicate AllExact(recs: seq<IndexRecord>, ms: seq<Meas>) {
    forall i :: 0 <= i < |recs| ==> ExactTimes(recs[i], ms)
  }

  lemma {:induction false} AllExactConcat(a: seq<IndexRecord>, b: seq<IndexRecord>, ms: seq<Meas>)
    requires AllExact(a, ms) && AllExact(b, ms)
    ensures AllExact(a + b, ms)
  {
  }

  lemma {:induction false} AllExactGrow(recs: seq<IndexRecord>, ms: seq<Meas>, more: seq<Meas>)
    requires AllExact(recs, ms)
    ensures AllExact(recs, ms + more)
  {
    forall i | 0 <= i < |recs|
      ensures ExactTimes(recs[i], ms + more)
    {
      assert ExactTimes(recs[i], ms);
    }
  }

  /** A record over part of a batch. */
  lemma {:induction false} BatchExact(ms: seq<Meas>, p0: nat, begin: seq<Meas>, start: nat, i: nat)
    requires start < i && Holds(ms, p0, begin, i)
    ensures ExactTimes(IndexRecord(p0 + start, i - start, begin[start].time, begin[i - 1].time), ms)
  {
    assert ms[p0 + start] == begin[start];
    assert ms[p0 + (i - 1)] == begin[i - 1];
  }

  lemma {:induction false} LoopRecordsExact(ms: seq<Meas>, p0: nat, begin: seq<Meas>, k: nat)
    requires Holds(ms, p0, begin, k)
    ensures AllExact(LoopRecords(begin, k, p0), ms)
  {
    if k > 0 {
      LoopRecordsExact(ms, p0, begin, k - 1);
      var s, i := StartOf(k - 1), k - 1;
      if i != 0 && i % 100 == 0 {
        BatchExact(ms, p0, begin, s, i);
      }
      AllExactConcat(LoopRecords(begin, k - 1, p0), HundredRecord(begin, i, s, p0 + s), ms);
    }
  }

  /** The records a batch adds have exactly the times of their ends, in whatever order its times are. */
  lemma {:induction false} BatchRecordsExact(recs: seq<IndexRecord>, ms: seq<Meas>, begin: seq<Meas>, k: nat)
    requires k <= |begin| && AllExact(recs, ms)
    ensures AllExact(recs + BatchRecords(begin, k, |ms|), ms + begin[..k])
  {
    var all := ms + begin[..k];
    assert Holds(all, |ms|, begin, k);
    AllExactGrow(recs, ms, begin[..k]);
    LoopRecordsExact(all, |ms|, begin, k);
    if k > 0 {
      BatchExact(all, |ms|, begin, StartOf(k), k);
    }
    AllExactConcat(LoopRecords(begin, k, |ms|), LastRecord(begin, k, |ms|), all);
    AllExactConcat(recs, BatchRecords(begin, k, |ms|), all);
  }

  // ---- records with separate times ----

  /** Record `i` ends before the next one starts, in time. */
  predicate EndsBefore(recs: seq<IndexRecord>, i: int)
    requires 0 <= i < |recs| - 1
  {
    recs[i].maxTime < recs[i + 1].minTime
  }

  /** From record to record the times increase strictly. */
  ghost predicate EndsApart(recs: seq<IndexRecord>) {
    forall i {:trigger EndsBefore(recs, i)} :: 0 <= i < |recs| - 1 ==> EndsBefore(recs, i)
  }

  lemma {:induction false} TilesOrdered(recs: seq<IndexRecord>, n: nat, i: nat, j: nat)
    requires Tiles(recs, n) && i < j < |recs|
    ensures recs[i].pos + recs[i].count <= recs[j].pos
  {
    var last := |recs| - 1;
    assert recs[..last][i] == recs[i];
    if j == last {
      TilesBelow(recs[..last], recs[last].pos);
    } else {
      assert recs[..last][j] == recs[j];
      TilesOrdered(recs[..last], recs[last].pos, i, j);
    }
  }

  lemma {:induction false} LaterStartsLater(recs: seq<IndexRecord>, ms: seq<Meas>, i: nat, j: nat)
    requires Tiles(recs, |ms|) && AllExact(recs, ms) && SortedByTime(ms) && EndsApart(recs) && i < j < |recs|
    ensures recs[i].maxTime < recs[j].minTime
  {
    assert EndsBefore(recs, i);
    if i + 1 < j {
      TilesOrdered(recs, |ms|, i + 1, j);
      assert ExactTimes(recs[i + 1], ms) && ExactTimes(recs[j], ms);
    }
  }

  /** Records with exact times that tile sorted measurements, and end apart, have separate time spans, in order. */
  lemma {:induction false} RecordsApart(recs: seq<IndexRecord>, ms: seq<Meas>)
    requires Tiles(recs, |ms|) && AllExact(recs, ms) && SortedByTime(ms) && EndsApart(recs)
    ensures Ascending(Keyed(recs)) && WellTimed(Keyed(recs)) && NewKeys([], Keyed(recs)) && AllSpan(recs, ms)
  {
    forall i | 0 <= i < |recs|
      ensures recs[i].minTime <= recs[i].maxTime && recs[i].count >= 1
      ensures recs[i].pos + recs[i].count <= |ms| && Spans(recs[i], ms)
    {
      assert ExactTimes(recs[i], ms);
    }
    forall i, j | 0 <= i < j < |recs|
      ensures recs[i].maxTime < recs[j].minTime
    {
      LaterStartsLater(recs, ms, i, j);
    }
  }

  lemma {:induction false} InsertLast(s: seq<Entry>, e: Entry)
    requires AllBelow(s, e.key)
    ensures InsertSorted(s, e) == s + [e]
  {
    if s != [] {
      assert s[0].key < e.key;
      InsertLast(s[1..], e);
      assert s == [s[0]] + s[1..];
    }
  }

  /** Inserting what is in order leaves it as it is. */
  lemma {:induction false} InsertInOrder(es: seq<Entry>)
    requires Ascending(es)
    ensures InsertAllSorted([], es) == es
  {
    if es != [] {
      var k := |es| - 1;
      InsertInOrder(es[..k]);
      InsertLast(es[..k], es[k]);
      assert es == es[..k] + [es[k]];
    }
  }

  // ---- what a query delivers ----

  /** A tree that holds the records of the page in the order they were written. */
  ghost predicate HoldsPage(t: Tree, n: nat, recs: seq<IndexRecord>, ms: seq<Meas>) {
    && Inv(t, n, 0) && Contents(t) == Keyed(recs)
    && Tiles(recs, |ms|) && AllExact(recs, ms) && AllSpan(recs, ms) && WellTimed(Keyed(recs))
  }

  /** A record that does not meet the interval covers nothing that passes. */
  lemma {:induction false} NothingPasses(q: Query, ms: seq<Meas>, begin: nat, end: nat)
    requires AllEightBytes(ms) && begin <= end <= |ms| && forall p :: begin <= p < end ==> !Pass(q, ms[p])
    ensures MatchingSpan(q, ms, begin, end) == []
  {
    if begin < end {
      NothingPasses(q, ms, begin, end - 1);
      SpanHit(q, ms, begin, end - 1);
    } else {
      assert ms[begin..end] == [];
    }
  }

  lemma {:induction false} UnselectedPassesNothing(q: Query, ms: seq<Meas>, rec: IndexRecord)
    requires AllEightBytes(ms) && rec.count >= 1 && rec.pos + rec.count <= |ms| && Spans(rec, ms) && q.from <= q.to
    requires !CheckInterval(rec, q.from, q.to)
    ensures MatchingSpan(q, ms, rec.pos, rec.pos + rec.count) == []
  {
    assert rec.minTime <= ms[rec.pos].time <= rec.maxTime;
    CheckIntervalIsOverlap(rec, q.from, q.to);
    NothingPasses(q, ms, rec.pos, rec.pos + rec.count);
  }

  lemma {:induction false} LastOfTiles(recs: seq<IndexRecord>, n: nat, ms: seq<Meas>)
    requires Tiles(recs, n) && AllSpan(recs, ms) && recs != []
    ensures var rec := recs[|recs| - 1];
            && Tiles(recs[..|recs| - 1], rec.pos) && AllSpan(recs[..|recs| - 1], ms)
            && Spans(rec, ms) && rec.count >= 1 && rec.pos + rec.count == n
  {
    var k := |recs| - 1;
    assert Spans(recs[k], ms);
    assert forall i :: 0 <= i < k ==> recs[..k][i] == recs[i];
  }

  /** What is selected of one record more. */
  lemma {:induction false} SelectedMore(recs: seq<IndexRecord>, from: int, to: int)
    requires recs != []
    ensures var k := |recs| - 1;
            var before := Selected(Keyed(recs[..k]), from, to);
            Selected(Keyed(recs), from, to) == if CheckInterval(recs[k], from, to) then before + [recs[k]] else before
  {
    assert Keyed(recs)[..|recs| - 1] == Keyed(recs[..|recs| - 1]);
  }

  lemma {:induction false} HitsOfMore(q: Query, ms: seq<Meas>, before: seq<IndexRecord>, rec: IndexRecord)
    requires AllEightBytes(ms) && rec.pos + rec.count <= |ms|
    ensures HitsAt(q, ms, AllPositions(before + [rec])) ==
            HitsAt(q, ms, AllPositions(before)) + MatchingSpan(q, ms, rec.pos, rec.pos + rec.count)
  {
    assert (before + [rec])[..|before|] == before;
    AtConcat(Hits(q, ms), AllPositions(before), Positions(rec));
    HitsOfRecord(q, ms, rec);
  }

  /** What passes in the records that meet the interval is what matches, in write order. */
  lemma {:induction false} SelectedInWriteOrder(q: Query, ms: seq<Meas>, recs: seq<IndexRecord>, n: nat)
    requires AllEightBytes(ms) && Tiles(recs, n) && n <= |ms| && AllSpan(recs, ms) && q.from <= q.to
    ensures HitsAt(q, ms, AllPositions(Selected(Keyed(recs), q.from, q.to))) == MatchingSpan(q, ms, 0, n)
  {
    if recs == [] {
      assert Keyed(recs) == [] && ms[0..0] == [];
    } else {
      var k := |recs| - 1;
      var rec := recs[k];
      LastOfTiles(recs, n, ms);
      SelectedInWriteOrder(q, ms, recs[..k], rec.pos);
      SelectedMore(recs, q.from, q.to);
      SpanSplit(q, ms, 0, rec.pos, n);
      if CheckInterval(rec, q.from, q.to) {
        HitsOfMore(q, ms, Selected(Keyed(recs[..k]), q.from, q.to), rec);
      } else {
        UnselectedPassesNothing(q, ms, rec);
      }
    }
  }

  lemma {:induction false} ScanIsMatching(t: Tree, n: nat, q: Query, recs: seq<IndexRecord>, ms: seq<Meas>)
    requires AllEightBytes(ms) && HoldsPage(t, n, recs, ms) && q.from <= q.to
    ensures HitsAt(q, ms, AllPositions(Selected(Contents(t), q.from, q.to))) == Matching(q, ms)
  {
    SelectedInWriteOrder(q, ms, recs, |ms|);
    assert ms[0..|ms|] == ms;
  }

  // ---- when the walk delivers everything ----

  lemma {:induction false} FirstIsSelected(es: seq<Entry>, from: int, to: int)
    requires es != [] && CheckInterval(es[0].val, from, to)
    ensures Selected(es, from, to) != [] && Selected(es, from, to)[0] == es[0].val
  {
    assert es == [es[0]] + es[1..];
    SelectedConcat([es[0]], es[1..], from, to);
    assert [es[0]][..0] == [];
    assert Selected([es[0]], from, to) == [es[0].val];
  }

  lemma {:induction false} HitsSomething(q: Query, ms: seq<Meas>, ps: seq<nat>, i: nat)
    requires AllEightBytes(ms) && i < |ps| && ps[i] < |ms| && Pass(q, ms[ps[i]])
    ensures HitsAt(q, ms, ps) != []
  {
    var a, b := ps[..i], ps[i + 1..];
    assert ps == a + [ps[i]] + b;
    AtConcat(Hits(q, ms), a + [ps[i]], b);
    assert (a + [ps[i]])[..i] == a;
    assert Hits(q, ms)(ps[i]) == Hit(q, ms, ps[i]) != [];
  }

  /** The first record of a later stop leaf starts with a measurement of the interval. */
  lemma {:induction false} StopRecordPasses(t: Tree, n: nat, a: nat, b: nat, q: Query, recs: seq<IndexRecord>,
                                            ms: seq<Meas>)
    requires HoldsPage(t, n, recs, ms) && Unfiltered(q) && q.from <= q.to
    requires HoldsKey(t, a, q.from) && HoldsKey(t, b, q.to) && a < b
    ensures var v := t.slots[t.leaves[b]].vals;
            && v != [] && CheckInterval(v[0].val, q.from, q.to) && v[0].val.count >= 1
            && v[0].val.pos < |ms| && Pass(q, ms[v[0].val.pos])
  {
    FirstOfStop(t, n, a, b, q.from, q.to);
    LeafFacts(t, n, 0, b);
    LeafGap(t, n, a, b);
    ContentsAround(t, n, 0, b);
    var v, i := t.slots[t.leaves[b]].vals, |EntriesOf(t.slots, t.leaves[..b])|;
    assert Contents(t)[i] == v[0];
    assert Keyed(recs)[i] == EntryOf(recs[i]);
    assert ExactTimes(recs[i], ms);
  }

  /** What the walk leaves out when it ends before the stop leaf is not nothing. */
  lemma {:induction false} StopLeafLost(t: Tree, n: nat, a: nat, b: nat, q: Query, recs: seq<IndexRecord>,
                                        ms: seq<Meas>)
    requires AllEightBytes(ms) && HoldsPage(t, n, recs, ms) && Unfiltered(q) && q.from <= q.to
    requires HoldsKey(t, a, q.from) && HoldsKey(t, b, q.to) && a < b
    ensures HitsAt(q, ms, AllPositions(Found(t, b, |t.leaves|, q.from, q.to))) != []
  {
    var v, k := t.slots[t.leaves[b]].vals, |t.leaves|;
    StopRecordPasses(t, n, a, b, q, recs, ms);
    FirstIsSelected(v, q.from, q.to);
    FoundConcat(t, n, b, b + 1, k, q.from, q.to);
    FoundOne(t, n, b, q.from, q.to);
    var found := Found(t, b, k, q.from, q.to);
    assert found[0] == v[0].val;
    CountOfCovered(found, 0, v[0].val.pos);
    CountedIsListed(AllPositions(found), v[0].val.pos);
    var i :| 0 <= i < |AllPositions(found)| && AllPositions(found)[i] == v[0].val.pos;
    HitsSomething(q, ms, AllPositions(found), i);
  }

  lemma {:induction false} ScanFromStart(t: Tree, n: nat, a: nat, b: nat, from: int, to: int)
    requires Inv(t, n, 0) && WellTimed(Contents(t)) && HoldsKey(t, a, from) && a <= b <= |t.leaves|
    ensures Selected(Contents(t), from, to) == Found(t, a, b, from, to) + Found(t, b, |t.leaves|, from, to)
  {
    var k := |t.leaves|;
    NothingBeforeStart(t, n, a, from, to);
    FoundConcat(t, n, 0, a, k, from, to);
    FoundConcat(t, n, a, b, k, from, to);
    assert t.leaves[0..k] == t.leaves;
  }

  /**
   The reader delivers exactly the matching measurements, in write order, if and only if the bounds route to one
   leaf or nothing before the stop leaf meets the interval.
   */
  lemma {:induction false} DeliversAllIff(t: Tree, n: nat, a: nat, b: nat, q: Query, recs: seq<IndexRecord>,
                                          ms: seq<Meas>)
    requires AllEightBytes(ms) && HoldsPage(t, n, recs, ms) && Unfiltered(q) && q.from <= q.to
    requires HoldsKey(t, a, q.from) && HoldsKey(t, b, q.to)
    ensures HitsAt(q, ms, WalkPositions(t, a, b, q.from, q.to)) == Matching(q, ms) <==>
            OneLeafEnough(t, a, b, q.from, q.to)
  {
    WalkComplete(t, n, a, b, q.from, q.to);
    ScanIsMatching(t, n, q, recs, ms);
    if !OneLeafEnough(t, a, b, q.from, q.to) {
      ScanFromStart(t, n, a, b, q.from, q.to);
      StopLeafLost(t, n, a, b, q, recs, ms);
      var walked, left := Found(t, a, b, q.from, q.to), Found(t, b, |t.leaves|, q.from, q.to);
      PositionsConcat(walked, left);
      AtConcat(Hits(q, ms), AllPositions(walked), AllPositions(left));
    }
  }

  lemma {:induction false} TilesPrefix(recs: seq<IndexRecord>, n: nat, k: nat)
    requires Tiles(recs, n) && k < |recs|
    ensures Tiles(recs[..k], recs[k].pos)
  {
    var last := |recs| - 1;
    if k < last {
      TilesPrefix(recs[..last], recs[last].pos, k);
      assert recs[..last][..k] == recs[..k] && recs[..last][k] == recs[k];
    }
  }

  /** Page position at which the records of the leaf at place `b` start. */
  ghost function LeafStart(t: Tree, b: nat): nat
    requires LeavesInRange(t) && b < |t.leaves|
  {
    var v := t.slots[t.leaves[b]].vals;
    if v == [] then 0 else v[0].val.pos
  }

  /** What the records before the `cut`-th one contribute is what matches before that one's position. */
  lemma {:induction false} CutIsMatching(q: Query, ms: seq<Meas>, recs: seq<IndexRecord>, cut: nat)
    requires AllEightBytes(ms) && Tiles(recs, |ms|) && AllSpan(recs, ms) && q.from <= q.to && cut < |recs|
    ensures recs[cut].pos <= |ms|
    ensures HitsAt(q, ms, AllPositions(Selected(Keyed(recs)[..cut], q.from, q.to))) ==
            Matching(q, ms[..recs[cut].pos])
  {
    TilesPrefix(recs, |ms|, cut);
    TilesBelow(recs, |ms|);
    assert forall i :: 0 <= i < cut ==> recs[..cut][i] == recs[i];
    assert Keyed(recs)[..cut] == Keyed(recs[..cut]);
    SelectedInWriteOrder(q, ms, recs[..cut], recs[cut].pos);
    assert ms[0..recs[cut].pos] == ms[..recs[cut].pos];
  }

  /** When one leaf is not enough, exactly what matches before the stop leaf's first record is delivered. */
  lemma {:induction false} DeliversBeforeStop(t: Tree, n: nat, a: nat, b: nat, q: Query, recs: seq<IndexRecord>,
                                              ms: seq<Meas>)
    requires AllEightBytes(ms) && HoldsPage(t, n, recs, ms) && q.from <= q.to
    requires HoldsKey(t, a, q.from) && HoldsKey(t, b, q.to) && !OneLeafEnough(t, a, b, q.from, q.to)
    ensures LeafStart(t, b) <= |ms|
    ensures HitsAt(q, ms, WalkPositions(t, a, b, q.from, q.to)) == Matching(q, ms[..LeafStart(t, b)])
  {
    var cut := WalkScans(t, n, a, b, q.from, q.to);
    assert Keyed(recs)[cut] == EntryOf(recs[cut]);
    CutIsMatching(q, ms, recs, cut);
  }

  /** An index of fewer than 2n records has one leaf. */
  lemma {:induction false} FewRecordsOneLeaf(t: Tree, n: nat, recs: seq<IndexRecord>, ms: seq<Meas>)
    requires HoldsPage(t, n, recs, ms) && |recs| < 2 * n
    ensures |t.leaves| == 1
  {
    LeafBound(t, n, 0);
    if |t.leaves| >= 2 {
      MulMonotone(2, |t.leaves|, n);
    }
  }

  // ---- filling a page ----

  /** The records a page emits for batches that it takes whole. */
  function RunRecords(batches: seq<seq<Meas>>): seq<IndexRecord> {
    if batches == [] then []
    else
      var k := |batches| - 1;
      RunRecords(batches[..k]) + BatchRecords(batches[k], |batches[k]|, |Flatten(batches[..k])|)
  }

  /** The page took the measurements `ms` and emitted the records `recs`. */
  ghost predicate Filled(page: Page, ms: seq<Meas>, recs: seq<IndexRecord>)
    reads page, page.raw
  {
    && page.Valid() && page.contents == ms && page.window == WriteWindow.UpdatedAll([], ms)
    && page.index == recs && AllExact(recs, ms) && (SortedByTime(ms) ==> page.TimesOk())
  }

  lemma {:induction false} SortedParts(a: seq<Meas>, b: seq<Meas>)
    requires SortedByTime(a + b)
    ensures SortedByTime(a) && SortedByTime(b)
  {
    var ab := a + b;
    assert forall i :: 0 <= i < |a| ==> ab[i] == a[i];
    assert forall i :: 0 <= i < |b| ==> ab[|a| + i] == b[i];
  }

  method AddBatch(page: Page, batch: seq<Meas>, ghost before: seq<Meas>, ghost recs: seq<IndexRecord>)
    requires Filled(page, before, recs) && AllEightBytes(batch)
    requires |before| + |batch| <= Capacity(page.raw.Length)
    modifies page, page.raw
    ensures Filled(page, before + batch, recs + BatchRecords(batch, |batch|, |before|))
  {
    var writed := page.AppendBatch(batch);
    assert batch[..writed] == batch;
    BatchRecordsExact(recs, before, batch, writed);
    WriteWindow.UpdatedAllConcat([], before, batch);
    if SortedByTime(before + batch) {
      SortedParts(before, batch);
    }
  }

  /** A new page takes batches that fit. */
  method FillPage(size: nat, batches: seq<seq<Meas>>) returns (page: Page)
    requires GoodSize(size) && |Flatten(batches)| <= Capacity(size)
    requires forall i :: 0 <= i < |batches| ==> AllEightBytes(batches[i])
    ensures fresh(page) && fresh(page.raw) && page.raw.Length == size
    ensures Filled(page, Flatten(batches), RunRecords(batches))
  {
    page := new Page(size, []);
    assert batches[..|batches|] == batches;
    for k := 0 to |batches|
      invariant Filled(page, Flatten(batches[..k]), RunRecords(batches[..k])) && page.raw.Length == size
    {
      FlattenStep(batches, k);
      AddBatch(page, batches[k], Flatten(batches[..k]), RunRecords(batches[..k]));
    }
  }

  lemma {:induction false} FlattenStep(batches: seq<seq<Meas>>, k: nat)
    requires k < |batches|
    ensures Flatten(batches[..k + 1]) == Flatten(batches[..k]) + batches[k]
    ensures RunRecords(batches[..k + 1]) ==
            RunRecords(batches[..k]) + BatchRecords(batches[k], |batches[k]|, |Flatten(batches[..k])|)
    ensures |Flatten(batches[..k])| + |batches[k]| <= |Flatten(batches)|
    decreases |batches| - k
  {
    assert batches[..k + 1][..k] == batches[..k];
    if k + 1 == |batches| {
      assert batches[..k + 1] == batches;
    } else {
      FlattenStep(batches, k + 1);
    }
  }

  // ---- the run ----

  /** An arena for an index, all zero. */
  ghost predicate Blank(data: seq<Node>, n: nat)
    reads Foot(data)
  {
    n >= 2 && Separate(data, n) && AllSized(data) && |data| >= 2 && Views(data) == seq(|data|, x => BLANK)
  }

  /** A new index, with an empty buffer of the given capacity. */
  method EmptyIndex(data: seq<Node>, n: nat, capacity: nat) returns (index: Index)
    requires Blank(data, n) && capacity > 0
    modifies Foot(data)
    ensures fresh(index) && index.data == data && index.n == n && index.Valid() && index.All() == []
  {
    var rootPos, cachePos;
    ghost var u;
    rootPos, cachePos, u := NewIndex(data, n);
    index := new Index(data, n, capacity, rootPos, cachePos, u);
  }

  /** The records of a page, written to a new index: page and index belong together. */
  method IndexPage(page: Page, data: seq<Node>, n: nat, capacity: nat, ghost ms: seq<Meas>,
                   ghost recs: seq<IndexRecord>)
    returns (index: Index)
    requires Filled(page, ms, recs) && SortedByTime(ms) && EndsApart(recs) && capacity > 0
    requires Blank(data, n) && SlotsFor(|recs|, n) <= |data| && page !in Foot(data) && page.raw !in Foot(data)
    modifies Foot(data)
    ensures fresh(index) && index.data == data && index.n == n && Belongs(page, index) && Filled(page, ms, recs)
  {
    RecordsApart(recs, ms);
    InsertInOrder(Keyed(recs));
    index := EmptyIndex(data, n, capacity);
    WriteRun(index, page.index);
    assert unchanged(page) && unchanged(page.raw);
  }

  /** The header's range of sorted times. */
  lemma {:induction false} EndsOfTimes(times: MinMax, ms: seq<Meas>)
    requires Bounds(times, ms) && SortedByTime(ms) && ms != []
    ensures times == Range(ms[0].time, ms[|ms| - 1].time)
  {
    var i :| 0 <= i < |ms| && ms[i].time == times.min;
    var j :| 0 <= j < |ms| && ms[j].time == times.max;
    assert times.min <= ms[0].time && ms[|ms| - 1].time <= times.max;
  }

  lemma {:induction false} RoomAndEnds(page: Page, index: Index, ms: seq<Meas>, recs: seq<IndexRecord>)
    returns (total: nat)
    requires Belongs(page, index) && Filled(page, ms, recs) && SlotsFor(|recs|, index.n) <= |index.data|
    requires ms != [] && SortedByTime(ms)
    ensures total == |Contents(index.t)| + index.bufferPos && SlotsFor(total, index.n) <= |index.data|
    ensures page.times == Range(ms[0].time, ms[|ms| - 1].time)
  {
    total := SizeOfIndex(page, index, recs);
    EndsOfTimes(page.times, ms);
  }

  lemma {:induction false} SizeOfIndex(page: Page, index: Index, recs: seq<IndexRecord>) returns (total: nat)
    requires Belongs(page, index) && page.index == recs
    ensures total == |Contents(index.t)| + index.bufferPos == |recs|
  {
    AllSize(index);
    InsertAllSize([], Keyed(recs));
    total := |recs|;
  }

  /** What comes before the matching measurements: nothing when no record meets the interval. */
  ghost function StartOfAnswer(recs: seq<IndexRecord>, q: Query, point: seq<Meas>): seq<Meas> {
    if Selected(Keyed(recs), q.from, q.to) == [] then [] else point
  }

  /**
   The places of the window of all that was appended whose flag, source and id are asked for, each once and in order;
   without filters all of them. With positive times that window has for every id its first-appended measurement of
   greatest time, and nothing else.
   */
  ghost predicate OfWindow(q: Query, ms: seq<Meas>, out: seq<Meas>) {
    var window := WriteWindow.UpdatedAll([], ms);
    && Filtered(window, FlagMarks(q, window), out) && (Unfiltered(q) ==> out == window)
    && WindowFollows(window, ms)
  }

  /** The query has no filters, or the page answers it without the index. */
  predicate Answerable(q: Query, ms: seq<Meas>)
    requires ms != []
  {
    Unfiltered(q) || WithoutIndex(q, ms[0].time, ms[|ms| - 1].time)
  }

  /**
   What a query delivers, in terms of the measurements and records of the page. Past the page's end: what is asked for
   of the window. Over the whole range: fields and value bytes of what passes, in write order. For an interval inside
   the page: what passes at the positions the walk reads, in write order, which is all that matches if and only if one
   leaf is enough, and otherwise what matches before the stop leaf's first record; with fewer than 2n records one leaf
   always is.
   */
  ghost predicate RunDelivers(q: Query, ms: seq<Meas>, recs: seq<IndexRecord>, n: nat, point: seq<Meas>, t: Tree,
                              out: seq<Meas>)
    requires AllEightBytes(ms) && LeavesInRange(t) && ms != []
  {
    if q.from > ms[|ms| - 1].time then OfWindow(q, ms, out)
    else if q.from <= ms[0].time && q.to >= ms[|ms| - 1].time then
      out == point + Matching(q, ms) && ReadsAll(q, ms, Matching(q, ms))
    else
      && (exists a: nat, b: nat ::
            HoldsKey(t, a, q.from) && HoldsKey(t, b, q.to) && ReadsFrom(t, a, b, q, ms, point, out))
      && (|recs| < 2 * n ==> out == StartOfAnswer(recs, q, point) + Matching(q, ms))
  }

  ghost predicate ReadsFrom(t: Tree, a: nat, b: nat, q: Query, ms: seq<Meas>, point: seq<Meas>, out: seq<Meas>)
    requires AllEightBytes(ms) && LeavesInRange(t) && HoldsKey(t, a, q.from) && HoldsKey(t, b, q.to)
  {
    var ps := WalkPositions(t, a, b, q.from, q.to);
    && out == (if ps == [] then [] else point) + HitsAt(q, ms, ps) && WalkReads(t, a, b, q, ms)
    && (HitsAt(q, ms, ps) == Matching(q, ms) <==> OneLeafEnough(t, a, b, q.from, q.to))
    && (OneLeafEnough(t, a, b, q.from, q.to) || ReadsUpTo(q, ms, ps, LeafStart(t, b)))
  }

  /** What passes at the positions is what matches before position `stop`. */
  ghost predicate ReadsUpTo(q: Query, ms: seq<Meas>, ps: seq<nat>, stop: nat)
    requires AllEightBytes(ms)
  {
    stop <= |ms| && HitsAt(q, ms, ps) == Matching(q, ms[..stop])
  }

  lemma {:induction false} SmallIndexAnswer(t: Tree, n: nat, a: nat, b: nat, q: Query, recs: seq<IndexRecord>,
                                            ms: seq<Meas>, point: seq<Meas>, out: seq<Meas>)
    requires AllEightBytes(ms) && HoldsPage(t, n, recs, ms) && q.from <= q.to && |recs| < 2 * n
    requires HoldsKey(t, a, q.from) && HoldsKey(t, b, q.to) && AnswersFrom(t, a, b, q, ms, point, out)
    ensures out == StartOfAnswer(recs, q, point) + Matching(q, ms)
  {
    FewRecordsOneLeaf(t, n, recs, ms);
    ScanIsMatching(t, n, q, recs, ms);
    SelectedNonEmpty(Keyed(recs), q.from, q.to);
    NoPositions(Selected(Keyed(recs), q.from, q.to));
  }

  lemma {:induction false} WalkRun(t: Tree, n: nat, a: nat, b: nat, q: Query, recs: seq<IndexRecord>, ms: seq<Meas>,
                                   point: seq<Meas>, out: seq<Meas>)
    requires AllEightBytes(ms) && HoldsPage(t, n, recs, ms) && Unfiltered(q) && q.from <= q.to
    requires HoldsKey(t, a, q.from) && HoldsKey(t, b, q.to) && AnswersFrom(t, a, b, q, ms, point, out)
    requires WalkReads(t, a, b, q, ms)
    ensures ReadsFrom(t, a, b, q, ms, point, out)
    ensures |recs| < 2 * n ==> out == StartOfAnswer(recs, q, point) + Matching(q, ms)
  {
    DeliversAllIff(t, n, a, b, q, recs, ms);
    if !OneLeafEnough(t, a, b, q.from, q.to) {
      DeliversBeforeStop(t, n, a, b, q, recs, ms);
    }
    if |recs| < 2 * n {
      SmallIndexAnswer(t, n, a, b, q, recs, ms, point, out);
    }
  }

  lemma {:induction false} InsideRun(t: Tree, n: nat, q: Query, ms: seq<Meas>, recs: seq<IndexRecord>,
                                     window: seq<Meas>, point: seq<Meas>, out: seq<Meas>)
    requires AllEightBytes(ms) && HoldsPage(t, n, recs, ms) && q.from <= q.to && ms != [] && Answerable(q, ms)
    requires window == WriteWindow.UpdatedAll([], ms)
    requires Delivers(q, ms, ms[0].time, ms[|ms| - 1].time, window, point, t, out)
    ensures RunDelivers(q, ms, recs, n, point, t, out)
  {
    WindowOfAll(window, ms);
    if q.from <= ms[|ms| - 1].time && !(q.from <= ms[0].time && q.to >= ms[|ms| - 1].time) {
      var a: nat, b: nat :|
        && HoldsKey(t, a, q.from) && HoldsKey(t, b, q.to) && AnswersFrom(t, a, b, q, ms, point, out)
        && WalkReads(t, a, b, q, ms);
      WalkRun(t, n, a, b, q, recs, ms, point, out);
    }
  }

  /** An index of records that end apart holds them in the order they were written. */
  lemma {:induction false} HoldsInOrder(t: Tree, n: nat, recs: seq<IndexRecord>, ms: seq<Meas>)
    requires Inv(t, n, 0) && IndexOf(t, ms, recs) && AllExact(recs, ms) && SortedByTime(ms) && EndsApart(recs)
    ensures HoldsPage(t, n, recs, ms)
  {
    RecordsApart(recs, ms);
    InsertInOrder(Keyed(recs));
  }

  method QueryFilled(page: Page, index: Index, q: Query, readSize: nat, earlier: seq<Meas>, ghost ms: seq<Meas>,
                     ghost recs: seq<IndexRecord>) returns (out: seq<Meas>)
    requires Belongs(page, index) && Filled(page, ms, recs) && SlotsFor(|recs|, index.n) <= |index.data|
    requires ms != [] && SortedByTime(ms) && EndsApart(recs)
    requires readSize >= 1 && q.from <= q.to && Answerable(q, ms)
    modifies index, Foot(index.data)
    ensures AllEightBytes(ms) && HoldsPage(index.t, index.n, recs, ms)
    ensures RunDelivers(q, ms, recs, index.n, PointOf(q, ms[0].time, [], earlier), index.t, out)
  {
    ghost var total := RoomAndEnds(page, index, ms, recs);
    out := QueryTimed(page, index, q, readSize, earlier, total, ms, recs);
    HoldsInOrder(index.t, index.n, recs, ms);
    InsideRun(index.t, index.n, q, ms, recs, WriteWindow.UpdatedAll([], ms), PointOf(q, ms[0].time, [], earlier), out);
  }

  method QueryTimed(page: Page, index: Index, q: Query, readSize: nat, earlier: seq<Meas>, ghost total: nat,
                    ghost ms: seq<Meas>, ghost recs: seq<IndexRecord>) returns (out: seq<Meas>)
    requires Belongs(page, index) && page.contents == ms && page.index == recs && ms != []
    requires page.window == WriteWindow.UpdatedAll([], ms) && page.times == Range(ms[0].time, ms[|ms| - 1].time)
    requires total == |Contents(index.t)| + index.bufferPos && SlotsFor(total, index.n) <= |index.data|
    requires readSize >= 1 && q.from <= q.to && Answerable(q, ms)
    modifies index, Foot(index.data)
    ensures AllEightBytes(ms) && Inv(index.t, index.n, 0) && IndexOf(index.t, ms, recs)
    ensures Delivers(q, ms, ms[0].time, ms[|ms| - 1].time, WriteWindow.UpdatedAll([], ms),
                     PointOf(q, ms[0].time, [], earlier), index.t, out)
  {
    out := QueryPage(page, index, q, readSize, [], earlier, total);
  }

  /**
   A whole run: a new page takes batches in time order whose records end apart, its records go to a new index, and
   a query reads from both. The tree holds exactly these records, and what the query delivers is stated in
   terms of the measurements appended.
   */
  method FillThenQuery(size: nat, batches: seq<seq<Meas>>, data: seq<Node>, n: nat, capacity: nat, q: Query,
                       readSize: nat, earlier: seq<Meas>) returns (out: seq<Meas>, ghost t: Tree)
    requires GoodSize(size) && |Flatten(batches)| <= Capacity(size) && Flatten(batches) != []
    requires SortedByTime(Flatten(batches)) && EndsApart(RunRecords(batches))
    requires forall i :: 0 <= i < |batches| ==> AllEightBytes(batches[i])
    requires Blank(data, n) && SlotsFor(|RunRecords(batches)|, n) <= |data| && capacity > 0
    requires readSize >= 1 && q.from <= q.to && Answerable(q, Flatten(batches))
    modifies Foot(data)
    ensures var ms, recs := Flatten(batches), RunRecords(batches);
            && AllEightBytes(ms) && HoldsPage(t, n, recs, ms)
            && StartValues(q, ms[0].time, [], earlier, PointOf(q, ms[0].time, [], earlier))
            && RunDelivers(q, ms, recs, n, PointOf(q, ms[0].time, [], earlier), t, out)
  {
    var page := FillBeside(size, batches, data, n);
    out, t := IndexThenQuery(page, data, n, capacity, q, readSize, earlier, Flatten(batches), RunRecords(batches));
    PointOfIs(q, Flatten(batches)[0].time, [], earlier);
  }

  method FillBeside(size: nat, batches: seq<seq<Meas>>, ghost data: seq<Node>, ghost n: nat) returns (page: Page)
    requires GoodSize(size) && |Flatten(batches)| <= Capacity(size) && Blank(data, n)
    requires forall i :: 0 <= i < |batches| ==> AllEightBytes(batches[i])
    ensures fresh(page) && fresh(page.raw) && Filled(page, Flatten(batches), RunRecords(batches))
    ensures Blank(data, n) && page !in Foot(data) && page.raw !in Foot(data)
  {
    page := FillPage(size, batches);
    assert unchanged(Foot(data));
  }

  method IndexThenQuery(page: Page, data: seq<Node>, n: nat, capacity: nat, q: Query, readSize: nat,
                        earlier: seq<Meas>, ghost ms: seq<Meas>, ghost recs: seq<IndexRecord>)
    returns (out: seq<Meas>, ghost t: Tree)
    requires Filled(page, ms, recs) && ms != [] && SortedByTime(ms) && EndsApart(recs) && capacity > 0
    requires Blank(data, n) && SlotsFor(|recs|, n) <= |data| && page !in Foot(data) && page.raw !in Foot(data)
    requires readSize >= 1 && q.from <= q.to && Answerable(q, ms)
    modifies Foot(data)
    ensures AllEightBytes(ms) && HoldsPage(t, n, recs, ms)
    ensures RunDelivers(q, ms, recs, n, PointOf(q, ms[0].time, [], earlier), t, out)
  {
    var index := IndexPage(page, data, n, capacity, ms, recs);
    out := QueryFilled(page, index, q, readSize, earlier, ms, recs);
    t := index.t;
  }
}
