/** Reading a page: the chunked interval reader and the page query that sets it up. */
module PageReaders {
  import opened Measurements
  import opened PageLayout
  import opened Entries
  import opened Bloom
  import opened PageAppend
  import opened Picking

  /** What is asked for; an empty id list, a zero source and a zero flag do not filter. */
  datatype Query = Query(ids: seq<U64>, source: U64, flag: U64, from: U64, to: U64)

  /** checkValueFlags */
  predicate FlagsPass(q: Query, m: Meas) {
    && (q.flag != 0 ==> m.flag == q.flag)
    && (q.source != 0 ==> m.source == q.source)
    && (q.ids != [] ==> m.id in q.ids)
  }

  predicate Pass(q: Query, m: Meas) { q.from <= m.time <= q.to && FlagsPass(q, m) }

  predicate Unfiltered(q: Query) { q.ids == [] && q.source == 0 && q.flag == 0 }

  // ---- what is delivered, without saying how ----

  /** The number is asked for: zero asks for every one. */
  predicate Asks(wanted: U64, x: U64) { wanted == 0 || wanted == x }

  /** Which measurements have a flag, source and id that is asked for. */
  function FlagMarks(q: Query, ms: seq<Meas>): (r: seq<bool>)
    ensures |r| == |ms|
    ensures forall i :: 0 <= i < |ms| ==>
              (r[i] <==> Asks(q.flag, ms[i].flag) && Asks(q.source, ms[i].source)
                         && (|q.ids| == 0 || exists j :: 0 <= j < |q.ids| && q.ids[j] == ms[i].id))
  {
    seq(|ms|, i requires 0 <= i < |ms| => FlagsPass(q, ms[i]))
  }

  /** At which of the positions there is a measurement that passes. */
  function PassMarks(q: Query, ms: seq<Meas>, ps: seq<nat>): (r: seq<bool>)
    ensures |r| == |ps|
    ensures forall i :: 0 <= i < |ps| ==>
              (r[i] <==> ps[i] < |ms| && q.from <= ms[ps[i]].time <= q.to && FlagMarks(q, ms)[ps[i]])
  {
    seq(|ps|, i requires 0 <= i < |ps| => ps[i] < |ms| && Pass(q, ms[ps[i]]))
  }

  /** `out` holds the fields and value bytes of the measurements at the positions `hit`, one after the other. */
  ghost predicate ReadFrom(ms: seq<Meas>, hit: seq<nat>, out: seq<Meas>) {
    |out| == |hit| && forall k :: 0 <= k < |hit| ==> hit[k] < |ms| && ReadsAs(out[k], ms[hit[k]])
  }

  /** `out` holds fields and value bytes of those measurements at the positions that pass, each once, in their order. */
  ghost predicate ReadsAt(q: Query, ms: seq<Meas>, ps: seq<nat>, out: seq<Meas>) {
    exists hit: seq<nat> :: Filtered(ps, PassMarks(q, ms, ps), hit) && ReadFrom(ms, hit, out)
  }

  function AllPlaces(n: nat): seq<nat> { seq(n, i requires 0 <= i => i) }

  /** The k-th measurement of `out` is the k-th of `ms` that passes. */
  ghost predicate ReadsAll(q: Query, ms: seq<Meas>, out: seq<Meas>) { ReadsAt(q, ms, AllPlaces(|ms|), out) }

  // ---- filtering ----

  /** The measurements that pass, in order and as `read` delivers them. */
  function Matching(q: Query, ms: seq<Meas>): seq<Meas>
    requires AllEightBytes(ms)
  {
    if ms == [] then []
    else
      var m := ms[|ms| - 1];
      Matching(q, ms[..|ms| - 1]) + if Pass(q, m) then [AsRead(m)] else []
  }

  lemma {:induction false} MatchingConcat(q: Query, a: seq<Meas>, b: seq<Meas>)
    requires AllEightBytes(a) && AllEightBytes(b)
    ensures AllEightBytes(a + b) && Matching(q, a + b) == Matching(q, a) + Matching(q, b)
  {
    if b == [] {
      assert a + b == a;
    } else {
      assert (a + b)[..|a + b| - 1] == a + b[..|b| - 1];
      MatchingConcat(q, a, b[..|b| - 1]);
    }
  }

  // ---- ranges of positions ----

  datatype Span = Span(begin: nat, end: nat)

  ghost predicate SpansIn(list: seq<Span>, n: nat) {
    forall i :: 0 <= i < |list| ==> list[i].begin <= list[i].end <= n
  }

  function MatchingSpan(q: Query, ms: seq<Meas>, begin: nat, end: nat): seq<Meas>
    requires AllEightBytes(ms) && begin <= end <= |ms|
  {
    Matching(q, ms[begin..end])
  }

  /** One-shot filtering of the listed ranges. */
  ghost function MatchingSpans(q: Query, ms: seq<Meas>, list: seq<Span>): seq<Meas>
    requires AllEightBytes(ms) && SpansIn(list, |ms|)
  {
    if list == [] then []
    else MatchingSpan(q, ms, list[0].begin, list[0].end) + MatchingSpans(q, ms, list[1..])
  }

  lemma {:induction false} SpanSplit(q: Query, ms: seq<Meas>, begin: nat, mid: nat, end: nat)
    requires AllEightBytes(ms) && begin <= mid <= end <= |ms|
    ensures MatchingSpan(q, ms, begin, end) == MatchingSpan(q, ms, begin, mid) + MatchingSpan(q, ms, mid, end)
  {
    assert ms[begin..end] == ms[begin..mid] + ms[mid..end];
    MatchingConcat(q, ms[begin..mid], ms[mid..end]);
  }

  lemma {:induction false} SpanNext(q: Query, ms: seq<Meas>, begin: nat, i: nat)
    requires AllEightBytes(ms) && begin <= i < |ms|
    ensures MatchingSpan(q, ms, begin, i + 1) ==
            MatchingSpan(q, ms, begin, i) + if Pass(q, ms[i]) then [AsRead(ms[i])] else []
  {
    assert ms[begin..i + 1][..i - begin] == ms[begin..i];
  }

  lemma {:induction false} StoredAreEight(mem: seq<Byte>, ms: seq<Meas>)
    requires AllStored(mem, ms)
    ensures AllEightBytes(ms)
  {
    forall i | 0 <= i < |ms|
      ensures EightBytes(ms[i])
    {
      assert Stored(mem, i, ms[i]);
    }
  }

  // ---- the values before the interval ----

  /** The filter of backwardRead; its id test is the opposite of the one in FlagsPass. */
  predicate BackPass(q: Query, m: Meas) {
    && (q.flag != 0 ==> m.flag == q.flag)
    && (q.source != 0 ==> m.source == q.source)
    && (q.ids != [] ==> m.id !in q.ids)
  }

  /** What backwardRead does with one measurement. */
  function BackStep(acc: map<U64, Meas>, m: Meas, q: Query, timePoint: U64): map<U64, Meas> {
    if m.time >= timePoint then acc
    else if m.id !in acc then (if BackPass(q, m) then acc[m.id := m] else acc)
    else if acc[m.id].time < m.time then acc[m.id := m]
    else acc
  }

  /** ... and with all from position `pos` on, last one first. */
  function BackFrom(ms: seq<Meas>, pos: nat, q: Query, timePoint: U64): map<U64, Meas>
    requires AllEightBytes(ms) && pos <= |ms|
    decreases |ms| - pos
  {
    if pos == |ms| then map[] else BackStep(BackFrom(ms, pos + 1, q, timePoint), AsRead(ms[pos]), q, timePoint)
  }

  /** At the page's first time there is nothing before. */
  lemma {:induction false} NothingBefore(ms: seq<Meas>, pos: nat, q: Query, timePoint: U64)
    requires AllEightBytes(ms) && pos <= |ms| && forall i :: 0 <= i < |ms| ==> timePoint <= ms[i].time
    ensures BackFrom(ms, pos, q, timePoint) == map[]
    decreases |ms| - pos
  {
    if pos < |ms| {
      NothingBefore(ms, pos + 1, q, timePoint);
    }
  }

  // ---- what the backward scan finds ----

  /** The measurement counts for the scan: it has the id and is before the time point. */
  predicate Earlier(m: Meas, id: U64, timePoint: U64) { m.id == id && m.time < timePoint }

  /** Position `top` is where the scan meets the id first: the last earlier one that its filter lets pass. */
  ghost predicate MetFirst(ms: seq<Meas>, pos: nat, q: Query, timePoint: U64, id: U64, top: nat) {
    && pos <= top < |ms| && Earlier(ms[top], id, timePoint) && BackPass(q, ms[top])
    && forall j :: top < j < |ms| && Earlier(ms[j], id, timePoint) ==> !BackPass(q, ms[j])
  }

  /** From there down, whether or not the filter lets them pass, position `k` is the last of greatest time. */
  ghost predicate LatestDown(ms: seq<Meas>, pos: nat, timePoint: U64, id: U64, top: nat, k: nat) {
    && pos <= k <= top < |ms| && Earlier(ms[k], id, timePoint)
    && (forall j :: pos <= j <= top && Earlier(ms[j], id, timePoint) ==> ms[j].time <= ms[k].time)
    && (forall j :: k < j <= top && Earlier(ms[j], id, timePoint) ==> ms[j].time < ms[k].time)
  }

  /** What the scan down to `pos` knows about an id. */
  ghost predicate BackKnows(ms: seq<Meas>, pos: nat, q: Query, timePoint: U64, id: U64, acc: map<U64, Meas>)
    requires AllEightBytes(ms)
  {
    if id in acc then
      exists top: nat, k: nat ::
        MetFirst(ms, pos, q, timePoint, id, top) && LatestDown(ms, pos, timePoint, id, top, k)
        && acc[id] == AsRead(ms[k])
    else forall j :: pos <= j < |ms| && Earlier(ms[j], id, timePoint) ==> !BackPass(q, ms[j])
  }

  lemma {:induction false} BackStepKnows(ms: seq<Meas>, pos: nat, q: Query, timePoint: U64, id: U64,
                                         acc: map<U64, Meas>)
    requires AllEightBytes(ms) && pos < |ms| && BackKnows(ms, pos + 1, q, timePoint, id, acc)
    ensures BackKnows(ms, pos, q, timePoint, id, BackStep(acc, AsRead(ms[pos]), q, timePoint))
  {
    var acc' := BackStep(acc, AsRead(ms[pos]), q, timePoint);
    if id in acc {
      var top: nat, k: nat :|
        MetFirst(ms, pos + 1, q, timePoint, id, top) && LatestDown(ms, pos + 1, timePoint, id, top, k)
        && acc[id] == AsRead(ms[k]);
      var k' := if Earlier(ms[pos], id, timePoint) && ms[k].time < ms[pos].time then pos else k;
      assert MetFirst(ms, pos, q, timePoint, id, top) && LatestDown(ms, pos, timePoint, id, top, k');
      assert acc'[id] == AsRead(ms[k']);
    } else if Earlier(ms[pos], id, timePoint) && BackPass(q, ms[pos]) {
      assert MetFirst(ms, pos, q, timePoint, id, pos) && LatestDown(ms, pos, timePoint, id, pos, pos);
    }
  }

  /**
   What the backward scan reports for an id: nothing exactly when no earlier measurement of it passes the
   scan's filter; otherwise the latest one at or below the position where it first meets such a measurement.
   */
  lemma {:induction false} BackFinds(ms: seq<Meas>, pos: nat, q: Query, timePoint: U64, id: U64)
    requires AllEightBytes(ms) && pos <= |ms|
    ensures BackKnows(ms, pos, q, timePoint, id, BackFrom(ms, pos, q, timePoint))
    decreases |ms| - pos
  {
    if pos < |ms| {
      BackFinds(ms, pos + 1, q, timePoint, id);
      BackStepKnows(ms, pos, q, timePoint, id, BackFrom(ms, pos + 1, q, timePoint));
    }
  }

  /** The ids of the result are never among those asked for: the filter of the scan is the wrong way round. */
  lemma {:induction false} AskedIdsAreDropped(ms: seq<Meas>, q: Query, timePoint: U64, id: U64)
    requires AllEightBytes(ms) && q.ids != []
    ensures id in BackFrom(ms, 0, q, timePoint) ==> id !in q.ids
  {
    BackFinds(ms, 0, q, timePoint, id);
  }

  /** An id that is asked for and has an earlier matching measurement is reported if and only if no ids are listed. */
  lemma {:induction false} ReportedIff(ms: seq<Meas>, q: Query, timePoint: U64, j: nat)
    requires AllEightBytes(ms) && j < |ms| && ms[j].time < timePoint && FlagsPass(q, ms[j])
    ensures ms[j].id in BackFrom(ms, 0, q, timePoint) <==> q.ids == []
  {
    BackFinds(ms, 0, q, timePoint, ms[j].id);
    assert Earlier(ms[j], ms[j].id, timePoint);
    if q.ids != [] {
      AskedIdsAreDropped(ms, q, timePoint, ms[j].id);
    }
  }

  /** Asked for id 7 at time 2, the scan of a page that has it at time 1 reports nothing, but it reports id 8. */
  lemma {:induction false} WrongIdReported()
    ensures var q := Query([7], 0, 0, 2, 2);
            var m, other := EMPTY.(id := 7, time := 1, size := 8), EMPTY.(id := 8, time := 1, size := 8);
            && AllEightBytes([m, other]) && FlagsPass(q, m) && !FlagsPass(q, other)
            && 7 !in BackFrom([m, other], 0, q, 2) && 8 in BackFrom([m, other], 0, q, 2)
  {
    var q := Query([7], 0, 0, 2, 2);
    var m, other := EMPTY.(id := 7, time := 1, size := 8), EMPTY.(id := 8, time := 1, size := 8);
    AskedIdsAreDropped([m, other], q, 2, 7);
    BackFinds([m, other], 0, q, 2, 8);
    assert [m, other][1] == other;
  }

  /** backwardRead over the whole page. */
  method BackwardRead(page: Page, q: Query, timePoint: U64) returns (readed: map<U64, Meas>)
    requires page.Sound() && page.contents != []
    ensures AllEightBytes(page.contents) && readed == BackFrom(page.contents, 0, q, timePoint) && ById(readed)
  {
    StoredAreEight(page.raw[..], page.contents);
    readed := map[];
    var pos := page.writePos - 1;
    while true
      invariant 0 <= pos < |page.contents|
      invariant readed == BackFrom(page.contents, pos + 1, q, timePoint) && ById(readed)
      decreases pos
    {
      var r := page.Read(pos);
      var m := r.value;
      if m.time < timePoint {
        if m.id !in readed {
          if BackPass(q, m) {
            readed := readed[m.id := m];
          }
        } else if readed[m.id].time < m.time {
          readed := readed[m.id := m];
        }
      }
      if pos == 0 {
        break;
      }
      pos := pos - 1;
    }
  }

  /** The values of the previous page's window that pass and whose id is not among `sub`. */
  function PrevOutside(q: Query, prev: seq<Meas>, sub: seq<Meas>): seq<Meas> {
    if prev == [] then []
    else
      var m := prev[|prev| - 1];
      PrevOutside(q, prev[..|prev| - 1], sub) +
      if m.time != 0 && (forall i :: 0 <= i < |sub| ==> sub[i].id != m.id) && FlagsPass(q, m) then [m] else []
  }

  /** Which values of the previous window have a time, an id that is not among `sub`, and pass. */
  function OutsideMarks(q: Query, prev: seq<Meas>, sub: seq<Meas>): (r: seq<bool>)
    ensures |r| == |prev|
  {
    seq(|prev|, i requires 0 <= i < |prev| => prev[i].time != 0 && prev[i].id !in Ids(sub) && FlagsPass(q, prev[i]))
  }

  /** They precede an answer exactly, in the order of the window. */
  lemma {:induction false} PrevOutsideIs(q: Query, prev: seq<Meas>, sub: seq<Meas>)
    ensures Filtered(prev, OutsideMarks(q, prev, sub), PrevOutside(q, prev, sub))
  {
    if prev == [] {
      FilteredNone<Meas>();
    } else {
      var k := |prev| - 1;
      PrevOutsideIs(q, prev[..k], sub);
      assert OutsideMarks(q, prev, sub)[..k] == OutsideMarks(q, prev[..k], sub);
      FilteredLast(prev, OutsideMarks(q, prev, sub), PrevOutside(q, prev[..k], sub), PrevOutside(q, prev, sub));
    }
  }

  method CollectOutside(q: Query, prev: seq<Meas>, sub: seq<Meas>) returns (out: seq<Meas>)
    ensures out == PrevOutside(q, prev, sub)
  {
    out := [];
    for i := 0 to |prev|
      invariant out == PrevOutside(q, prev[..i], sub)
    {
      assert prev[..i + 1][..i] == prev[..i];
      if prev[i].time == 0 {
        continue;
      }
      var known := false;
      for k := 0 to |sub|
        invariant known <==> exists j :: 0 <= j < k && sub[j].id == prev[i].id
      {
        if sub[k].id == prev[i].id {
          known := true;
          break;
        }
      }
      if !known && FlagsPass(q, prev[i]) {
        out := out + [prev[i]];
      }
    }
    assert prev[..|prev|] == prev;
  }

  lemma {:induction false} HasLeast(ids: set<U64>) returns (id: U64)
    requires ids != {}
    ensures id in ids && forall j :: j in ids ==> id <= j
  {
    id :| id in ids;
    if ids != {id} {
      var least := HasLeast(ids - {id});
      assert ids == (ids - {id}) + {id};
      id := if least < id then least else id;
    }
  }

  /** Every value is stored under its own id. */
  ghost predicate ById(values: map<U64, Meas>) { forall id :: id in values ==> values[id].id == id }

  /** The values of a std::map that stores each under its own id: all of them, once each, in the order of their ids. */
  method ListValues(values: map<U64, Meas>) returns (list: seq<Meas>)
    requires ById(values)
    ensures forall i, j :: 0 <= i < j < |list| ==> list[i].id < list[j].id
    ensures forall i :: 0 <= i < |list| ==> list[i].id in values && list[i] == values[list[i].id]
    ensures forall id :: id in values ==> values[id] in list
    ensures |list| == |values|
  {
    list := [];
    var left := values.Keys;
    while left != {}
      invariant left <= values.Keys && |list| + |left| == |values|
      invariant forall i, j :: 0 <= i < j < |list| ==> list[i].id < list[j].id
      invariant forall i :: 0 <= i < |list| ==> list[i].id in values && list[i] == values[list[i].id]
      invariant forall i, id :: 0 <= i < |list| && id in left ==> list[i].id < id
      invariant forall id :: id in values && id !in left ==> values[id] in list
      decreases left
    {
      ghost var least := HasLeast(left);
      var id :| id in left && forall j :: j in left ==> id <= j;
      list := list + [values[id]];
      left := left - {id};
    }
  }

  /** What a window reader delivers: every place of the window that passes the flags. */
  function WindowValues(q: Query, window: seq<Meas>): seq<Meas> {
    if window == [] then []
    else
      var m := window[|window| - 1];
      WindowValues(q, window[..|window| - 1]) + if FlagsPass(q, m) then [m] else []
  }

  lemma FlagMark(q: Query, ms: seq<Meas>, i: nat)
    requires i < |ms|
    ensures FlagMarks(q, ms)[i] <==> FlagsPass(q, ms[i])
  {
  }

  lemma {:induction false} FlagMarksPrefix(q: Query, ms: seq<Meas>, k: nat)
    requires k <= |ms|
    ensures FlagMarks(q, ms)[..k] == FlagMarks(q, ms[..k])
  {
    forall i | 0 <= i < k
      ensures FlagMarks(q, ms)[i] <==> FlagMarks(q, ms[..k])[i]
    {
      FlagMark(q, ms, i);
      FlagMark(q, ms[..k], i);
    }
  }

  /** Exactly the places whose flag, source and id are asked for, each once and in order. */
  lemma {:induction false} WindowValuesAre(q: Query, window: seq<Meas>)
    ensures Filtered(window, FlagMarks(q, window), WindowValues(q, window))
  {
    if window == [] {
      FilteredNone<Meas>();
    } else {
      var k := |window| - 1;
      WindowValuesAre(q, window[..k]);
      FlagMarksPrefix(q, window, k);
      FlagMark(q, window, k);
      FilteredLast(window, FlagMarks(q, window), WindowValues(q, window[..k]), WindowValues(q, window));
    }
  }

  lemma {:induction false} AllMarked(q: Query, ms: seq<Meas>)
    requires Unfiltered(q)
    ensures forall i :: 0 <= i < |ms| ==> FlagMarks(q, ms)[i]
  {
    forall i | 0 <= i < |ms|
      ensures FlagMarks(q, ms)[i]
    {
      FlagMark(q, ms, i);
    }
  }

  /** Without filters the whole window. */
  lemma {:induction false} WholeWindow(q: Query, window: seq<Meas>)
    requires Unfiltered(q)
    ensures WindowValues(q, window) == window
  {
    AllMarked(q, window);
    WindowValuesAre(q, window);
    FilteredAll(window, FlagMarks(q, window), WindowValues(q, window));
  }

  lemma {:induction false} Regroup(a: seq<Meas>, b: seq<Meas>, c: seq<Meas>, d: seq<Meas>)
    requires b + c == d
    ensures a + b + c == a + d
  {
  }

  class PageReaderInterval {
    const page: Page
    const query: Query
    const readSize: nat
    const isWindowReader: bool
    const prevWindow: seq<Meas>
    /** What backwardRead finds through the index when the interval starts inside the page. */
    const earlier: seq<Meas>
    var list: seq<Span>
    var curBegin: nat
    var curEnd: nat
    var windowEnd: bool
    var pointDone: bool

    ghost predicate PageOk()
      reads page, page.raw
    {
      page.Sound() && page.times.Range? && Bounds(page.times, page.contents) && AllEightBytes(page.contents)
    }

    ghost predicate Valid()
      reads this`list, this`curBegin, this`curEnd, page, page.raw
    {
      && PageOk() && readSize >= 1
      && (isWindowReader <==> query.from > page.times.max)
      && curBegin <= curEnd <= |page.contents| && SpansIn(list, |page.contents|)
    }

    constructor (page: Page, query: Query, readSize: nat, isWindowReader: bool, prevWindow: seq<Meas>,
                 earlier: seq<Meas>, list: seq<Span>)
      requires page.Sound() && page.times.Range? && Bounds(page.times, page.contents) && readSize >= 1
      requires isWindowReader <==> query.from > page.times.max
      requires SpansIn(list, |page.contents|)
      ensures Valid() && curBegin == curEnd && !windowEnd && !pointDone && this.list == list
      ensures this.page == page && this.query == query && this.isWindowReader == isWindowReader
      ensures this.prevWindow == prevWindow && this.earlier == earlier
    {
      this.page, this.query, this.readSize, this.isWindowReader := page, query, readSize, isWindowReader;
      this.prevWindow, this.earlier, this.list := prevWindow, earlier, list;
      curBegin, curEnd, windowEnd, pointDone := 0, 0, false, false;
      StoredAreEight(page.raw[..], page.contents);
    }

    /** Nothing is left of the ranges. */
    predicate Done() reads this`list, this`curBegin, this`curEnd { list == [] && curBegin == curEnd }

    /** The range the next chunk comes from. */
    ghost function Ahead(): Span
      requires !Done()
      reads this`list, this`curBegin, this`curEnd
    {
      if curBegin == curEnd then list[0] else Span(curBegin, curEnd)
    }

    /** Where that chunk ends. */
    ghost function ChunkEnd(): nat
      requires !Done()
      reads this`list, this`curBegin, this`curEnd
    {
      if Ahead().begin + readSize < Ahead().end then Ahead().begin + readSize else Ahead().end
    }

    /** The ranges behind it. */
    ghost function Behind(): seq<Span>
      requires !Done()
      reads this`list, this`curBegin, this`curEnd
    {
      if curBegin == curEnd then list[1..] else list
    }

    /** What the reader delivers at the start of an interval that starts inside the page. */
    ghost function PointValues(): seq<Meas>
      requires page.times.Range?
      reads page`times
    {
      var sub := if query.from == page.times.min then [] else earlier;
      PrevOutside(query, prevWindow, sub) + sub
    }

    ghost function PointPart(): seq<Meas>
      requires page.times.Range?
      reads this`pointDone, page`times
    {
      if pointDone || query.from < page.times.min then [] else PointValues()
    }

    ghost function RangePart(): seq<Meas>
      requires Valid()
      reads this`list, this`curBegin, this`curEnd, page, page.raw
    {
      MatchingSpan(query, page.contents, curBegin, curEnd) + MatchingSpans(query, page.contents, list)
    }

    /** All that is still to come; it does not depend on the chunk size. */
    ghost function Rest(): seq<Meas>
      requires Valid()
      reads this, page, page.raw
    {
      if isWindowReader then (if windowEnd then [] else WindowValues(query, page.window))
      else if Done() then []
      else PointPart() + RangePart()
    }

    /** What a new reader is going to deliver. */
    lemma {:induction false} AllToCome()
      requires Valid() && curBegin == curEnd && !windowEnd && !pointDone
      ensures Rest() == if isWindowReader then WindowValues(query, page.window)
                        else if list == [] then []
                        else PointOf(query, page.times.min, prevWindow, earlier) +
                             MatchingSpans(query, page.contents, list)
    {
    }

    method IsEnd() returns (b: bool)
      requires Valid()
      ensures b <==> if isWindowReader then windowEnd else Done()
    {
      if isWindowReader {
        return windowEnd;
      }
      b := if |list| == 0 then curBegin == curEnd else false;
    }

    method ReadWindow() returns (out: seq<Meas>)
      requires Valid()
      ensures out == WindowValues(query, page.window)
    {
      out := [];
      var window := page.window;
      for i := 0 to |window|
        invariant out == WindowValues(query, window[..i])
      {
        assert window[..i + 1][..i] == window[..i];
        if FlagsPass(query, window[i]) {
          out := out + [window[i]];
        }
      }
      assert window[..|window|] == window;
    }

    /** timePointRead of the start of the interval, which is not past the page's last time. */
    method TimePointRead() returns (out: seq<Meas>)
      requires Valid()
      ensures out == PointValues()
    {
      var sub;
      if query.from == page.times.min {
        var readed := BackwardRead(page, query, query.from);
        NothingBefore(page.contents, 0, query, query.from);
        sub := ListValues(readed);
      } else {
        sub := earlier;
      }
      out := CollectOutside(query, prevWindow, sub);
      out := out + sub;
    }

    /** The reading of at most `readSize` positions of the current range. */
    method ReadChunk() returns (out: seq<Meas>)
      requires Valid()
      modifies this`curBegin
      ensures Valid() && curBegin == if old(curBegin) + readSize < curEnd then old(curBegin) + readSize else curEnd
      ensures out == MatchingSpan(query, page.contents, old(curBegin), curBegin)
    {
      out := [];
      var begin, end, readTo := curBegin, curEnd, curBegin + readSize;
      var i := begin;
      while i < readTo && i != end
        invariant begin <= i <= end && i <= readTo
        invariant out == MatchingSpan(query, page.contents, begin, i)
      {
        var r := page.Read(i);
        var value := r.value;
        SpanNext(query, page.contents, begin, i);
        if Pass(query, value) {
          out := out + [value];
        }
        i := i + 1;
      }
      curBegin := i;
    }

    /** Takes the next range if the current one is used up. */
    method NextRange()
      requires Valid() && !Done()
      modifies this`list, this`curBegin, this`curEnd
      ensures Valid() && RangePart() == old(RangePart())
      ensures Span(curBegin, curEnd) == old(Ahead()) && list == old(Behind())
    {
      if curBegin == curEnd {
        var pos := list[0];
        list := list[1..];
        curBegin, curEnd := pos.begin, pos.end;
      }
    }

    /** The values before the interval, the first time round. */
    method ReadPoint() returns (out: seq<Meas>)
      requires Valid()
      modifies this`pointDone
      ensures Valid() && RangePart() == old(RangePart()) && Done() == old(Done())
      ensures out == old(PointPart()) && PointPart() == []
    {
      out := [];
      if query.from >= page.times.min && !pointDone {
        out := TimePointRead();
        pointDone := true;
      }
    }

    /** A chunk of the ranges. */
    method ReadRanges() returns (out: seq<Meas>)
      requires Valid() && !Done()
      modifies this`list, this`curBegin, this`curEnd
      ensures Valid() && out + RangePart() == old(RangePart())
      ensures list == old(Behind()) && curBegin == old(ChunkEnd()) && curEnd == old(Ahead()).end
    {
      NextRange();
      ghost var begin, tail := curBegin, MatchingSpans(query, page.contents, list);
      out := ReadChunk();
      SpanSplit(query, page.contents, begin, curBegin, curEnd);
      assert out + (MatchingSpan(query, page.contents, curBegin, curEnd) + tail) ==
             (out + MatchingSpan(query, page.contents, curBegin, curEnd)) + tail;
    }

    lemma {:induction false} PointThenRanges()
      requires Valid() && !isWindowReader && !Done()
      ensures Rest() == PointPart() + RangePart()
    {
    }

    /** Once the point is done, the ranges are all that is left. */
    lemma {:induction false} OnlyRanges()
      requires Valid() && !isWindowReader && PointPart() == []
      ensures Rest() == RangePart()
    {
    }

    /**
     readNext: delivers a beginning of what is to come, from at most `readSize` positions of one range, after the values
     for the interval's start if these are still to come.
     */
    method ReadNext(output: seq<Meas>) returns (out: seq<Meas>)
      requires Valid()
      modifies this
      ensures Valid() && out + Rest() == output + old(Rest())
      ensures !isWindowReader && !old(Done()) ==>
                list == old(Behind()) && curBegin == old(ChunkEnd()) && curEnd == old(Ahead()).end
      ensures isWindowReader ==> windowEnd
    {
      out := output;
      ghost var all := Rest();
      var end := IsEnd();
      if end {
        return;
      }
      if query.from > page.times.max {
        var values := ReadWindow();
        out := out + values;
        windowEnd := true;
        assert all == values && Rest() == [];
        return;
      }
      var values := ReadSome();
      Regroup(output, values, Rest(), all);
      out := out + values;
    }

    method ReadSome() returns (out: seq<Meas>)
      requires Valid() && !Done() && !isWindowReader
      modifies this`pointDone, this`list, this`curBegin, this`curEnd
      ensures Valid() && out + Rest() == old(Rest())
      ensures list == old(Behind()) && curBegin == old(ChunkEnd()) && curEnd == old(Ahead()).end
    {
      PointThenRanges();
      ghost var before := RangePart();
      var values := ReadPoint();
      var chunk := ReadRanges();
      OnlyRanges();
      ghost var after := RangePart();
      Regroup(values, chunk, after, before);
      out := values + chunk;
    }

    /** readAll: it ends, and has delivered all there was to come. */
    method ReadAll(output: seq<Meas>) returns (out: seq<Meas>)
      requires Valid()
      modifies this
      ensures Valid() && out == output + old(Rest())
    {
      out := output;
      var end := IsEnd();
      while !end
        invariant Valid() && out + Rest() == output + old(Rest())
        invariant end <==> if isWindowReader then windowEnd else Done()
        decreases !end && isWindowReader, |list|, curEnd - curBegin
      {
        out := ReadNext(out);
        end := IsEnd();
      }
    }
  }

  // ---- the page query ----

  function SpansOf(recs: seq<IndexRecord>): (r: seq<Span>)
    ensures |r| == |recs| && forall i :: 0 <= i < |r| ==> r[i] == Span(recs[i].pos, recs[i].pos + recs[i].count)
  {
    seq(|recs|, i requires 0 <= i < |recs| => Span(recs[i].pos, recs[i].pos + recs[i].count))
  }

  ghost predicate RecordsIn(recs: seq<IndexRecord>, n: nat) {
    forall i :: 0 <= i < |recs| ==> recs[i].pos + recs[i].count <= n
  }

  /** What comes before the measurements of the interval when that starts inside the page or at its first time. */
  ghost function PointOf(q: Query, min: U64, prev: seq<Meas>, earlier: seq<Meas>): seq<Meas> {
    var sub := if q.from == min then [] else earlier;
    if q.from < min then [] else PrevOutside(q, prev, sub) + sub
  }

  /**
   What precedes the measurements: nothing if the interval starts before the page's first time; else the values of the
   previous window that have a time, pass, and whose id the page itself has no earlier value for, and then these.
   */
  ghost predicate StartValues(q: Query, min: U64, prev: seq<Meas>, earlier: seq<Meas>, point: seq<Meas>) {
    if q.from < min then point == []
    else
      var own := if q.from == min then [] else earlier;
      exists outside :: Filtered(prev, OutsideMarks(q, prev, own), outside) && point == outside + own
  }

  lemma {:induction false} PointOfIs(q: Query, min: U64, prev: seq<Meas>, earlier: seq<Meas>)
    ensures StartValues(q, min, prev, earlier, PointOf(q, min, prev, earlier))
  {
    var own := if q.from == min then [] else earlier;
    PrevOutsideIs(q, prev, own);
  }

  /** What a page that holds `ms` answers; `found` is what its index finds. */
  ghost function Answer(q: Query, ms: seq<Meas>, min: U64, max: U64, window: seq<Meas>, prev: seq<Meas>,
                        earlier: seq<Meas>, found: seq<IndexRecord>): seq<Meas>
    requires AllEightBytes(ms) && RecordsIn(found, |ms|)
  {
    var point := PointOf(q, min, prev, earlier);
    if q.from > max then WindowValues(q, window)
    else if q.from <= min && q.to >= max then point + Matching(q, ms)
    else if found == [] then []
    else point + MatchingSpans(q, ms, SpansOf(found))
  }

  /** readInterval: no reader for an empty page; otherwise one that delivers the answer, whatever the chunk size. */
  method ReadInterval(page: Page, query: Query, readSize: nat, prev: seq<Meas>, earlier: seq<Meas>,
                      found: seq<IndexRecord>) returns (reader: PageReaderInterval?)
    requires page.Sound() && page.TimesOk() && readSize >= 1 && RecordsIn(found, |page.contents|)
    ensures reader == null <==> page.contents == []
    ensures reader != null ==> fresh(reader) && reader.Valid() && reader.page == page
    ensures reader != null ==>
              && reader.Rest() == Answer(query, page.contents, page.times.min, page.times.max, page.window, prev,
                                         earlier, found)
    ensures reader != null && query.from > page.times.max ==>
              Filtered(page.window, FlagMarks(query, page.window), reader.Rest())
  {
    if page.writePos == 0 {
      return null;
    }
    if query.from > page.times.max {
      reader := new PageReaderInterval(page, query, readSize, true, prev, earlier, []);
      reader.AllToCome();
      WindowValuesAre(query, page.window);
      return;
    }
    var list;
    if query.from <= page.times.min && query.to >= page.times.max {
      list := [Span(0, page.writePos)];
      WholePage(query, page.raw[..], page.contents);
    } else {
      list := SpansOf(found);
    }
    reader := new PageReaderInterval(page, query, readSize, false, prev, earlier, list);
    reader.AllToCome();
  }

  lemma {:induction false} WholePage(q: Query, mem: seq<Byte>, ms: seq<Meas>)
    requires AllStored(mem, ms)
    ensures AllEightBytes(ms) && MatchingSpans(q, ms, [Span(0, |ms|)]) == Matching(q, ms)
  {
    StoredAreEight(mem, ms);
    assert ms[0..|ms|] == ms;
    assert [Span(0, |ms|)][1..] == [];
    assert MatchingSpans(q, ms, [Span(0, |ms|)][1..]) == [];
  }
}
