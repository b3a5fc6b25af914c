/** A query on one page, from the index lookup to the measurements delivered. */
module PageQuery {
  import opened Measurements
  import opened Entries
  import opened TreeShape
  import opened TreeContents
  import opened TreeSize
  import opened NodeArena
  import opened IndexWalk
  import opened PageIndex
  import opened PageAppend
  import opened PageReaders
  import opened Picking
  import opened IndexedQuery

  lemma {:induction false} NoPositions(recs: seq<IndexRecord>)
    requires NonEmpty(recs)
    ensures AllPositions(recs) == [] <==> recs == []
  {
    if recs != [] {
      assert Positions(recs[|recs| - 1]) != [];
    }
  }

  /** The positions a lookup makes the reader read, when the bounds route to the leaves at places `a` and `b`. */
  ghost function WalkPositions(t: Tree, a: nat, b: nat, from: int, to: int): seq<nat>
    requires LeavesInRange(t) && a < |t.leaves| && b < |t.leaves|
  {
    AllPositions(Found(t, a, WalkEnd(t, a, b, from, to), from, to))
  }

  /**
   The answer for an interval inside the page whose bounds route to the leaves at `a` and `b`: the measurements
   that pass at the positions read, in the order of the index, after the values for the interval's start
   if there is any position to read. When one leaf is enough, these are the positions of all records that
   meet the interval, and what passes there are the matching measurements of the page.
   */
  ghost predicate AnswersFrom(t: Tree, a: nat, b: nat, q: Query, ms: seq<Meas>, point: seq<Meas>, out: seq<Meas>)
    requires LeavesInRange(t) && AllEightBytes(ms) && HoldsKey(t, a, q.from) && HoldsKey(t, b, q.to)
  {
    var ps := WalkPositions(t, a, b, q.from, q.to);
    && out == (if ps == [] then [] else point) + HitsAt(q, ms, ps)
    && (OneLeafEnough(t, a, b, q.from, q.to) ==>
          && ps == AllPositions(Selected(Contents(t), q.from, q.to))
          && multiset(HitsAt(q, ms, ps)) == multiset(Matching(q, ms)))
  }

  /** The answer for an interval inside the page; a key has one responsible leaf, so tree and bounds determine it. */
  ghost predicate InsideAnswer(t: Tree, q: Query, ms: seq<Meas>, point: seq<Meas>, out: seq<Meas>)
    requires LeavesInRange(t) && AllEightBytes(ms)
  {
    exists a: nat, b: nat ::
      && HoldsKey(t, a, q.from) && HoldsKey(t, b, q.to) && AnswersFrom(t, a, b, q, ms, point, out)
      && WalkReads(t, a, b, q, ms)
  }

  /** What the positions read contribute: fields and value bytes of the measurements there that pass. */
  ghost predicate WalkReads(t: Tree, a: nat, b: nat, q: Query, ms: seq<Meas>)
    requires LeavesInRange(t) && AllEightBytes(ms) && HoldsKey(t, a, q.from) && HoldsKey(t, b, q.to)
  {
    var ps := WalkPositions(t, a, b, q.from, q.to);
    ReadsAt(q, ms, ps, HitsAt(q, ms, ps))
  }

  lemma {:induction false} AnswerInside(t: Tree, a: nat, b: nat, q: Query, ms: seq<Meas>, recs: seq<IndexRecord>,
                                        found: seq<IndexRecord>, point: seq<Meas>, out: seq<Meas>)
    requires AllEightBytes(ms) && IndexOf(t, ms, recs) && q.from <= q.to
    requires LookUpSpec(t, a, b, q.from, q.to, found) && RecordsIn(found, |ms|)
    requires out == if found == [] then [] else point + MatchingSpans(q, ms, SpansOf(found))
    ensures HoldsKey(t, a, q.from) && HoldsKey(t, b, q.to) && AnswersFrom(t, a, b, q, ms, point, out)
  {
    NoPositions(found);
    SpansArePositions(q, ms, found);
    if OneLeafEnough(t, a, b, q.from, q.to) {
      FoundIsMatching(t, a, b, q, ms, recs, found);
    }
    if found == [] {
      assert SpansOf(found) == [];
    }
  }

  /** Page and index belong together: the index holds the records the page emitted. */
  ghost predicate Belongs(page: Page, index: Index)
    reads page, page.raw, index, Foot(index.data)
  {
    && page.Valid() && page.TimesOk() && index.Valid()
    && page.raw !in Foot(index.data) && page !in Foot(index.data)
    && HoldsRecords(index.t, index.cache[..index.bufferPos], page.index)
  }

  /** Tree and buffer together hold the records, which have separate time spans. */
  ghost predicate HoldsRecords(t: Tree, buffered: seq<IndexRecord>, recs: seq<IndexRecord>)
    requires LeavesInRange(t)
  {
    var all := InsertAllSorted([], Keyed(recs));
    NewKeys([], Keyed(recs)) && InsertAllSorted(Contents(t), Keyed(buffered)) == all && WellTimed(all)
  }

  /** The lookup of a page query. */
  method AskIndex(page: Page, index: Index, q: Query, ghost total: nat)
    returns (found: seq<IndexRecord>, ghost a: nat, ghost b: nat)
    requires Belongs(page, index) && q.from <= q.to
    requires total == |Contents(index.t)| + index.bufferPos && SlotsFor(total, index.n) <= |index.data|
    modifies index, Foot(index.data)
    ensures Belongs(page, index) && Inv(index.t, index.n, 0) && IndexOf(index.t, page.contents, page.index)
    ensures LookUpSpec(index.t, a, b, q.from, q.to, found) && RecordsIn(found, |page.contents|)
  {
    found := LookUp(page, index, q, total);
    a, b :| LookUpSpec(index.t, a, b, q.from, q.to, found);
    FoundInPage(index.t, a, b, q, page.contents, page.index, found);
  }

  method LookUp(page: Page, index: Index, q: Query, ghost total: nat) returns (found: seq<IndexRecord>)
    requires Belongs(page, index)
    requires total == |Contents(index.t)| + index.bufferPos && SlotsFor(total, index.n) <= |index.data|
    modifies index, Foot(index.data)
    ensures Belongs(page, index) && Contents(index.t) == InsertAllSorted([], Keyed(page.index))
    ensures exists a: nat, b: nat :: LookUpSpec(index.t, a, b, q.from, q.to, found)
  {
    found := index.FindInIndex(q.from, q.to, total);
    assert page.Valid() && page.TimesOk();
  }

  /** The reading of a page query. */
  method ReadPage(page: Page, q: Query, readSize: nat, prev: seq<Meas>, earlier: seq<Meas>, found: seq<IndexRecord>)
    returns (out: seq<Meas>)
    requires page.Sound() && page.TimesOk() && readSize >= 1 && RecordsIn(found, |page.contents|)
    ensures AllEightBytes(page.contents) && (page.contents == [] ==> out == [])
    ensures page.contents != [] ==>
              out == Answer(q, page.contents, page.times.min, page.times.max, page.window, prev, earlier, found)
  {
    StoredAreEight(page.raw[..], page.contents);
    var reader := ReadInterval(page, q, readSize, prev, earlier, found);
    if reader == null {
      return [];
    }
    out := reader.ReadAll([]);
  }

  method ReadBeside(page: Page, ghost index: Index, q: Query, readSize: nat, prev: seq<Meas>, earlier: seq<Meas>,
                    found: seq<IndexRecord>) returns (out: seq<Meas>)
    requires Belongs(page, index) && readSize >= 1 && RecordsIn(found, |page.contents|)
    ensures Belongs(page, index) && index.t == old(index.t)
    ensures AllEightBytes(page.contents) && (page.contents == [] ==> out == [])
    ensures page.contents != [] ==>
              out == Answer(q, page.contents, page.times.min, page.times.max, page.window, prev, earlier, found)
  {
    out := ReadPage(page, q, readSize, prev, earlier, found);
    assert unchanged(Foot(index.data));
  }

  /**
   What a query on a page delivers, in the three cases of readInterval: past the page's end the places of the window
   whose flag, source and id are asked for; over the whole range fields and value bytes of the measurements
   that pass, in write order, after the values for the interval's start; else what the walk reads.
   */
  ghost predicate Delivers(q: Query, ms: seq<Meas>, min: U64, max: U64, window: seq<Meas>, point: seq<Meas>, t: Tree,
                           out: seq<Meas>)
    requires AllEightBytes(ms) && LeavesInRange(t)
  {
    if q.from > max then
      Filtered(window, FlagMarks(q, window), out) && (Unfiltered(q) ==> out == window)
    else if q.from <= min && q.to >= max then
      out == point + Matching(q, ms) && ReadsAll(q, ms, Matching(q, ms))
    else InsideAnswer(t, q, ms, point, out)
  }

  /** The index is not needed: the interval is past the page's end, or the page's times lie in it. */
  predicate WithoutIndex(q: Query, min: U64, max: U64) { q.from > max || (q.from <= min && q.to >= max) }

  /**
   readInterval and readAll: the index is asked, the reader set up and read to its end. A query that needs the index
   has no filters.
   */
  method QueryPage(page: Page, index: Index, q: Query, readSize: nat, prev: seq<Meas>, earlier: seq<Meas>,
                   ghost total: nat) returns (out: seq<Meas>)
    requires Belongs(page, index) && readSize >= 1 && q.from <= q.to
    requires page.contents != [] && !WithoutIndex(q, page.times.min, page.times.max) ==> Unfiltered(q)
    requires total == |Contents(index.t)| + index.bufferPos && SlotsFor(total, index.n) <= |index.data|
    modifies index, Foot(index.data)
    ensures Belongs(page, index) && AllEightBytes(page.contents)
    ensures Inv(index.t, index.n, 0) && IndexOf(index.t, page.contents, page.index)
    ensures page.contents == [] ==> out == []
    ensures page.contents != [] ==>
              StartValues(q, page.times.min, prev, earlier, PointOf(q, page.times.min, prev, earlier))
    ensures page.contents != [] ==>
              Delivers(q, page.contents, page.times.min, page.times.max, page.window,
                       PointOf(q, page.times.min, prev, earlier), index.t, out)
  {
    var found;
    ghost var a, b;
    found, a, b := AskIndex(page, index, q, total);
    StoredAreEight(page.raw[..], page.contents);
    if page.contents != [] {
      PointOfIs(q, page.times.min, prev, earlier);
      AnswerDelivers(index.t, a, b, q, page.contents, page.index, found, page.times.min, page.times.max,
                     page.window, prev, earlier);
    }
    out := ReadBeside(page, index, q, readSize, prev, earlier, found);
  }

  lemma {:induction false} AnswerDelivers(t: Tree, a: nat, b: nat, q: Query, ms: seq<Meas>, recs: seq<IndexRecord>,
                                          found: seq<IndexRecord>, min: U64, max: U64, window: seq<Meas>,
                                          prev: seq<Meas>, earlier: seq<Meas>)
    requires AllEightBytes(ms) && IndexOf(t, ms, recs) && q.from <= q.to
    requires LookUpSpec(t, a, b, q.from, q.to, found) && RecordsIn(found, |ms|)
    ensures Delivers(q, ms, min, max, window, PointOf(q, min, prev, earlier), t,
                     Answer(q, ms, min, max, window, prev, earlier, found))
  {
    if q.from > max {
      WindowValuesAre(q, window);
      if Unfiltered(q) {
        WholeWindow(q, window);
      }
    } else if q.from <= min && q.to >= max {
      MatchingReads(q, ms);
    } else {
      AnswerInside(t, a, b, q, ms, recs, found, PointOf(q, min, prev, earlier),
                   Answer(q, ms, min, max, window, prev, earlier, found));
      HitsRead(q, ms, WalkPositions(t, a, b, q.from, q.to));
      assert WalkReads(t, a, b, q, ms);
    }
  }
}
