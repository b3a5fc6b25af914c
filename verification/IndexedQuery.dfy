/** From the index to the answer: the ranges a lookup returns make the reader read every position asked for, once. */
module IndexedQuery {
  import opened Measurements
  import opened Entries
  import opened TreeShape
  import opened TreeContents
  import opened IndexWalk
  import opened PageIndex
  import opened PageAppend
  import opened PageReaders
  import opened Picking

  // ---- sums over entries do not depend on their order ----

  ghost function Sum(f: Entry -> nat, es: seq<Entry>): nat {
    if es == [] then 0 else Sum(f, es[..|es| - 1]) + f(es[|es| - 1])
  }

  lemma {:induction false} SumConcat(f: Entry -> nat, a: seq<Entry>, b: seq<Entry>)
    ensures Sum(f, a + b) == Sum(f, a) + Sum(f, b)
  {
    if b == [] {
      assert a + b == a;
    } else {
      assert (a + b)[..|a + b| - 1] == a + b[..|b| - 1];
      SumConcat(f, a, b[..|b| - 1]);
    }
  }

  /** Taking out the entry at place `k`. */
  lemma {:induction false} SumWithout(f: Entry -> nat, es: seq<Entry>, k: nat, rest: seq<Entry>)
    requires k < |es| && rest == es[..k] + es[k + 1..]
    ensures Sum(f, es) == Sum(f, rest) + f(es[k]) && multiset(es) == multiset(rest) + multiset{es[k]}
  {
    var a, b := es[..k], es[k + 1..];
    assert es[..k + 1][..k] == a;
    assert es == es[..k + 1] + b;
    SumConcat(f, es[..k + 1], b);
    SumConcat(f, a, b);
    assert es == a + [es[k]] + b;
  }

  lemma {:induction false} SumPermuted(f: Entry -> nat, a: seq<Entry>, b: seq<Entry>)
    requires multiset(a) == multiset(b)
    ensures Sum(f, a) == Sum(f, b)
  {
    if a == [] {
      assert |multiset(b)| == 0;
    } else {
      var last := |a| - 1;
      assert a[..last] + a[last + 1..] == a[..last];
      SumWithout(f, a, last, a[..last]);
      assert a[last] in multiset(b);
      var k :| 0 <= k < |b| && b[k] == a[last];
      var rest := b[..k] + b[k + 1..];
      SumWithout(f, b, k, rest);
      assert multiset(a[..last]) == multiset(a) - multiset{a[last]};
      assert multiset(rest) == multiset(b) - multiset{a[last]};
      SumPermuted(f, a[..last], rest);
    }
  }

  // ---- how often a position is listed ----

  ghost function Count(ps: seq<nat>, p: nat): nat {
    if ps == [] then 0 else Count(ps[..|ps| - 1], p) + if ps[|ps| - 1] == p then 1 else 0
  }

  lemma {:induction false} CountConcat(a: seq<nat>, b: seq<nat>, p: nat)
    ensures Count(a + b, p) == Count(a, p) + Count(b, p)
  {
    if b == [] {
      assert a + b == a;
    } else {
      assert (a + b)[..|a + b| - 1] == a + b[..|b| - 1];
      CountConcat(a, b[..|b| - 1], p);
    }
  }

  predicate Covers(rec: IndexRecord, p: nat) { rec.pos <= p < rec.pos + rec.count }

  lemma {:induction false} CountOfRecord(rec: IndexRecord, p: nat)
    ensures Count(Positions(rec), p) == if Covers(rec, p) then 1 else 0
    decreases rec.count
  {
    if rec.count > 0 {
      var less := rec.(count := rec.count - 1);
      CountOfRecord(less, p);
      assert Positions(rec)[..less.count] == Positions(less);
    }
  }

  /** One if the entry's record is selected and covers the position. */
  ghost function Chosen(p: nat, from: int, to: int): Entry -> nat {
    (e: Entry) => if CheckInterval(e.val, from, to) && Covers(e.val, p) then 1 else 0
  }

  lemma {:induction false} SelectedCount(es: seq<Entry>, from: int, to: int, p: nat)
    ensures Count(AllPositions(Selected(es, from, to)), p) == Sum(Chosen(p, from, to), es)
  {
    if es != [] {
      var k := |es| - 1;
      var rec, rest := es[k].val, Selected(es[..k], from, to);
      SelectedCount(es[..k], from, to, p);
      if CheckInterval(rec, from, to) {
        assert (rest + [rec])[..|rest|] == rest;
        CountConcat(AllPositions(rest), Positions(rec), p);
        CountOfRecord(rec, p);
      }
    }
  }

  /** Among the records of a page one covers the position, so it is chosen once or not at all. */
  lemma {:induction false} TilesChoose(recs: seq<IndexRecord>, n: nat, from: int, to: int, p: nat)
    requires Tiles(recs, n)
    ensures Sum(Chosen(p, from, to), Keyed(recs)) <= if p < n then 1 else 0
    ensures p < n && (forall i :: 0 <= i < |recs| && Covers(recs[i], p) ==> CheckInterval(recs[i], from, to)) ==>
              Sum(Chosen(p, from, to), Keyed(recs)) == 1
  {
    if recs == [] {
      assert Keyed(recs) == [];
    } else {
      var k := |recs| - 1;
      assert forall i :: 0 <= i < k ==> recs[..k][i] == recs[i];
      TilesChoose(recs[..k], recs[k].pos, from, to, p);
      assert Keyed(recs)[..k] == Keyed(recs[..k]);
      assert Keyed(recs)[k] == EntryOf(recs[k]);
    }
  }

  // ---- what listed positions contribute ----

  ghost function At<T>(h: nat -> seq<T>, ps: seq<nat>): seq<T> {
    if ps == [] then [] else At(h, ps[..|ps| - 1]) + h(ps[|ps| - 1])
  }

  lemma {:induction false} AtConcat<T>(h: nat -> seq<T>, a: seq<nat>, b: seq<nat>)
    ensures At(h, a + b) == At(h, a) + At(h, b)
  {
    if b == [] {
      assert a + b == a;
    } else {
      assert (a + b)[..|a + b| - 1] == a + b[..|b| - 1];
      AtConcat(h, a, b[..|b| - 1]);
    }
  }

  /** Taking out the position at place `k`. */
  lemma {:induction false} AtWithout<T>(h: nat -> seq<T>, ps: seq<nat>, k: nat, rest: seq<nat>)
    requires k < |ps| && rest == ps[..k] + ps[k + 1..]
    ensures multiset(At(h, ps)) == multiset(At(h, rest)) + multiset(h(ps[k]))
  {
    var a, b := ps[..k], ps[k + 1..];
    assert ps[..k + 1][..k] == a;
    assert ps == ps[..k + 1] + b;
    AtConcat(h, ps[..k + 1], b);
    AtConcat(h, a, b);
    var x, y, z := At(h, a), h(ps[k]), At(h, b);
    assert multiset(x + y + z) == multiset(x) + multiset(y) + multiset(z);
    assert multiset(x + z) == multiset(x) + multiset(z);
  }

  lemma {:induction false} CountWithout(ps: seq<nat>, k: nat, rest: seq<nat>, p: nat)
    requires k < |ps| && rest == ps[..k] + ps[k + 1..]
    ensures Count(ps, p) == Count(rest, p) + if ps[k] == p then 1 else 0
  {
    assert ps[..k + 1][..k] == ps[..k];
    assert ps == ps[..k + 1] + ps[k + 1..];
    CountConcat(ps[..k + 1], ps[k + 1..], p);
    CountConcat(ps[..k], ps[k + 1..], p);
  }

  lemma {:induction false} CountedIsListed(ps: seq<nat>, p: nat)
    requires Count(ps, p) >= 1
    ensures exists k :: 0 <= k < |ps| && ps[k] == p
  {
    var last := |ps| - 1;
    if ps[last] != p {
      CountedIsListed(ps[..last], p);
    }
  }

  /** The same positions in another order, apart from some that contribute nothing, contribute the same. */
  lemma {:induction false} AtPermuted<T>(h: nat -> seq<T>, a: seq<nat>, b: seq<nat>)
    requires forall p: nat :: h(p) != [] ==> Count(a, p) == Count(b, p)
    ensures multiset(At(h, a)) == multiset(At(h, b))
    decreases |a| + |b|
  {
    if a != [] {
      AtPermutedStep(h, a, b);
    } else if b != [] {
      AtPermutedStep(h, b, a);
    }
  }

  lemma {:induction false} AtPermutedStep<T>(h: nat -> seq<T>, a: seq<nat>, b: seq<nat>)
    requires a != [] && forall p: nat :: h(p) != [] ==> Count(a, p) == Count(b, p)
    ensures multiset(At(h, a)) == multiset(At(h, b))
    decreases |a| + |b|, 0
  {
    var last := |a| - 1;
    var x, a' := a[last], a[..last];
    assert a' == a[..last] + a[last + 1..];
    AtWithout(h, a, last, a');
    forall p: nat
      ensures Count(a, p) == Count(a', p) + if x == p then 1 else 0
    {
      CountWithout(a, last, a', p);
    }
    if h(x) == [] {
      AtPermuted(h, a', b);
    } else {
      CountedIsListed(b, x);
      var k :| 0 <= k < |b| && b[k] == x;
      var b' := b[..k] + b[k + 1..];
      AtWithout(h, b, k, b');
      forall p: nat
        ensures Count(b, p) == Count(b', p) + if x == p then 1 else 0
      {
        CountWithout(b, k, b', p);
      }
      AtPermuted(h, a', b');
    }
  }

  // ---- the reader ----

  /** What the position contributes to a query. */
  ghost function Hit(q: Query, ms: seq<Meas>, p: nat): seq<Meas>
    requires AllEightBytes(ms)
  {
    if p < |ms| && Pass(q, ms[p]) then [AsRead(ms[p])] else []
  }

  ghost function Hits(q: Query, ms: seq<Meas>): nat -> seq<Meas>
    requires AllEightBytes(ms)
  {
    (p: nat) => Hit(q, ms, p)
  }

  /** The contributions of listed positions, in the order of the list. */
  ghost function HitsAt(q: Query, ms: seq<Meas>, ps: seq<nat>): seq<Meas>
    requires AllEightBytes(ms)
  {
    At(Hits(q, ms), ps)
  }

  lemma PassMark(q: Query, ms: seq<Meas>, ps: seq<nat>, i: nat)
    requires i < |ps|
    ensures PassMarks(q, ms, ps)[i] <==> ps[i] < |ms| && Pass(q, ms[ps[i]])
  {
  }

  lemma {:induction false} PassMarksPrefix(q: Query, ms: seq<Meas>, ps: seq<nat>, k: nat)
    requires k <= |ps|
    ensures PassMarks(q, ms, ps)[..k] == PassMarks(q, ms, ps[..k])
  {
    forall i | 0 <= i < k
      ensures PassMarks(q, ms, ps)[i] <==> PassMarks(q, ms, ps[..k])[i]
    {
      PassMark(q, ms, ps, i);
      PassMark(q, ms, ps[..k], i);
    }
  }

  /** What one position more adds. */
  lemma {:induction false} ReadOneMore(q: Query, ms: seq<Meas>, ps: seq<nat>, out: seq<Meas>)
    requires AllEightBytes(ms) && ps != [] && ReadsAt(q, ms, ps[..|ps| - 1], out)
    ensures ReadsAt(q, ms, ps, out + Hit(q, ms, ps[|ps| - 1]))
  {
    var k := |ps| - 1;
    var p, more := ps[k], Hit(q, ms, ps[k]);
    var hit: seq<nat> :| Filtered(ps[..k], PassMarks(q, ms, ps[..k]), hit) && ReadFrom(ms, hit, out);
    PassMarksPrefix(q, ms, ps, k);
    PassMark(q, ms, ps, k);
    var hit' := if PassMarks(q, ms, ps)[k] then hit + [p] else hit;
    FilteredLast(ps, PassMarks(q, ms, ps), hit, hit');
    if more != [] {
      AsReadReads(ms[p]);
      ReadFromMore(ms, hit, out, p, AsRead(ms[p]));
    } else {
      assert out + more == out;
    }
  }

  lemma {:induction false} ReadFromMore(ms: seq<Meas>, hit: seq<nat>, out: seq<Meas>, p: nat, m: Meas)
    requires ReadFrom(ms, hit, out) && p < |ms| && ReadsAs(m, ms[p])
    ensures ReadFrom(ms, hit + [p], out + [m])
  {
  }

  /** Reading positions delivers fields and value bytes of what passes there, each once, in the positions' order. */
  lemma {:induction false} HitsRead(q: Query, ms: seq<Meas>, ps: seq<nat>)
    requires AllEightBytes(ms)
    ensures ReadsAt(q, ms, ps, HitsAt(q, ms, ps))
  {
    if ps == [] {
      FilteredNone<nat>();
      assert PassMarks(q, ms, []) == [];
      assert ReadFrom(ms, [], []);
    } else {
      HitsRead(q, ms, ps[..|ps| - 1]);
      ReadOneMore(q, ms, ps, HitsAt(q, ms, ps[..|ps| - 1]));
    }
  }

  lemma {:induction false} LastHit(q: Query, ms: seq<Meas>, rec: IndexRecord, less: IndexRecord)
    requires AllEightBytes(ms) && rec.count > 0 && less == rec.(count := rec.count - 1)
    ensures HitsAt(q, ms, Positions(rec)) == HitsAt(q, ms, Positions(less)) + Hit(q, ms, less.pos + less.count)
  {
    assert Positions(rec)[..less.count] == Positions(less);
  }

  lemma {:induction false} SpanHit(q: Query, ms: seq<Meas>, begin: nat, i: nat)
    requires AllEightBytes(ms) && begin <= i < |ms|
    ensures MatchingSpan(q, ms, begin, i + 1) == MatchingSpan(q, ms, begin, i) + Hit(q, ms, i)
  {
    SpanNext(q, ms, begin, i);
  }

  lemma {:induction false} HitsOfRecord(q: Query, ms: seq<Meas>, rec: IndexRecord)
    requires AllEightBytes(ms) && rec.pos + rec.count <= |ms|
    ensures HitsAt(q, ms, Positions(rec)) == MatchingSpan(q, ms, rec.pos, rec.pos + rec.count)
    decreases rec.count
  {
    if rec.count == 0 {
      assert Positions(rec) == [] && ms[rec.pos..rec.pos] == [];
    } else {
      var less := rec.(count := rec.count - 1);
      var end := less.pos + less.count;
      HitsOfRecord(q, ms, less);
      LastHit(q, ms, rec, less);
      SpanHit(q, ms, rec.pos, end);
      assert end + 1 == rec.pos + rec.count;
    }
  }

  lemma {:induction false} FirstPositions(recs: seq<IndexRecord>)
    requires recs != []
    ensures AllPositions(recs) == Positions(recs[0]) + AllPositions(recs[1..])
  {
    var first := recs[0];
    assert recs == [first] + recs[1..];
    PositionsConcat([first], recs[1..]);
    assert [first][..0] == [];
    assert AllPositions([first]) == AllPositions([first][..0]) + Positions(first);
  }

  lemma {:induction false} FirstRecord(q: Query, ms: seq<Meas>, recs: seq<IndexRecord>)
    requires AllEightBytes(ms) && recs != [] && recs[0].pos + recs[0].count <= |ms|
    ensures HitsAt(q, ms, AllPositions(recs)) ==
            MatchingSpan(q, ms, recs[0].pos, recs[0].pos + recs[0].count) + HitsAt(q, ms, AllPositions(recs[1..]))
  {
    FirstPositions(recs);
    AtConcat(Hits(q, ms), Positions(recs[0]), AllPositions(recs[1..]));
    HitsOfRecord(q, ms, recs[0]);
  }

  lemma {:induction false} SpansTail(recs: seq<IndexRecord>, n: nat)
    requires recs != [] && RecordsIn(recs, n)
    ensures RecordsIn(recs[1..], n) && SpansIn(SpansOf(recs), n) && SpansIn(SpansOf(recs[1..]), n)
    ensures SpansOf(recs)[1..] == SpansOf(recs[1..])
    ensures SpansOf(recs)[0] == Span(recs[0].pos, recs[0].pos + recs[0].count)
  {
  }

  lemma {:induction false} FirstSpan(q: Query, ms: seq<Meas>, recs: seq<IndexRecord>)
    requires AllEightBytes(ms) && RecordsIn(recs, |ms|) && recs != []
    ensures RecordsIn(recs[1..], |ms|)
    ensures MatchingSpans(q, ms, SpansOf(recs)) ==
            MatchingSpan(q, ms, recs[0].pos, recs[0].pos + recs[0].count) + MatchingSpans(q, ms, SpansOf(recs[1..]))
  {
    SpansTail(recs, |ms|);
  }

  /** Reading ranges one after the other is filtering their positions. */
  lemma {:induction false} SpansArePositions(q: Query, ms: seq<Meas>, recs: seq<IndexRecord>)
    requires AllEightBytes(ms) && RecordsIn(recs, |ms|)
    ensures MatchingSpans(q, ms, SpansOf(recs)) == HitsAt(q, ms, AllPositions(recs))
  {
    if recs == [] {
      assert SpansOf(recs) == [];
    } else {
      FirstSpan(q, ms, recs);
      FirstRecord(q, ms, recs);
      SpansArePositions(q, ms, recs[1..]);
    }
  }

  /** A record that covers a measurement of the interval meets the interval. */
  lemma {:induction false} CoveringMeets(recs: seq<IndexRecord>, ms: seq<Meas>, from: int, to: int, p: nat)
    requires Tiles(recs, |ms|) && AllSpan(recs, ms) && p < |ms| && from <= ms[p].time <= to
    ensures forall i :: 0 <= i < |recs| && Covers(recs[i], p) ==> CheckInterval(recs[i], from, to)
  {
    forall i | 0 <= i < |recs| && Covers(recs[i], p)
      ensures CheckInterval(recs[i], from, to)
    {
      assert Spans(recs[i], ms);
      CheckIntervalIsOverlap(recs[i], from, to);
    }
  }

  /** The positions that the records meeting the interval cover: those that pass once, and none twice. */
  lemma {:induction false} EachSelectedOnce(q: Query, ms: seq<Meas>, recs: seq<IndexRecord>, ps: seq<nat>)
    requires Tiles(recs, |ms|) && AllSpan(recs, ms) && NewKeys([], Keyed(recs))
    requires ps == AllPositions(Selected(InsertAllSorted([], Keyed(recs)), q.from, q.to))
    ensures forall p: nat :: Count(ps, p) <= if p < |ms| then 1 else 0
    ensures forall p: nat :: p < |ms| && Pass(q, ms[p]) ==> Count(ps, p) == 1
  {
    var es := InsertAllSorted([], Keyed(recs));
    InsertAllSortedMeaning([], Keyed(recs));
    forall p: nat
      ensures Count(ps, p) <= if p < |ms| then 1 else 0
      ensures p < |ms| && Pass(q, ms[p]) ==> Count(ps, p) == 1
    {
      SelectedCount(es, q.from, q.to, p);
      SumPermuted(Chosen(p, q.from, q.to), es, Keyed(recs));
      TilesChoose(recs, |ms|, q.from, q.to, p);
      if p < |ms| && Pass(q, ms[p]) {
        CoveringMeets(recs, ms, q.from, q.to, p);
      }
    }
  }

  lemma {:induction false} CountOfCovered(recs: seq<IndexRecord>, i: nat, p: nat)
    requires i < |recs| && Covers(recs[i], p)
    ensures Count(AllPositions(recs), p) >= 1
  {
    var k := |recs| - 1;
    CountConcat(AllPositions(recs[..k]), Positions(recs[k]), p);
    CountOfRecord(recs[k], p);
    if i < k {
      CountOfCovered(recs[..k], i, p);
    }
  }

  /** Ranges whose positions lie in the page lie in the page. */
  lemma {:induction false} RangesInPage(found: seq<IndexRecord>, n: nat)
    requires NonEmpty(found) && forall p: nat :: p >= n ==> Count(AllPositions(found), p) == 0
    ensures RecordsIn(found, n)
  {
    forall i | 0 <= i < |found|
      ensures found[i].pos + found[i].count <= n
    {
      CountOfCovered(found, i, found[i].pos + found[i].count - 1);
    }
  }

  /** What the walk finds is part of what a scan of all records finds. */
  lemma {:induction false} FoundIsPart(t: Tree, a: nat, e: nat, from: int, to: int, p: nat)
    requires LeavesInRange(t) && a <= e <= |t.leaves|
    ensures Count(AllPositions(Found(t, a, e, from, to)), p) <= Count(AllPositions(Selected(Contents(t), from, to)), p)
  {
    var l, m, r := t.leaves[..a], t.leaves[a..e], t.leaves[e..];
    assert t.leaves == l + (m + r);
    EntriesConcat(t.slots, m, r);
    EntriesConcat(t.slots, l, m + r);
    var x, y, z := EntriesOf(t.slots, l), EntriesOf(t.slots, m), EntriesOf(t.slots, r);
    SelectedConcat(y, z, from, to);
    SelectedConcat(x, y + z, from, to);
    var sx, sy, sz := Selected(x, from, to), Selected(y, from, to), Selected(z, from, to);
    PositionsConcat(sy, sz);
    PositionsConcat(sx, sy + sz);
    CountConcat(AllPositions(sy), AllPositions(sz), p);
    CountConcat(AllPositions(sx), AllPositions(sy + sz), p);
  }

  /** The index of a page: it holds the page's records, which have separate time spans. */
  ghost predicate IndexOf(t: Tree, ms: seq<Meas>, recs: seq<IndexRecord>) {
    && Tiles(recs, |ms|) && AllSpan(recs, ms) && NewKeys([], Keyed(recs))
    && LeavesInRange(t) && Contents(t) == InsertAllSorted([], Keyed(recs)) && WellTimed(Contents(t))
  }

  /** Whether or not the walk is complete, the ranges it returns lie in the page. */
  lemma {:induction false} FoundInPage(t: Tree, a: nat, b: nat, q: Query, ms: seq<Meas>, recs: seq<IndexRecord>,
                                       found: seq<IndexRecord>)
    requires IndexOf(t, ms, recs) && q.from <= q.to && LookUpSpec(t, a, b, q.from, q.to, found)
    ensures RecordsIn(found, |ms|)
  {
    EachSelectedOnce(q, ms, recs, AllPositions(Selected(Contents(t), q.from, q.to)));
    forall p: nat | p >= |ms|
      ensures Count(AllPositions(found), p) == 0
    {
      FoundIsPart(t, a, WalkEnd(t, a, b, q.from, q.to), q.from, q.to, p);
    }
    RangesInPage(found, |ms|);
  }

  /** The bounds route to one leaf, or nothing before the stop leaf meets the interval. */
  ghost predicate OneLeafEnough(t: Tree, a: nat, b: nat, from: int, to: int)
    requires LeavesInRange(t)
  {
    HoldsKey(t, a, from) && HoldsKey(t, b, to) && (a == b || (a < b && Found(t, a, b, from, to) == []))
  }

  /**
   From the lookup to the reader: if the bounds route to one leaf, or nothing before the stop leaf meets
   the interval, reading the ranges found reads every measurement that passes exactly once and no
   position twice.
   */
  lemma {:induction false} EachReadOnce(t: Tree, a: nat, b: nat, q: Query, ms: seq<Meas>, recs: seq<IndexRecord>,
                                        found: seq<IndexRecord>)
    requires AllEightBytes(ms) && IndexOf(t, ms, recs) && q.from <= q.to
    requires LookUpSpec(t, a, b, q.from, q.to, found) && OneLeafEnough(t, a, b, q.from, q.to)
    ensures RecordsIn(found, |ms|)
    ensures MatchingSpans(q, ms, SpansOf(found)) == HitsAt(q, ms, AllPositions(found))
    ensures forall p: nat :: Count(AllPositions(found), p) <= if p < |ms| then 1 else 0
    ensures forall p: nat :: p < |ms| && Pass(q, ms[p]) ==> Count(AllPositions(found), p) == 1
  {
    EachSelectedOnce(q, ms, recs, AllPositions(found));
    FoundInPage(t, a, b, q, ms, recs, found);
    SpansArePositions(q, ms, found);
  }

  /** All positions of a page, as one record. */
  function WholeRecord(n: nat): IndexRecord { IndexRecord(0, n, 0, 0) }

  /** ... so it delivers exactly the matching measurements of the page, in the order of the index. */
  lemma {:induction false} FoundIsMatching(t: Tree, a: nat, b: nat, q: Query, ms: seq<Meas>, recs: seq<IndexRecord>,
                                           found: seq<IndexRecord>)
    requires AllEightBytes(ms) && IndexOf(t, ms, recs) && q.from <= q.to
    requires LookUpSpec(t, a, b, q.from, q.to, found) && OneLeafEnough(t, a, b, q.from, q.to)
    ensures RecordsIn(found, |ms|)
    ensures multiset(MatchingSpans(q, ms, SpansOf(found))) == multiset(Matching(q, ms))
  {
    EachReadOnce(t, a, b, q, ms, recs, found);
    OnceIsMatching(q, ms, AllPositions(found));
  }

  lemma {:induction false} WholeIsMatching(q: Query, ms: seq<Meas>)
    requires AllEightBytes(ms)
    ensures HitsAt(q, ms, Positions(WholeRecord(|ms|))) == Matching(q, ms)
  {
    HitsOfRecord(q, ms, WholeRecord(|ms|));
    assert ms[0..|ms|] == ms;
  }

  /** The k-th measurement of what matches has the fields and value bytes of the k-th of the page that passes. */
  lemma {:induction false} MatchingReads(q: Query, ms: seq<Meas>)
    requires AllEightBytes(ms)
    ensures ReadsAll(q, ms, Matching(q, ms))
  {
    HitsRead(q, ms, Positions(WholeRecord(|ms|)));
    WholeIsMatching(q, ms);
    assert AllPlaces(|ms|) == Positions(WholeRecord(|ms|));
  }

  /** Reading every position that passes once is reading what matches. */
  lemma {:induction false} OnceIsMatching(q: Query, ms: seq<Meas>, ps: seq<nat>)
    requires AllEightBytes(ms) && forall p: nat :: p < |ms| && Pass(q, ms[p]) ==> Count(ps, p) == 1
    ensures multiset(HitsAt(q, ms, ps)) == multiset(Matching(q, ms))
  {
    var whole, h := Positions(WholeRecord(|ms|)), Hits(q, ms);
    forall p: nat | h(p) != []
      ensures Count(ps, p) == Count(whole, p)
    {
      CountOfRecord(WholeRecord(|ms|), p);
      assert Hit(q, ms, p) == h(p);
    }
    AtPermuted(h, ps, whole);
    WholeIsMatching(q, ms);
  }
}
