/** Selecting index records by time and coalescing the page positions they cover. */
module IndexWalk {
  import opened Entries
  import opened TreeShape
  import opened TreeContents
  import opened TreeChain

  /** Index::checkInterval, with its repeated last test. */
  predicate CheckInterval(rec: IndexRecord, from: int, to: int) {
    || from <= rec.minTime <= to
    || from <= rec.maxTime <= to
    || rec.minTime <= from <= rec.maxTime
    || rec.minTime <= from <= rec.maxTime
  }

  /** The check is the overlap of the two time spans, whenever both are spans. */
  lemma CheckIntervalIsOverlap(rec: IndexRecord, from: int, to: int)
    requires rec.minTime <= rec.maxTime && from <= to
    ensures CheckInterval(rec, from, to) <==> rec.minTime <= to && from <= rec.maxTime
  {
  }

  /** The records of the entries that meet [from, to], in order. */
  function Selected(es: seq<Entry>, from: int, to: int): seq<IndexRecord> {
    if es == [] then []
    else
      var rest := Selected(es[..|es| - 1], from, to);
      var rec := es[|es| - 1].val;
      if CheckInterval(rec, from, to) then rest + [rec] else rest
  }

  lemma {:induction false} SelectedConcat(a: seq<Entry>, b: seq<Entry>, from: int, to: int)
    ensures Selected(a + b, from, to) == Selected(a, from, to) + Selected(b, from, to)
  {
    if b == [] {
      assert a + b == a;
    } else {
      var b' := b[..|b| - 1];
      assert (a + b)[..|a + b| - 1] == a + b';
      SelectedConcat(a, b', from, to);
    }
  }

  lemma {:induction false} SelectedNone(es: seq<Entry>, from: int, to: int)
    ensures Selected(es, from, to) == [] <==>
            forall i :: 0 <= i < |es| ==> !CheckInterval(es[i].val, from, to)
  {
    if es != [] {
      var es' := es[..|es| - 1];
      SelectedNone(es', from, to);
      assert forall i :: 0 <= i < |es'| ==> es'[i] == es[i];
    }
  }

  // ---- page positions ----

  function Positions(rec: IndexRecord): seq<nat> {
    seq(rec.count, i requires 0 <= i => rec.pos + i)
  }

  function AllPositions(recs: seq<IndexRecord>): seq<nat> {
    if recs == [] then [] else AllPositions(recs[..|recs| - 1]) + Positions(recs[|recs| - 1])
  }

  lemma {:induction false} PositionsConcat(a: seq<IndexRecord>, b: seq<IndexRecord>)
    ensures AllPositions(a + b) == AllPositions(a) + AllPositions(b)
  {
    if b == [] {
      assert a + b == a;
    } else {
      var b' := b[..|b| - 1];
      assert (a + b)[..|a + b| - 1] == a + b';
      PositionsConcat(a, b');
    }
  }

  // ---- coalescing ----

  /** A record joins the last range if it continues it, else it starts a new range. */
  function Join(acc: seq<IndexRecord>, rec: IndexRecord): seq<IndexRecord> {
    if acc == [] then [rec]
    else
      var prev := acc[|acc| - 1];
      if prev.pos + prev.count == rec.pos then acc[..|acc| - 1] + [prev.(count := prev.count + rec.count)]
      else acc + [rec]
  }

  function JoinAll(acc: seq<IndexRecord>, recs: seq<IndexRecord>): seq<IndexRecord> {
    if recs == [] then acc else Join(JoinAll(acc, recs[..|recs| - 1]), recs[|recs| - 1])
  }

  /** No two neighbouring ranges could have been one. */
  ghost predicate Coalesced(rs: seq<IndexRecord>) {
    forall i {:trigger ApartAt(rs, i)} :: 0 <= i < |rs| - 1 ==> ApartAt(rs, i)
  }

  ghost predicate ApartAt(rs: seq<IndexRecord>, i: int)
    requires 0 <= i < |rs| - 1
  {
    rs[i].pos + rs[i].count != rs[i + 1].pos
  }

  lemma {:induction false} JoinPositions(acc: seq<IndexRecord>, rec: IndexRecord)
    requires Coalesced(acc)
    ensures AllPositions(Join(acc, rec)) == AllPositions(acc) + Positions(rec)
    ensures Coalesced(Join(acc, rec))
  {
    var r := Join(acc, rec);
    forall i | 0 <= i < |r| - 1
      ensures ApartAt(r, i)
    {
      assert i < |acc| - 1 ==> ApartAt(acc, i);
    }
    if acc == [] {
      assert r[..0] == [];
      assert AllPositions(r[..0]) == [];
    } else {
      var k := |acc| - 1;
      var prev := acc[k];
      if prev.pos + prev.count == rec.pos {
        assert r[..k] == acc[..k];
        assert Positions(prev) + Positions(rec) == Positions(r[k]);
      } else {
        assert r[..|acc|] == acc;
      }
    }
  }

  /** Coalescing neither adds nor loses nor reorders a position, and leaves no neighbours apart. */
  lemma {:induction false} JoinAllPositions(acc: seq<IndexRecord>, recs: seq<IndexRecord>)
    requires Coalesced(acc)
    ensures AllPositions(JoinAll(acc, recs)) == AllPositions(acc) + AllPositions(recs)
    ensures Coalesced(JoinAll(acc, recs))
  {
    if recs != [] {
      var recs', last := recs[..|recs| - 1], recs[|recs| - 1];
      JoinAllPositions(acc, recs');
      JoinPositions(JoinAll(acc, recs'), last);
      assert AllPositions(recs) == AllPositions(recs') + Positions(last);
    }
  }

  lemma {:induction false} JoinAllConcat(acc: seq<IndexRecord>, a: seq<IndexRecord>, b: seq<IndexRecord>)
    ensures JoinAll(acc, a + b) == JoinAll(JoinAll(acc, a), b)
  {
    if b == [] {
      assert a + b == a;
    } else {
      var b' := b[..|b| - 1];
      assert (a + b)[..|a + b| - 1] == a + b';
      JoinAllConcat(acc, a, b');
    }
  }

  lemma {:induction false} JoinAllEmpty(acc: seq<IndexRecord>, recs: seq<IndexRecord>)
    ensures JoinAll(acc, recs) == [] <==> acc == [] && recs == []
  {
    if recs != [] {
      JoinAllEmpty(acc, recs[..|recs| - 1]);
    }
  }

  /** No range is empty. */
  ghost predicate NonEmpty(recs: seq<IndexRecord>) { forall i :: 0 <= i < |recs| ==> recs[i].count >= 1 }

  lemma {:induction false} JoinAllNonEmpty(acc: seq<IndexRecord>, recs: seq<IndexRecord>)
    requires NonEmpty(acc) && NonEmpty(recs)
    ensures NonEmpty(JoinAll(acc, recs))
  {
    if recs != [] {
      JoinAllNonEmpty(acc, recs[..|recs| - 1]);
    }
  }

  lemma {:induction false} SelectedNonEmpty(es: seq<Entry>, from: int, to: int)
    requires forall i :: 0 <= i < |es| ==> es[i].val.count >= 1
    ensures NonEmpty(Selected(es, from, to))
  {
    if es != [] {
      SelectedNonEmpty(es[..|es| - 1], from, to);
    }
  }

  // ---- which leaves the walk visits ----

  /** The records that meet [from, to] in the leaves at places a .. b - 1. */
  ghost function Found(t: Tree, a: nat, b: nat, from: int, to: int): seq<IndexRecord>
    requires LeavesInRange(t) && a <= b <= |t.leaves|
  {
    Selected(EntriesOf(t.slots, t.leaves[a..b]), from, to)
  }

  /**
   The walk starts at the leaf for `from` and ends before the leaf for `to` if it found something by
   then; otherwise it runs to the end of the chain.
   */
  ghost function WalkEnd(t: Tree, a: nat, b: nat, from: int, to: int): nat
    requires LeavesInRange(t) && a < |t.leaves| && b < |t.leaves|
  {
    if a < b && Found(t, a, b, from, to) != [] then b else |t.leaves|
  }

  lemma {:induction false} FoundConcat(t: Tree, n: nat, a: nat, b: nat, c: nat, from: int, to: int)
    requires Inv(t, n, 0) && a <= b <= c <= |t.leaves|
    ensures Found(t, a, c, from, to) == Found(t, a, b, from, to) + Found(t, b, c, from, to)
  {
    assert t.leaves[a..c] == t.leaves[a..b] + t.leaves[b..c];
    EntriesConcat(t.slots, t.leaves[a..b], t.leaves[b..c]);
    SelectedConcat(EntriesOf(t.slots, t.leaves[a..b]), EntriesOf(t.slots, t.leaves[b..c]), from, to);
  }

  lemma {:induction false} FoundOne(t: Tree, n: nat, a: nat, from: int, to: int)
    requires Inv(t, n, 0) && a < |t.leaves|
    ensures Found(t, a, a + 1, from, to) == Selected(t.slots[t.leaves[a]].vals, from, to)
  {
    assert t.leaves[a..a + 1] == [t.leaves[a]];
    EntriesOne(t.slots, t.leaves[a]);
  }

  // ---- when the walk finds everything ----

  /** Records keyed by their first time, none empty, with time spans that do not overlap. */
  ghost predicate WellTimed(es: seq<Entry>) {
    && (forall i :: 0 <= i < |es| ==>
          es[i].key == es[i].val.minTime <= es[i].val.maxTime && es[i].val.count >= 1)
    && (forall i, j :: 0 <= i < j < |es| ==> es[i].val.maxTime < es[j].val.minTime)
  }

  lemma {:induction false} FoundNonEmpty(t: Tree, n: nat, a: nat, b: nat, from: int, to: int)
    requires Inv(t, n, 0) && a <= b <= |t.leaves| && WellTimed(Contents(t))
    ensures NonEmpty(Found(t, a, b, from, to))
  {
    var l, m, r := t.leaves[..a], t.leaves[a..b], t.leaves[b..];
    assert t.leaves == l + (m + r);
    EntriesConcat(t.slots, m, r);
    EntriesConcat(t.slots, l, m + r);
    MiddleNonEmpty(EntriesOf(t.slots, l), EntriesOf(t.slots, m), EntriesOf(t.slots, r), from, to);
  }

  lemma {:induction false} MiddleNonEmpty(l: seq<Entry>, m: seq<Entry>, r: seq<Entry>, from: int, to: int)
    requires WellTimed(l + (m + r))
    ensures NonEmpty(Selected(m, from, to))
  {
    var es := l + (m + r);
    assert forall i :: 0 <= i < |m| ==> m[i] == es[|l| + i];
    SelectedNonEmpty(m, from, to);
  }

  /** No record before the leaf for `from` can meet the interval. */
  lemma {:induction false} NothingBeforeStart(t: Tree, n: nat, a: nat, from: int, to: int)
    requires Inv(t, n, 0) && HoldsKey(t, a, from) && WellTimed(Contents(t))
    ensures Found(t, 0, a, from, to) == []
  {
    assert t.leaves[0..a] == t.leaves[..a];
    if a > 0 {
      LeafFacts(t, n, 0, a);
      ContentsAround(t, n, 0, a);
      var e, v := EntriesOf(t.slots, t.leaves[..a]), t.slots[t.leaves[a]].vals;
      var es := Contents(t);
      assert es[|e|] == v[0];
      assert forall i :: 0 <= i < |e| ==> e[i] == es[i];
      SelectedNone(e, from, to);
    }
  }

  /** A leaf ends where or before a later one starts. */
  lemma {:induction false} LeafGap(t: Tree, n: nat, a: nat, b: nat)
    requires Inv(t, n, 0) && a < b < |t.leaves|
    ensures InTree(t, t.leaves[a]) && InTree(t, t.leaves[b])
    ensures t.slots[t.leaves[a]].hi.At? && t.slots[t.leaves[b]].lo.At?
    ensures t.slots[t.leaves[a]].hi.key <= t.slots[t.leaves[b]].lo.key
  {
    LeafFacts(t, n, 0, a);
    LeafFacts(t, n, 0, a + 1);
    if a + 1 < b {
      LowerBoundsIncrease(t, n, 0, a + 1, b);
    }
  }

  /** The bounds of an interval route to leaves in order. */
  lemma {:induction false} StartBeforeStop(t: Tree, n: nat, a: nat, b: nat, from: int, to: int)
    requires Inv(t, n, 0) && HoldsKey(t, a, from) && HoldsKey(t, b, to) && from <= to
    ensures a <= b
  {
    if b < a {
      LeafGap(t, n, b, a);
    }
  }

  lemma {:induction false} FirstOfStop(t: Tree, n: nat, a: nat, b: nat, from: int, to: int)
    requires Inv(t, n, 0) && HoldsKey(t, a, from) && HoldsKey(t, b, to) && from <= to && a < b
    requires WellTimed(Contents(t))
    ensures var v := t.slots[t.leaves[b]].vals; v != [] && CheckInterval(v[0].val, from, to) && v[0].val.count >= 1
  {
    LeafFacts(t, n, 0, b);
    LeafGap(t, n, a, b);
    ContentsAround(t, n, 0, b);
    assert Contents(t)[|EntriesOf(t.slots, t.leaves[..b])|] == t.slots[t.leaves[b]].vals[0];
  }

  /** If the stop leaf is a later one, its first record meets the interval. */
  lemma {:induction false} StopLeafMeets(t: Tree, n: nat, a: nat, b: nat, from: int, to: int)
    requires Inv(t, n, 0) && HoldsKey(t, a, from) && HoldsKey(t, b, to) && from <= to && a < b
    requires WellTimed(Contents(t))
    ensures AllPositions(Found(t, b, |t.leaves|, from, to)) != []
  {
    var v := t.slots[t.leaves[b]].vals;
    FirstOfStop(t, n, a, b, from, to);
    FoundConcat(t, n, b, b + 1, |t.leaves|, from, to);
    FoundOne(t, n, b, from, to);
    FirstSelected(v, from, to);
    PositionsConcat(Selected(v, from, to), Found(t, b + 1, |t.leaves|, from, to));
  }

  lemma {:induction false} FirstSelected(es: seq<Entry>, from: int, to: int)
    requires es != [] && CheckInterval(es[0].val, from, to) && es[0].val.count >= 1
    ensures AllPositions(Selected(es, from, to)) != []
  {
    assert es == [es[0]] + es[1..];
    SelectedConcat([es[0]], es[1..], from, to);
    assert [es[0]][..0] == [];
    assert Selected([es[0]], from, to) == [es[0].val];
    PositionsConcat([es[0].val], Selected(es[1..], from, to));
    assert [es[0].val][..0] == [];
    assert AllPositions([es[0].val]) == AllPositions([es[0].val][..0]) + Positions(es[0].val);
  }

  /**
   The walk finds exactly the positions a linear scan of all records finds, if and only if both
   bounds route to the same leaf or nothing before the stop leaf meets the interval.
   */
  lemma {:induction false} WalkComplete(t: Tree, n: nat, a: nat, b: nat, from: int, to: int)
    requires Inv(t, n, 0) && HoldsKey(t, a, from) && HoldsKey(t, b, to) && from <= to
    requires WellTimed(Contents(t))
    ensures a <= b
    ensures AllPositions(Found(t, a, WalkEnd(t, a, b, from, to), from, to)) ==
              AllPositions(Selected(Contents(t), from, to))
            <==> (a == b || Found(t, a, b, from, to) == [])
  {
    StartBeforeStop(t, n, a, b, from, to);
    var e, k := WalkEnd(t, a, b, from, to), |t.leaves|;
    NothingBeforeStart(t, n, a, from, to);
    FoundConcat(t, n, 0, a, k, from, to);
    FoundConcat(t, n, a, e, k, from, to);
    assert t.leaves[0..k] == t.leaves;
    var all := Selected(Contents(t), from, to);
    assert all == Found(t, a, k, from, to);
    PositionsConcat(Found(t, a, e, from, to), Found(t, e, k, from, to));
    if e == k {
      assert t.leaves[e..k] == [];
    } else {
      StopLeafMeets(t, n, a, b, from, to);
    }
  }

  /** The first `cut` entries are those with keys below that of the leaf at place `b`. */
  ghost predicate CutBefore(t: Tree, b: nat, cut: nat)
    requires LeavesInRange(t) && b < |t.leaves| && t.leaves[b] < |t.slots|
  {
    && cut < |Contents(t)| && t.slots[t.leaves[b]].vals != []
    && Contents(t)[cut] == t.slots[t.leaves[b]].vals[0]
    && forall i :: 0 <= i < |Contents(t)| ==> (i < cut <==> Contents(t)[i].key < t.slots[t.leaves[b]].vals[0].key)
  }

  lemma {:induction false} CutAtLeaf(t: Tree, n: nat, b: nat) returns (cut: nat)
    requires Inv(t, n, 0) && WellTimed(Contents(t)) && 0 < b < |t.leaves|
    ensures CutBefore(t, b, cut) && Contents(t)[..cut] == EntriesOf(t.slots, t.leaves[..b])
  {
    LeafFacts(t, n, 0, b);
    LeafGap(t, n, 0, b);
    ContentsAround(t, n, 0, b);
    cut := |EntriesOf(t.slots, t.leaves[..b])|;
    var es := Contents(t);
    assert es[cut] == t.slots[t.leaves[b]].vals[0];
    forall i | 0 <= i < |es|
      ensures i < cut <==> es[i].key < es[cut].key
    {
      assert i < cut ==> es[i].val.maxTime < es[cut].val.minTime;
      assert i > cut ==> es[cut].val.maxTime < es[i].val.minTime;
    }
  }

  /**
   What the walk finds when the bounds route to different leaves and something before the stop leaf meets the
   interval: all records that meet it among those with keys below the stop leaf's first key. Otherwise it finds
   all that meet it.
   */
  lemma {:induction false} WalkScans(t: Tree, n: nat, a: nat, b: nat, from: int, to: int) returns (cut: nat)
    requires Inv(t, n, 0) && HoldsKey(t, a, from) && HoldsKey(t, b, to) && from <= to
    requires WellTimed(Contents(t))
    ensures a <= b
    ensures if a == b || Found(t, a, b, from, to) == [] then
              Found(t, a, WalkEnd(t, a, b, from, to), from, to) == Selected(Contents(t), from, to)
            else
              && CutBefore(t, b, cut)
              && Found(t, a, WalkEnd(t, a, b, from, to), from, to) == Selected(Contents(t)[..cut], from, to)
  {
    StartBeforeStop(t, n, a, b, from, to);
    NothingBeforeStart(t, n, a, from, to);
    cut := 0;
    if a == b || Found(t, a, b, from, to) == [] {
      FoundConcat(t, n, 0, a, |t.leaves|, from, to);
      assert t.leaves[0..|t.leaves|] == t.leaves;
    } else {
      cut := CutAtLeaf(t, n, b);
      FoundConcat(t, n, 0, a, b, from, to);
      assert t.leaves[0..b] == t.leaves[..b];
    }
  }

  /** Four one-measurement records at times 0 .. 3 in two leaves of a tree with n = 2. */
  ghost function TwoLeaves(): Tree {
    var e := seq(4, k requires 0 <= k => Entry(k, IndexRecord(k, 1, k, k)));
    Tree([Slot([], [], false, 0, 0, Open, Open, 0),
          Slot([e[0], e[1]], [], true, 3, 2, Open, At(2), 0),
          Slot([e[2], e[3]], [], true, 3, 0, At(2), Open, 0),
          Slot([e[2]], [1, 2], false, 0, 0, Open, Open, 1)], 3, [1, 2])
  }

  lemma {:induction false} TwoLeavesInv()
    ensures Inv(TwoLeaves(), 2, 0)
  {
    var t := TwoLeaves();
    assert t.slots[3].childs[0] == 1 && t.slots[3].childs[1] == 2;
    assert t.leaves[0] == 1 && t.leaves[1] == 2;
    forall i: nat | InTree(t, i)
      ensures SlotOk(t, 2, 0, i)
    {
      assert i == 1 || i == 2 || i == 3;
    }
  }

  lemma {:induction false} TwoLeavesContents()
    ensures var t := TwoLeaves(); Inv(t, 2, 0) && WellTimed(Contents(t))
  {
    var t := TwoLeaves();
    TwoLeavesInv();
    ContentsAround(t, 2, 0, 0);
    assert t.leaves[..0] == [] && t.leaves[1..] == [2];
    EntriesOne(t.slots, 2);
    var es := t.slots[1].vals + t.slots[2].vals;
    assert Contents(t) == es;
    assert WellTimed(es);
  }

  /** The walk can miss records: asked for the times 0 .. 3, it does not look into the second leaf. */
  lemma {:induction false} WalkMissesStopLeaf()
    ensures var t := TwoLeaves();
            && Inv(t, 2, 0) && HoldsKey(t, 0, 0) && HoldsKey(t, 1, 3) && WellTimed(Contents(t))
            && AllPositions(Found(t, 0, WalkEnd(t, 0, 1, 0, 3), 0, 3)) != AllPositions(Selected(Contents(t), 0, 3))
  {
    var t := TwoLeaves();
    TwoLeavesContents();
    FoundOne(t, 2, 0, 0, 3);
    FirstSelected(t.slots[1].vals, 0, 3);
    WalkComplete(t, 2, 0, 1, 0, 3);
  }
}
