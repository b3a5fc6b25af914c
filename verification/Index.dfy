/** The index of a page: a buffer of records in front of a B+ tree kept in an arena. */
module PageIndex {
  import opened Wrappers
  import opened Entries
  import opened TreeShape
  import opened TreeContents
  import opened TreeSize
  import opened NodeArrays
  import opened NodeArena
  import opened BTreeArena
  import opened IndexWalk

  // ---- findInIndex: the walk along the leaf chain ----

  /** The ranges collected so far: the finished ones and the one still growing, if any. */
  function Ranges(result: seq<IndexRecord>, prev: IndexRecord, first: bool): seq<IndexRecord> {
    if first then result else result + [prev]
  }

  /** A matching record continues the growing range or starts a new one. */
  method TakeRecord(rec: IndexRecord, result0: seq<IndexRecord>, prev0: IndexRecord, first0: bool)
    returns (result: seq<IndexRecord>, prev: IndexRecord, first: bool)
    requires first0 ==> result0 == []
    ensures !first && Ranges(result, prev, first) == Join(Ranges(result0, prev0, first0), rec)
  {
    result, prev, first := result0, prev0, first0;
    if !first {
      assert (result0 + [prev0])[..|result0|] == result0;
      if prev.pos + prev.count == rec.pos {
        prev := prev.(count := prev.count + rec.count);
      } else {
        result := result + [prev];
        prev := rec;
      }
    } else {
      first := false;
      prev := rec;
    }
  }

  lemma {:induction false} SelectedStep(vs: seq<Entry>, i: nat, acc: seq<IndexRecord>, from: int, to: int)
    requires i < |vs|
    ensures var sel := Selected(vs[..i], from, to);
            JoinAll(acc, Selected(vs[..i + 1], from, to)) ==
            if CheckInterval(vs[i].val, from, to) then Join(JoinAll(acc, sel), vs[i].val) else JoinAll(acc, sel)
  {
    assert vs[..i + 1][..i] == vs[..i];
    var sel := Selected(vs[..i], from, to);
    assert (sel + [vs[i].val])[..|sel|] == sel;
  }

  /** The loop over the records of one leaf. */
  method ScanLeaf(nd: Node, from: int, to: int, result0: seq<IndexRecord>, prev0: IndexRecord, first0: bool,
                  ghost vs: seq<Entry>, ghost acc: seq<IndexRecord>)
    returns (result: seq<IndexRecord>, prev: IndexRecord, first: bool)
    requires nd.Sized() && nd.View().vals == vs && (first0 ==> result0 == []) && acc == Ranges(result0, prev0, first0)
    ensures first ==> result == []
    ensures Ranges(result, prev, first) == JoinAll(acc, Selected(vs, from, to))
  {
    result, prev, first := result0, prev0, first0;
    assert vs[..0] == [];
    for i := 0 to nd.valsSize
      invariant first ==> result == []
      invariant Ranges(result, prev, first) == JoinAll(acc, Selected(vs[..i], from, to))
    {
      var rec := nd.vals[i].val;
      assert vs[i] == nd.vals[i];
      SelectedStep(vs, i, acc, from, to);
      if CheckInterval(rec, from, to) {
        result, prev, first := TakeRecord(rec, result, prev, first);
      }
    }
    assert vs[..nd.valsSize] == vs;
  }

  /** The node at place `k` of the chain `ls` is linked to the next one. */
  ghost predicate LinkAt(vs: seq<NodeView>, ls: seq<nat>, k: nat)
    requires k < |ls|
  {
    && 0 < ls[k] < |vs| && vs[ls[k]].id == ls[k]
    && (if k + 1 < |ls| then 0 < ls[k + 1] == vs[ls[k]].next else vs[ls[k]].next == 0)
  }

  /** The nodes listed in `ls` are chained by `next` in that order. */
  ghost predicate Linked(vs: seq<NodeView>, ls: seq<nat>) {
    && (forall k: nat {:trigger LinkAt(vs, ls, k)} :: k < |ls| ==> LinkAt(vs, ls, k))
    && (forall k, m :: 0 <= k < m < |ls| ==> ls[k] != ls[m])
    && (forall k :: 0 <= k < |ls| ==> ls[k] < |vs|)
  }

  /** The body of the loop: search a leaf and read its link. */
  method WalkLeaf(cache: seq<Node>, cur: nat, from: int, to: int,
                  result0: seq<IndexRecord>, prev0: IndexRecord, first0: bool,
                  ghost vs: seq<NodeView>, ghost acc: seq<IndexRecord>, ghost acc': seq<IndexRecord>)
    returns (result: seq<IndexRecord>, prev: IndexRecord, first: bool, next: nat)
    requires AllSized(cache) && Views(cache) == vs && cur < |vs|
    requires (first0 ==> result0 == []) && acc == Ranges(result0, prev0, first0)
    requires acc' == JoinAll(acc, Selected(vs[cur].vals, from, to))
    ensures first ==> result == []
    ensures Ranges(result, prev, first) == acc'
    ensures next == vs[cur].next
  {
    assert vs[cur] == cache[cur].View();
    result, prev, first := ScanLeaf(cache[cur], from, to, result0, prev0, first0, vs[cur].vals, acc);
    next := cache[cur].next;
  }

  /** `steps[k]` are the ranges when the nodes before place `k` have been searched. */
  ghost predicate StepAt(steps: seq<seq<IndexRecord>>, vs: seq<NodeView>, ls: seq<nat>, k: nat, from: int, to: int) {
    && k + 1 < |steps| && k < |ls| && ls[k] < |vs|
    && steps[k + 1] == JoinAll(steps[k], Selected(vs[ls[k]].vals, from, to))
  }

  ghost predicate Steps(steps: seq<seq<IndexRecord>>, vs: seq<NodeView>, ls: seq<nat>, a: nat, from: int, to: int) {
    && |steps| == |ls| + 1 && a < |ls| && steps[a] == []
    && forall k: nat {:trigger StepAt(steps, vs, ls, k, from, to)} ::
         a <= k < |ls| ==> StepAt(steps, vs, ls, k, from, to)
  }

  /** The walk from the leaf for `from` along `next`, with the loop test of findInIndex. */
  method Walk(cache: seq<Node>, start: nat, stop: nat, from: int, to: int,
              ghost vs: seq<NodeView>, ghost ls: seq<nat>, ghost a: nat, ghost b: nat,
              ghost steps: seq<seq<IndexRecord>>)
    returns (result: seq<IndexRecord>)
    requires AllSized(cache) && Views(cache) == vs && Linked(vs, ls) && Steps(steps, vs, ls, a, from, to)
    requires a < |ls| && ls[a] == start && b < |ls| && ls[b] == stop
    ensures result == if a < b && steps[b] != [] then steps[b] else steps[|ls|]
  {
    result := [];
    var prev, first := IndexRecord(0, 0, 0, 0), true;
    var cur := start;
    ghost var k := a;
    var more := true;
    SameId(cache, vs, ls, a, b);
    var same := cache[cur].id == cache[stop].id;
    while more && (!same || first)
      invariant a <= k <= |ls| && more == (k < |ls|)
      invariant more ==> ls[k] == cur && (same <==> k == b)
      invariant first ==> result == []
      invariant Ranges(result, prev, first) == steps[k]
      invariant a < b < k ==> steps[b] == []
      decreases |ls| - k
    {
      assert StepAt(steps, vs, ls, k, from, to);
      result, prev, first, cur, same, more :=
        WalkRound(cache, cur, stop, from, to, result, prev, first, vs, ls, k, b, steps[k], steps[k + 1]);
      k := k + 1;
    }
    if !first {
      result := result + [prev];
    }
  }

  /** The body of the loop: search the leaf and step to the next one, if there is one. */
  method WalkRound(cache: seq<Node>, cur0: nat, stop: nat, from: int, to: int,
                   result0: seq<IndexRecord>, prev0: IndexRecord, first0: bool,
                   ghost vs: seq<NodeView>, ghost ls: seq<nat>, ghost k: nat, ghost b: nat,
                   ghost acc: seq<IndexRecord>, ghost acc': seq<IndexRecord>)
    returns (result: seq<IndexRecord>, prev: IndexRecord, first: bool, cur: nat, same: bool, more: bool)
    requires AllSized(cache) && Views(cache) == vs && Linked(vs, ls)
    requires k < |ls| && ls[k] == cur0 && b < |ls| && ls[b] == stop
    requires (first0 ==> result0 == []) && acc == Ranges(result0, prev0, first0)
    requires acc' == JoinAll(acc, Selected(vs[cur0].vals, from, to))
    ensures first ==> result == []
    ensures Ranges(result, prev, first) == acc'
    ensures more == (k + 1 < |ls|)
    ensures more ==> cur == ls[k + 1] && (same <==> k + 1 == b)
  {
    cur, same, more := cur0, false, true;
    var next;
    assert LinkAt(vs, ls, k);
    result, prev, first, next := WalkLeaf(cache, cur, from, to, result0, prev0, first0, vs, acc, acc');
    if next == 0 {
      more := false;
    } else {
      cur := next;
      SameId(cache, vs, ls, k + 1, b);
      same := cache[cur].id == cache[stop].id;
    }
  }

  /** Node numbers tell the nodes of a chain apart. */
  lemma {:induction false} SameId(cache: seq<Node>, vs: seq<NodeView>, ls: seq<nat>, k: nat, b: nat)
    requires AllSized(cache) && Views(cache) == vs && Linked(vs, ls) && k < |ls| && b < |ls|
    ensures ls[k] < |cache| && ls[b] < |cache|
    ensures cache[ls[k]].id == cache[ls[b]].id <==> k == b
  {
    assert LinkAt(vs, ls, k) && LinkAt(vs, ls, b);
    assert vs[ls[k]] == cache[ls[k]].View() && vs[ls[b]] == cache[ls[b]].View();
    assert k < b ==> ls[k] != ls[b];
  }

  /** On the nodes that store a tree, the ranges collected are those of the records found. */
  ghost function FoundSteps(t: Tree, a: nat, from: int, to: int): (r: seq<seq<IndexRecord>>)
    requires LeavesInRange(t) && a <= |t.leaves|
    ensures |r| == |t.leaves| + 1
    ensures forall k :: a <= k <= |t.leaves| ==> r[k] == JoinAll([], Found(t, a, k, from, to))
  {
    seq(|t.leaves| + 1, k requires 0 <= k <= |t.leaves| => if k < a then [] else JoinAll([], Found(t, a, k, from, to)))
  }

  lemma {:induction false} FoundStepsAre(t: Tree, n: nat, a: nat, from: int, to: int, size: nat)
    requires Inv(t, n, 0) && |t.slots| <= size && a < |t.leaves|
    ensures Steps(FoundSteps(t, a, from, to), ArenaOf(t.slots, size), t.leaves, a, from, to)
  {
    var steps := FoundSteps(t, a, from, to);
    FoundNothing(t, a, from, to);
    assert steps[a] == [];
    forall k: nat | a <= k < |t.leaves|
      ensures StepAt(steps, ArenaOf(t.slots, size), t.leaves, k, from, to)
    {
      FoundMore(t, n, a, k, from, to);
    }
  }

  lemma {:induction false} LeavesLinked(t: Tree, n: nat, size: nat)
    requires Inv(t, n, 0) && |t.slots| <= size
    ensures Linked(ArenaOf(t.slots, size), t.leaves)
  {
    var vs := ArenaOf(t.slots, size);
    forall k: nat | k < |t.leaves|
      ensures LinkAt(vs, t.leaves, k)
    {
      LeafFacts(t, n, 0, k);
    }
  }

  /** The walk over a stored tree finds the records of the leaves it visits. */
  method WalkTree(cache: seq<Node>, n: nat, start: nat, stop: nat, from: int, to: int,
                  ghost u: Tree, ghost a: nat, ghost b: nat) returns (result: seq<IndexRecord>)
    requires AllSized(cache) && |u.slots| <= |cache| && Views(cache) == ArenaOf(u.slots, |cache|) && Inv(u, n, 0)
    requires a < |u.leaves| && u.leaves[a] == start && b < |u.leaves| && u.leaves[b] == stop
    ensures result == JoinAll([], Found(u, a, WalkEnd(u, a, b, from, to), from, to))
  {
    LeavesLinked(u, n, |cache|);
    FoundStepsAre(u, n, a, from, to, |cache|);
    result := Walk(cache, start, stop, from, to, ArenaOf(u.slots, |cache|), u.leaves, a, b, FoundSteps(u, a, from, to));
    if a < b {
      JoinAllEmpty([], Found(u, a, b, from, to));
    }
  }

  lemma {:induction false} FoundNothing(t: Tree, a: nat, from: int, to: int)
    requires LeavesInRange(t) && a <= |t.leaves|
    ensures Found(t, a, a, from, to) == []
  {
    assert t.leaves[a..a] == [];
  }

  /** Extending the search by one leaf. */
  lemma {:induction false} FoundMore(t: Tree, n: nat, a: nat, k: nat, from: int, to: int)
    requires Inv(t, n, 0) && a <= k < |t.leaves|
    ensures JoinAll([], Found(t, a, k + 1, from, to)) ==
            JoinAll(JoinAll([], Found(t, a, k, from, to)), Selected(t.slots[t.leaves[k]].vals, from, to))
  {
    FoundConcat(t, n, a, k, k + 1, from, to);
    FoundOne(t, n, k, from, to);
    JoinAllConcat([], Found(t, a, k, from, to), Found(t, k, k + 1, from, to));
  }

  // ---- the buffer in front of the tree ----

  function EntryOf(rec: IndexRecord): Entry { Entry(rec.minTime, rec) }

  /** Records keyed by their first time. */
  function Keyed(recs: seq<IndexRecord>): (r: seq<Entry>)
    ensures |r| == |recs| && forall i :: 0 <= i < |recs| ==> r[i] == EntryOf(recs[i])
  {
    seq(|recs|, i requires 0 <= i < |recs| => EntryOf(recs[i]))
  }

  lemma {:induction false} InsertAllSize(s: seq<Entry>, es: seq<Entry>)
    ensures |InsertAllSorted(s, es)| == |s| + |es|
  {
    if es != [] {
      InsertAllSize(s, es[..|es| - 1]);
      InsertedSize(InsertAllSorted(s, es[..|es| - 1]), es[|es| - 1]);
    }
  }

  lemma {:induction false} KeyedStep(s: seq<Entry>, recs: seq<IndexRecord>, i: nat)
    requires i < |recs|
    ensures InsertAllSorted(s, Keyed(recs[..i + 1])) ==
            InsertSorted(InsertAllSorted(s, Keyed(recs[..i])), EntryOf(recs[i]))
  {
    var es := Keyed(recs[..i + 1]);
    assert es[..i] == Keyed(recs[..i]);
  }

  /** The next buffered record still is new to the tree, and there is room for it. */
  lemma {:induction false} NextIsNew(s: seq<Entry>, recs: seq<IndexRecord>, i: nat, n: nat, total: nat, size: nat)
    requires Ascending(s) && NewKeys(s, Keyed(recs)) && i < |recs|
    requires n >= 2 && total == |s| + |recs| && SlotsFor(total, n) <= size
    ensures !HasKey(InsertAllSorted(s, Keyed(recs[..i])), recs[i].minTime)
    ensures SlotsFor(|InsertAllSorted(s, Keyed(recs[..i + 1]))|, n) <= size
  {
    InsertAllSize(s, Keyed(recs[..i + 1]));
    var es, all := Keyed(recs[..i]), Keyed(recs);
    assert forall k :: 0 <= k < i ==> es[k] == all[k];
    assert all[i] == EntryOf(recs[i]);
    InsertAllSortedMeaning(s, es);
    InsertAllSize(s, es);
    SlotsForMonotone(|InsertAllSorted(s, Keyed(recs[..i + 1]))|, total, n);
  }

  lemma {:induction false} StillNew(s: seq<Entry>, recs: seq<IndexRecord>, rec: IndexRecord)
    requires Ascending(s) && NewKeys(s, Keyed(recs)) && !HasKey(InsertAllSorted(s, Keyed(recs)), rec.minTime)
    ensures NewKeys(s, Keyed(recs + [rec]))
    ensures InsertAllSorted(s, Keyed(recs + [rec])) == InsertSorted(InsertAllSorted(s, Keyed(recs)), EntryOf(rec))
  {
    InsertAllSortedMeaning(s, Keyed(recs));
    KeyedStep(s, recs + [rec], |recs|);
    assert (recs + [rec])[..|recs|] == recs && (recs + [rec])[..|recs| + 1] == recs + [rec];
    var es := Keyed(recs + [rec]);
    assert forall i :: 0 <= i < |recs| ==> es[i] == Keyed(recs)[i];
  }

  /** A lookup in a tree that took the records reports for the first time of each exactly that record. */
  lemma {:induction false} StoredIsFound(recs: seq<IndexRecord>, i: nat, res: Option<IndexRecord>)
    requires NewKeys([], Keyed(recs)) && i < |recs|
    requires FindsIn(InsertAllSorted([], Keyed(recs)), recs[i].minTime, res)
    ensures res == Some(recs[i])
  {
    InsertAllSortedMeaning([], Keyed(recs));
    var e := EntryOf(recs[i]);
    assert Keyed(recs)[i] == e;
    assert e in multiset(Keyed(recs));
    assert e in multiset(InsertAllSorted([], Keyed(recs)));
  }

  /** The loop of flush: all buffered records enter the tree. */
  method InsertAll(tree: BTree, recs: seq<IndexRecord>, ghost u0: Tree, ghost total: nat) returns (ghost u: Tree)
    requires tree.Stores(u0) && Inv(u0, tree.n, 0) && Counted(u0)
    requires Ascending(Contents(u0)) && NewKeys(Contents(u0), Keyed(recs))
    requires total == |Contents(u0)| + |recs| && SlotsFor(total, tree.n) <= |tree.cache|
    modifies tree`root, tree`cachePos, Foot(tree.cache)
    ensures tree.Stores(u) && Inv(u, tree.n, 0) && Counted(u)
    ensures Contents(u) == InsertAllSorted(Contents(u0), Keyed(recs))
  {
    u := u0;
    ghost var s := Contents(u0);
    assert Keyed(recs[..0]) == [];
    for i := 0 to |recs|
      invariant tree.Stores(u) && Inv(u, tree.n, 0) && Counted(u)
      invariant Contents(u) == InsertAllSorted(s, Keyed(recs[..i]))
    {
      NextIsNew(s, recs, i, tree.n, total, |tree.cache|);
      KeyedStep(s, recs, i);
      u := tree.InsertStored(recs[i].minTime, recs[i], u);
    }
    assert recs[..|recs|] == recs;
  }

  /** A tree object over the arena takes the records; what remains of it are root and allocation position. */
  method Rebuild(data: seq<Node>, n: nat, rootPos: nat, cachePos: nat, recs: seq<IndexRecord>,
                 ghost u0: Tree, ghost total: nat) returns (root: nat, pos: nat, ghost u: Tree)
    requires Separate(data, n) && AllSized(data) && Views(data) == ArenaOf(u0.slots, |data|)
    requires rootPos == u0.root && cachePos == |u0.slots| <= |data| && Inv(u0, n, 0) && Counted(u0)
    requires NewKeys(Contents(u0), Keyed(recs))
    requires total == |Contents(u0)| + |recs| && SlotsFor(total, n) <= |data|
    modifies Foot(data)
    ensures AllSized(data) && Views(data) == ArenaOf(u.slots, |data|)
    ensures root == u.root && pos == |u.slots| <= |data| && Inv(u, n, 0) && Counted(u)
    ensures Contents(u) == InsertAllSorted(Contents(u0), Keyed(recs))
  {
    ContentsAscending(u0, n, 0);
    var tree := new BTree(data, n, rootPos, cachePos, u0);
    u := InsertAll(tree, recs, u0, total);
    root, pos := tree.root, tree.cachePos;
  }

  /**
   What a lookup returns: ranges, none empty and no two neighbours, that cover, in order, exactly the positions of the
   records met in the leaves visited; for records with separate time spans that is what a scan over
   all records gives if and only if both bounds route to the same leaf or nothing before the stop
   leaf meets the interval.
   */
  ghost predicate LookUpSpec(t: Tree, a: nat, b: nat, from: int, to: int, result: seq<IndexRecord>)
    requires LeavesInRange(t)
  {
    && HoldsKey(t, a, from) && HoldsKey(t, b, to)
    && Coalesced(result)
    && AllPositions(result) == AllPositions(Found(t, a, WalkEnd(t, a, b, from, to), from, to))
    && (from <= to && WellTimed(Contents(t)) ==>
          && a <= b && NonEmpty(result)
          && (AllPositions(result) == AllPositions(Selected(Contents(t), from, to)) <==>
              (a == b || Found(t, a, b, from, to) == [])))
  }

  lemma {:induction false} WalkMeetsSpec(t: Tree, n: nat, from: int, to: int, a: nat, b: nat)
    requires Inv(t, n, 0) && HoldsKey(t, a, from) && HoldsKey(t, b, to)
    ensures LookUpSpec(t, a, b, from, to, JoinAll([], Found(t, a, WalkEnd(t, a, b, from, to), from, to)))
  {
    var found := Found(t, a, WalkEnd(t, a, b, from, to), from, to);
    JoinAllPositions([], found);
    assert AllPositions([]) + AllPositions(found) == AllPositions(found);
    if from <= to && WellTimed(Contents(t)) {
      WalkComplete(t, n, a, b, from, to);
      FoundNonEmpty(t, n, a, WalkEnd(t, a, b, from, to), from, to);
      JoinAllNonEmpty([], found);
    }
  }

  /** The lookup in the stored tree. */
  method LookUpRange(data: seq<Node>, n: nat, rootPos: nat, cachePos: nat, from: int, to: int, ghost u: Tree)
    returns (result: seq<IndexRecord>)
    requires Separate(data, n) && AllSized(data) && Views(data) == ArenaOf(u.slots, |data|)
    requires rootPos == u.root && cachePos == |u.slots| <= |data| && Inv(u, n, 0) && Counted(u)
    ensures exists a: nat, b: nat :: LookUpSpec(u, a, b, from, to, result)
  {
    var start, stop;
    ghost var a, b;
    start, stop, a, b := Ends(data, n, rootPos, cachePos, from, to, u);
    result := WalkTree(data, n, start, stop, from, to, u, a, b);
    WalkMeetsSpec(u, n, from, to, a, b);
  }

  /** The leaves at which the lookup starts and stops. */
  method Ends(data: seq<Node>, n: nat, rootPos: nat, cachePos: nat, from: int, to: int, ghost u: Tree)
    returns (start: nat, stop: nat, ghost a: nat, ghost b: nat)
    requires Separate(data, n) && AllSized(data) && Views(data) == ArenaOf(u.slots, |data|)
    requires rootPos == u.root && cachePos == |u.slots| <= |data| && Inv(u, n, 0) && Counted(u)
    ensures HoldsKey(u, a, from) && u.leaves[a] == start
    ensures HoldsKey(u, b, to) && u.leaves[b] == stop
  {
    var tree := new BTree(data, n, rootPos, cachePos, u);
    start, a := tree.FindNode(from, u);
    stop, b := tree.FindNode(to, u);
  }

  class Index {
    const n: nat
    const data: seq<Node>
    // header
    var rootPos: nat
    var cachePos: nat
    // buffered records
    var cache: seq<IndexRecord>
    var bufferPos: nat
    ghost var t: Tree

    /** The arena stores the tree `u` and the header says where it is. */
    ghost predicate Stores(u: Tree)
      reads this, Foot(data)
    {
      && Separate(data, n) && AllSized(data) && this !in Foot(data)
      && rootPos == u.root && cachePos == |u.slots| <= |data|
      && Views(data) == ArenaOf(u.slots, |data|)
    }

    ghost predicate Valid()
      reads this, Foot(data)
    {
      && Stores(t) && Inv(t, n, 0) && Counted(t)
      && 0 < |cache| && bufferPos <= |cache|
      && NewKeys(Contents(t), Keyed(cache[..bufferPos]))
    }

    /** All records written so far, in key order: those in the tree and those still in the buffer. */
    ghost function All(): seq<Entry>
      requires Valid()
      reads this, Foot(data)
    {
      InsertAllSorted(Contents(t), Keyed(cache[..bufferPos]))
    }

    /** setFileName: an arena in which a tree was left, by InitCache or by an earlier use, and its header. */
    constructor (data: seq<Node>, n: nat, capacity: nat, rootPos: nat, cachePos: nat, ghost u: Tree)
      requires capacity > 0 && Separate(data, n) && AllSized(data) && Views(data) == ArenaOf(u.slots, |data|)
      requires rootPos == u.root && cachePos == |u.slots| <= |data| && Inv(u, n, 0) && Counted(u)
      ensures Valid() && All() == Contents(u) && this.data == data && this.n == n && |cache| == capacity
    {
      this.n, this.data, this.rootPos, this.cachePos, t := n, data, rootPos, cachePos, u;
      cache, bufferPos := seq(capacity, _ => IndexRecord(0, 0, 0, 0)), 0;
      new;
      assert Keyed(cache[..0]) == [];
    }

    /** flush: the buffered records enter the tree, rebuilt from the header, and the header is brought up to date. */
    method Flush(ghost total: nat)
      requires Valid() && total == |Contents(t)| + bufferPos && SlotsFor(total, n) <= |data|
      modifies this, Foot(data)
      ensures Valid() && bufferPos == 0 && Contents(t) == All() == old(All()) && |cache| == old(|cache|)
    {
      if bufferPos == 0 {
        assert Keyed(cache[..bufferPos]) == [];
        return;
      }
      FlushBuffer(t, total);
      assert Keyed(cache[..bufferPos]) == [];
    }

    method FlushBuffer(ghost u0: Tree, ghost total: nat)
      requires Stores(u0) && Inv(u0, n, 0) && Counted(u0)
      requires 0 < |cache| && bufferPos <= |cache| && NewKeys(Contents(u0), Keyed(cache[..bufferPos]))
      requires total == |Contents(u0)| + bufferPos && SlotsFor(total, n) <= |data|
      modifies this`bufferPos, this`rootPos, this`cachePos, this`t, Foot(data)
      ensures Valid() && bufferPos == 0 && cache == old(cache)
      ensures Contents(t) == InsertAllSorted(Contents(u0), Keyed(old(cache[..bufferPos])))
    {
      ghost var u := FlushToTree(u0, total);
      Remember(u);
    }

    method FlushToTree(ghost u0: Tree, ghost total: nat) returns (ghost u: Tree)
      requires Stores(u0) && Inv(u0, n, 0) && Counted(u0)
      requires bufferPos <= |cache| && NewKeys(Contents(u0), Keyed(cache[..bufferPos]))
      requires total == |Contents(u0)| + bufferPos && SlotsFor(total, n) <= |data|
      modifies this`bufferPos, this`rootPos, this`cachePos, Foot(data)
      ensures Stores(u) && Inv(u, n, 0) && Counted(u) && bufferPos == 0 && cache == old(cache)
      ensures Contents(u) == InsertAllSorted(Contents(u0), Keyed(old(cache[..bufferPos])))
    {
      var root, pos;
      var recs := cache[..bufferPos];
      root, pos, u := Rebuild(data, n, rootPos, cachePos, recs, u0, total);
      SetHeader(root, pos, u);
    }

    method SetHeader(root: nat, pos: nat, ghost u: Tree)
      requires Separate(data, n) && AllSized(data) && this !in Foot(data) && Views(data) == ArenaOf(u.slots, |data|)
      requires root == u.root && pos == |u.slots| <= |data|
      modifies this`bufferPos, this`rootPos, this`cachePos
      ensures Stores(u) && bufferPos == 0 && cache == old(cache)
    {
      bufferPos, rootPos, cachePos := 0, root, pos;
    }

    /** writeIndexRec: whether or not the buffer is flushed for it, the record joins all others in key order. */
    method WriteIndexRec(rec: IndexRecord, ghost total: nat)
      requires Valid() && !HasKey(All(), rec.minTime)
      requires total == |Contents(t)| + bufferPos && SlotsFor(total, n) <= |data|
      modifies this, Foot(data)
      ensures Valid() && All() == InsertSorted(old(All()), EntryOf(rec)) && |cache| == old(|cache|)
    {
      if bufferPos == |cache| {
        Flush(total);
      }
      PutRecord(rec, t);
    }

    method PutRecord(rec: IndexRecord, ghost u: Tree)
      requires Valid() && u == t && bufferPos < |cache|
      requires !HasKey(InsertAllSorted(Contents(u), Keyed(cache[..bufferPos])), rec.minTime)
      modifies this`cache, this`bufferPos
      ensures Valid() && t == u && |cache| == old(|cache|)
      ensures InsertAllSorted(Contents(u), Keyed(cache[..bufferPos])) ==
              InsertSorted(InsertAllSorted(Contents(u), Keyed(old(cache[..bufferPos]))), EntryOf(rec))
    {
      ghost var recs := cache[..bufferPos];
      ContentsAscending(u, n, 0);
      StillNew(Contents(u), recs, rec);
      cache := cache[bufferPos := rec];
      bufferPos := bufferPos + 1;
      assert cache[..bufferPos] == recs + [rec];
    }

    /** findInIndex, unfiltered: flush, then look up. */
    method FindInIndex(from: int, to: int, ghost total: nat) returns (result: seq<IndexRecord>)
      requires Valid() && total == |Contents(t)| + bufferPos && SlotsFor(total, n) <= |data|
      modifies this, Foot(data)
      ensures Valid() && Contents(t) == All() == old(All())
      ensures exists a: nat, b: nat :: LookUpSpec(t, a, b, from, to, result)
    {
      Flush(total);
      result := LookUpNow(from, to);
    }

    method LookUpNow(from: int, to: int) returns (result: seq<IndexRecord>)
      requires Valid() && bufferPos == 0
      ensures Valid() && Contents(t) == All()
      ensures exists a: nat, b: nat :: LookUpSpec(t, a, b, from, to, result)
    {
      assert Keyed(cache[..bufferPos]) == [];
      result := LookUpRange(data, n, rootPos, cachePos, from, to, t);
    }

    ghost method Remember(u: Tree)
      requires Stores(u) && Inv(u, n, 0) && Counted(u) && 0 < |cache| && bufferPos == 0
      modifies this`t
      ensures Valid() && t == u
    {
      t := u;
      assert Keyed(cache[..0]) == [];
    }
  }

  /** init_cache */
  method InitCache(data: seq<Node>, n: nat)
    requires Separate(data, n) && AllSized(data) && |data| >= 2 && Views(data) == seq(|data|, x => BLANK)
    modifies Foot(data)
    ensures AllSized(data) && Views(data) == ArenaOf(EmptyTree().slots, |data|)
  {
    data[1].isLeaf := true;
    data[1].id := 1;
    ghost var goal := ArenaOf(EmptyTree().slots, |data|);
    assert old(Views(data))[1] == BLANK;
    forall x | 0 <= x < |data|
      ensures data[x].View() == goal[x]
    {
      assert old(Views(data))[x] == BLANK;
      if x != 1 {
        Apart(data, n, x, 1);
      }
    }
  }
}
