/** Whole runs on a new index: however the records are flushed, lookups report them; and what they report otherwise. */
module IndexRuns {
  import opened Wrappers
  import opened Entries
  import opened TreeShape
  import opened TreeContents
  import opened TreeSize
  import opened NodeArrays
  import opened NodeArena
  import opened BTreeArena
  import opened IndexWalk
  import opened PageIndex

  function Concat(portions: seq<seq<IndexRecord>>): seq<IndexRecord> {
    if portions == [] then [] else Concat(portions[..|portions| - 1]) + portions[|portions| - 1]
  }

  lemma {:induction false} ConcatPrefix(portions: seq<seq<IndexRecord>>, k: nat) returns (rest: seq<IndexRecord>)
    requires k <= |portions|
    ensures Concat(portions) == Concat(portions[..k]) + rest
    decreases |portions| - k
  {
    if k == |portions| {
      rest := [];
      assert portions[..k] == portions;
    } else {
      rest := ConcatPrefix(portions, k + 1);
      assert portions[..k + 1][..k] == portions[..k];
      rest := portions[k] + rest;
    }
  }

  lemma {:induction false} KeyedConcat(a: seq<IndexRecord>, b: seq<IndexRecord>)
    ensures Keyed(a + b) == Keyed(a) + Keyed(b)
  {
  }

  lemma {:induction false} NewKeysSplit(a: seq<Entry>, b: seq<Entry>, c: seq<Entry>)
    requires NewKeys([], a + b + c)
    ensures NewKeys([], a) && NewKeys([], b) && forall i :: 0 <= i < |b| ==> !HasKey(a, b[i].key)
  {
    var all := a + b + c;
    assert forall i :: 0 <= i < |a| ==> a[i] == all[i];
    assert forall i :: 0 <= i < |b| ==> b[i] == all[|a| + i];
  }

  /** The next portion still is new to a tree that took the ones before. */
  lemma {:induction false} NextPortion(done: seq<IndexRecord>, next: seq<IndexRecord>, rest: seq<IndexRecord>)
    requires NewKeys([], Keyed(done + next + rest))
    ensures NewKeys(InsertAllSorted([], Keyed(done)), Keyed(next))
    ensures InsertAllSorted(InsertAllSorted([], Keyed(done)), Keyed(next)) == InsertAllSorted([], Keyed(done + next))
    ensures |InsertAllSorted([], Keyed(done))| == |done|
  {
    KeyedConcat(done, next);
    KeyedConcat(done + next, rest);
    NewKeysSplit(Keyed(done), Keyed(next), Keyed(rest));
    InsertAllSortedMeaning([], Keyed(done));
    InsertAllSortedConcat([], Keyed(done), Keyed(next));
    InsertAllSize([], Keyed(done));
  }

  /** A new index file: header and arena describe the empty tree. */
  method NewIndex(data: seq<Node>, n: nat) returns (rootPos: nat, cachePos: nat, ghost u: Tree)
    requires n >= 2 && Separate(data, n) && AllSized(data) && |data| >= 2 && Views(data) == seq(|data|, x => BLANK)
    modifies Foot(data)
    ensures AllSized(data) && Views(data) == ArenaOf(u.slots, |data|)
    ensures rootPos == u.root && cachePos == |u.slots| <= |data| && Inv(u, n, 0) && Counted(u) && Contents(u) == []
  {
    InitCache(data, n);
    rootPos, cachePos, u := 1, 2, EmptyTree();
    EmptyTreeInv(n);
    EmptyTreeCounted();
  }

  /** A flush of each portion into a tree rebuilt from the header, on a new index file. */
  method FlushAll(data: seq<Node>, n: nat, portions: seq<seq<IndexRecord>>, ghost total: nat)
    returns (rootPos: nat, cachePos: nat, ghost u: Tree)
    requires n >= 2 && Separate(data, n) && AllSized(data) && |data| >= 2 && Views(data) == seq(|data|, x => BLANK)
    requires NewKeys([], Keyed(Concat(portions))) && total == |Concat(portions)| && SlotsFor(total, n) <= |data|
    modifies Foot(data)
    ensures AllSized(data) && Views(data) == ArenaOf(u.slots, |data|)
    ensures rootPos == u.root && cachePos == |u.slots| <= |data| && Inv(u, n, 0) && Counted(u)
    ensures Contents(u) == InsertAllSorted([], Keyed(Concat(portions)))
  {
    rootPos, cachePos, u := NewIndex(data, n);
    assert Keyed(Concat(portions[..0])) == [];
    rootPos, cachePos, u := FlushFrom(data, n, rootPos, cachePos, portions, 0, u, total);
  }

  /** The flushes from portion `k` on. */
  method FlushFrom(data: seq<Node>, n: nat, root0: nat, pos0: nat, portions: seq<seq<IndexRecord>>, k: nat,
                   ghost u0: Tree, ghost total: nat) returns (rootPos: nat, cachePos: nat, ghost u: Tree)
    requires Separate(data, n) && AllSized(data) && Views(data) == ArenaOf(u0.slots, |data|)
    requires root0 == u0.root && pos0 == |u0.slots| <= |data| && Inv(u0, n, 0) && Counted(u0)
    requires k <= |portions| && Contents(u0) == InsertAllSorted([], Keyed(Concat(portions[..k])))
    requires NewKeys([], Keyed(Concat(portions))) && total == |Concat(portions)| && SlotsFor(total, n) <= |data|
    modifies Foot(data)
    ensures AllSized(data) && Views(data) == ArenaOf(u.slots, |data|)
    ensures rootPos == u.root && cachePos == |u.slots| <= |data| && Inv(u, n, 0) && Counted(u)
    ensures Contents(u) == InsertAllSorted([], Keyed(Concat(portions)))
    decreases |portions| - k
  {
    if k == |portions| {
      assert portions[..k] == portions;
      return root0, pos0, u0;
    }
    rootPos, cachePos, u := FlushNext(data, n, root0, pos0, portions, k, u0, total);
    rootPos, cachePos, u := FlushFrom(data, n, rootPos, cachePos, portions, k + 1, u, total);
  }

  method FlushNext(data: seq<Node>, n: nat, root0: nat, pos0: nat, portions: seq<seq<IndexRecord>>, k: nat,
                   ghost u0: Tree, ghost total: nat) returns (rootPos: nat, cachePos: nat, ghost u: Tree)
    requires Separate(data, n) && AllSized(data) && Views(data) == ArenaOf(u0.slots, |data|)
    requires root0 == u0.root && pos0 == |u0.slots| <= |data| && Inv(u0, n, 0) && Counted(u0)
    requires k < |portions| && Contents(u0) == InsertAllSorted([], Keyed(Concat(portions[..k])))
    requires NewKeys([], Keyed(Concat(portions))) && total == |Concat(portions)| && SlotsFor(total, n) <= |data|
    modifies Foot(data)
    ensures AllSized(data) && Views(data) == ArenaOf(u.slots, |data|)
    ensures rootPos == u.root && cachePos == |u.slots| <= |data| && Inv(u, n, 0) && Counted(u)
    ensures Contents(u) == InsertAllSorted([], Keyed(Concat(portions[..k + 1])))
  {
    ghost var sum := PortionFits(portions, k, n, total);
    rootPos, cachePos, u := Rebuild(data, n, root0, pos0, portions[k], u0, sum);
  }

  /** The next portion is new to the ones before, and there is room for it. */
  lemma {:induction false} PortionFits(portions: seq<seq<IndexRecord>>, k: nat, n: nat, total: nat) returns (sum: nat)
    requires n >= 2 && k < |portions| && NewKeys([], Keyed(Concat(portions))) && total == |Concat(portions)|
    ensures var before := InsertAllSorted([], Keyed(Concat(portions[..k])));
            && sum == |before| + |portions[k]| && SlotsFor(sum, n) <= SlotsFor(total, n)
            && NewKeys(before, Keyed(portions[k]))
            && InsertAllSorted(before, Keyed(portions[k])) == InsertAllSorted([], Keyed(Concat(portions[..k + 1])))
  {
    var done, next := Concat(portions[..k]), portions[k];
    var rest := ConcatPrefix(portions, k + 1);
    assert portions[..k + 1][..k] == portions[..k];
    NextPortion(done, next, rest);
    sum := |done| + |next|;
    SlotsForMonotone(sum, total, n);
  }

  /**
   After any run of distinct first times, flushed in any portions, a lookup in a tree rebuilt from the
   header reports for every first time the record written for it.
   */
  method FlushAllThenFind(data: seq<Node>, n: nat, portions: seq<seq<IndexRecord>>, key: int, ghost total: nat)
    returns (res: Option<IndexRecord>)
    requires n >= 2 && Separate(data, n) && AllSized(data) && |data| >= 2 && Views(data) == seq(|data|, x => BLANK)
    requires NewKeys([], Keyed(Concat(portions))) && total == |Concat(portions)| && SlotsFor(total, n) <= |data|
    modifies Foot(data)
    ensures forall i :: 0 <= i < |Concat(portions)| && Concat(portions)[i].minTime == key ==>
              res == Some(Concat(portions)[i])
    ensures res.Some? ==> res.value in Concat(portions) && key <= res.value.minTime
  {
    var rootPos, cachePos;
    ghost var u;
    rootPos, cachePos, u := FlushAll(data, n, portions, total);
    var tree := new BTree(data, n, rootPos, cachePos, u);
    res := tree.Find(key);
    FoundInRun(Concat(portions), key, res);
  }

  lemma {:induction false} FoundInRun(recs: seq<IndexRecord>, key: int, res: Option<IndexRecord>)
    requires NewKeys([], Keyed(recs)) && FindsIn(InsertAllSorted([], Keyed(recs)), key, res)
    ensures forall i :: 0 <= i < |recs| && recs[i].minTime == key ==> res == Some(recs[i])
    ensures res.Some? ==> res.value in recs && key <= res.value.minTime
  {
    forall i | 0 <= i < |recs| && recs[i].minTime == key
      ensures res == Some(recs[i])
    {
      StoredIsFound(recs, i, res);
    }
    if res.Some? {
      var es := InsertAllSorted([], Keyed(recs));
      var e :| IsCeiling(es, key, e) && res.value == e.val;
      InsertAllSortedMeaning([], Keyed(recs));
      assert e in multiset(es);
      assert e in multiset(Keyed(recs));
    }
  }

  // ---- runs through the buffer ----

  /** How many records tree and buffer hold. */
  lemma {:induction false} AllSize(index: Index)
    requires index.Valid()
    ensures |index.All()| == |Contents(index.t)| + index.bufferPos
  {
    InsertAllSize(Contents(index.t), Keyed(index.cache[..index.bufferPos]));
  }

  /** Record number `i` of a run is new to the records before, and there is room. */
  lemma {:induction false} NextRecord(recs: seq<IndexRecord>, i: nat, n: nat, size: nat)
    requires n >= 2 && i < |recs| && NewKeys([], Keyed(recs)) && SlotsFor(|recs|, n) <= size
    ensures !HasKey(InsertAllSorted([], Keyed(recs[..i])), recs[i].minTime) && SlotsFor(i, n) <= size
    ensures InsertAllSorted([], Keyed(recs[..i + 1])) ==
            InsertSorted(InsertAllSorted([], Keyed(recs[..i])), EntryOf(recs[i]))
    ensures |InsertAllSorted([], Keyed(recs[..i]))| == i
  {
    NextIsNew([], recs, i, n, |recs|, size);
    KeyedStep([], recs, i);
    InsertAllSize([], Keyed(recs[..i]));
    SlotsForMonotone(i, |recs|, n);
  }

  method WriteNext(index: Index, rec: IndexRecord, ghost before: seq<Entry>)
    requires index.Valid() && index.All() == before && !HasKey(before, rec.minTime)
    requires SlotsFor(|before|, index.n) <= |index.data|
    modifies index, Foot(index.data)
    ensures index.Valid() && index.All() == InsertSorted(before, EntryOf(rec))
  {
    AllSize(index);
    index.WriteIndexRec(rec, |before|);
  }

  /** Records written one by one, flushed whenever the buffer is full: the index holds exactly them, in key order. */
  method WriteRun(index: Index, recs: seq<IndexRecord>)
    requires index.Valid() && index.All() == [] && NewKeys([], Keyed(recs)) && SlotsFor(|recs|, index.n) <= |index.data|
    modifies index, Foot(index.data)
    ensures index.Valid() && index.All() == InsertAllSorted([], Keyed(recs))
  {
    assert recs[..|recs|] == recs && Keyed(recs[..0]) == [];
    for i := 0 to |recs|
      invariant index.Valid() && index.All() == InsertAllSorted([], Keyed(recs[..i]))
    {
      NextRecord(recs, i, index.n, |index.data|);
      WriteNext(index, recs[i], InsertAllSorted([], Keyed(recs[..i])));
    }
  }

  // ---- keys that are not stored ----

  /** A key has one responsible leaf. */
  lemma {:induction false} SameLeaf(t: Tree, n: nat, a: nat, b: nat, key: int)
    requires Inv(t, n, 0) && HoldsKey(t, a, key) && HoldsKey(t, b, key)
    ensures a == b
  {
    StartBeforeStop(t, n, a, b, key, key);
    StartBeforeStop(t, n, b, a, key, key);
  }

  /** A lookup reports a key that is not stored as missing if and only if its leaf holds no larger key. */
  lemma {:induction false} MissIff(t: Tree, n: nat, a: nat, key: int, res: Option<IndexRecord>)
    requires Inv(t, n, 0) && HoldsKey(t, a, key) && !HasKey(Contents(t), key) && Finds(t, key, res)
    ensures res == None <==> AllBelow(t.slots[t.leaves[a]].vals, key)
    ensures res.Some? ==> exists e :: IsCeiling(Contents(t), key, e) && e.key > key && res.value == e.val
  {
    var b: nat :| HoldsKey(t, b, key) && (res.None? <==> AllBelow(t.slots[t.leaves[b]].vals, key));
    SameLeaf(t, n, a, b, key);
    if res.Some? {
      var e :| IsCeiling(Contents(t), key, e) && res.value == e.val;
      assert e.key != key;
    }
  }

  /** The tree after two inserts, of the keys 1 and 5. */
  ghost function OneLeaf(one: IndexRecord, five: IndexRecord): Tree {
    Tree([Slot([], [], false, 0, 0, Open, Open, 0),
          Slot([Entry(1, one), Entry(5, five)], [], true, 0, 0, Open, Open, 0)], 1, [1])
  }

  /** Asked for the key 3, a lookup in that tree reports the value of the key 5. */
  lemma {:induction false} AbsentKeyAnswered(one: IndexRecord, five: IndexRecord, res: Option<IndexRecord>)
    ensures var t := OneLeaf(one, five);
            && Inv(t, 2, 0) && !HasKey(Contents(t), 3)
            && (Finds(t, 3, res) <==> res == Some(five))
  {
    var t := OneLeaf(one, five);
    var vs := t.slots[1].vals;
    assert t.leaves[0] == 1;
    EntriesOne(t.slots, 1);
    assert Contents(t) == vs;
    assert HoldsKey(t, 0, 3);
    assert vs[0].key == 1 && vs[1].key == 5;
    assert vs[..1] == [vs[0]];
    if res == Some(five) {
      AnswerFinds(t, 2, 0, 3, res);
    }
    if Finds(t, 3, res) {
      MissIff(t, 2, 0, 3, res);
    }
  }
}
