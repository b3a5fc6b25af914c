/** The B+ tree over a preallocated node arena, as the program runs it. */
module BTreeArena {
  import opened Wrappers
  import opened Entries
  import opened TreeShape
  import opened TreeSteps
  import opened TreeContents
  import opened TreeSize
  import opened NodeArrays
  import opened NodeArena

  // ---- arena contents and tree slots ----

  /** What node number `i` holds when it stores slot `s`. */
  ghost function ViewOf(s: Slot, i: nat): NodeView {
    NodeView(s.vals, s.childs, i, s.isLeaf, s.parent, s.next)
  }

  /** An arena of `size` nodes that stores the slots of a tree; what is not used yet is zeroed. */
  ghost function ArenaOf(slots: seq<Slot>, size: nat): (r: seq<NodeView>)
    ensures |r| == size
    ensures forall x :: 0 <= x < size ==> r[x] == if x < |slots| then ViewOf(slots[x], x) else BLANK
  {
    seq(size, x requires 0 <= x < size => if x < |slots| then ViewOf(slots[x], x) else BLANK)
  }

  /** Node `x` when node `i` has been divided but the new node does not hang below a parent yet. */
  ghost function DividedView(t: Tree, i: nat, x: nat): NodeView
    requires InTree(t, i) && |t.slots[i].vals| > 0 && x <= |t.slots|
  {
    var s, c := t.slots[i], |t.slots|;
    if x == i then ViewOf(LeftHalf(s, c, s.parent), i)
    else if x == c then ViewOf(RightHalf(s, 0), c)
    else if x in Moved(s) then ViewOf(t.slots[x].(parent := c), x)
    else ViewOf(t.slots[x], x)
  }

  ghost function DividedArena(t: Tree, i: nat, size: nat): (r: seq<NodeView>)
    requires InTree(t, i) && |t.slots[i].vals| > 0
    ensures |r| == size
    ensures forall x :: 0 <= x < size ==> r[x] == if x <= |t.slots| then DividedView(t, i, x) else BLANK
  {
    seq(size, x requires 0 <= x < size => if x <= |t.slots| then DividedView(t, i, x) else BLANK)
  }

  lemma {:induction false} DivideArena(t: Tree, n: nat, i: nat, j: nat, a: nat, size: nat)
    requires ReadyToSplit(t, n, i, j, a) && |t.slots| < size && |t.slots[i].vals| > 0
    ensures DivideViews(ArenaOf(t.slots, size), i, |t.slots|) == DividedArena(t, i, size)
  {
    var c := |t.slots|;
    var vs := ArenaOf(t.slots, size);
    var d := DivideViews(vs, i, c);
    var kids := UpperView(vs[i], c).childs;
    assert kids == Moved(t.slots[i]);
    forall x | 0 <= x < size
      ensures d[x] == DividedArena(t, i, size)[x]
    {
      if x in kids {
        MovedFacts(t, n, i, j, a, x);
        KidFacts(t, n, i, j, a, x);
      }
    }
  }

  /** The parent `p` takes separator and child, and the child gets its parent link. */
  ghost function PutViews(vs: seq<NodeView>, p: nat, mid: Entry, c: nat, j: nat): seq<NodeView>
    requires p < |vs| && c < |vs| && j <= |vs[p].vals| && j < |vs[p].childs|
  {
    var w := vs[p := vs[p].(vals := InsertAt(vs[p].vals, j, mid), childs := InsertAt(vs[p].childs, j + 1, c))];
    w[c := w[c].(parent := p)]
  }

  lemma RootViewsOverwrite(vs: seq<NodeView>, q: nat, w: NodeView, mid: Entry, i: nat, c: nat)
    requires q < |vs| && c < |vs| && i < |vs| && q != i && q != c
    ensures RootViews(vs[q := w], q, mid, i, c) == RootViews(vs, q, mid, i, c)
  {
  }

  /** A parent with room, in which the separator belongs at place `j`. */
  ghost predicate CanTake(v: NodeView, n: nat, key: int, j: nat) {
    && |v.vals| < 2 * n && |v.childs| == |v.vals| + 1 && |v.childs| < 2 * n
    && Ascending(v.vals) && j <= |v.vals|
    && AllBelow(v.vals[..j], key) && AllAbove(v.vals[j..], key)
  }

  /** Attached to the old parent, the divided nodes store the slots of the split tree. */
  lemma {:induction false} AttachArena(t: Tree, n: nat, i: nat, j: nat, a: nat, size: nat)
    requires ReadyToSplit(t, n, i, j, a) && i != t.root && |t.slots| < size
    ensures var vs, c, mid := DividedArena(t, i, size), |t.slots|, Middle(t.slots[i]);
            && vs[i].parent == t.slots[i].parent && CanAttach(vs, n, t.root, i, j, c, mid)
            && AttachViews(vs, i, j, c, mid) == ArenaOf(Split(t, i, j, a).slots, size)
  {
    SplitSlotFacts(t, n, i, j, a);
    GrownParentKeys(t, n, i, j, a);
    ParentNotMoved(t, n, i, j, a);
    var vs, p, c, t' := DividedArena(t, i, size), t.slots[i].parent, |t.slots|, Split(t, i, j, a);
    assert vs[p] == ViewOf(t.slots[p], p);
    var r := PutViews(vs, p, Middle(t.slots[i]), c, j);
    forall x: nat | x < size
      ensures r[x] == ArenaOf(t'.slots, size)[x]
    {
      AttachSlot(t, n, i, j, a, size, x);
    }
  }

  lemma {:induction false} AttachSlot(t: Tree, n: nat, i: nat, j: nat, a: nat, size: nat, x: nat)
    requires ReadyToSplit(t, n, i, j, a) && i != t.root && |t.slots| < size && x < size
    ensures t.slots[i].parent < |t.slots| && t.slots[i].parent !in Moved(t.slots[i])
    ensures var vs, p, c := DividedArena(t, i, size), t.slots[i].parent, |t.slots|;
            && j <= |vs[p].vals| && j < |vs[p].childs|
            && PutViews(vs, p, Middle(t.slots[i]), c, j)[x] == ArenaOf(Split(t, i, j, a).slots, size)[x]
  {
    SplitSlotFacts(t, n, i, j, a);
    ParentNotMoved(t, n, i, j, a);
    var vs, p, c, t' := DividedArena(t, i, size), t.slots[i].parent, |t.slots|, Split(t, i, j, a);
    assert vs[p] == ViewOf(t.slots[p], p);
    assert x < |t'.slots| ==> t'.slots[x] == SlotAfter(t, i, j, x);
  }

  lemma {:induction false} ParentNotMoved(t: Tree, n: nat, i: nat, j: nat, a: nat)
    requires ReadyToSplit(t, n, i, j, a) && i != t.root
    ensures t.slots[i].parent !in Moved(t.slots[i])
  {
    var p := t.slots[i].parent;
    if p in Moved(t.slots[i]) {
      MovedFacts(t, n, i, j, a, p);
      KidFacts(t, n, i, j, a, p);
    }
  }

  /** Below a new root, the divided nodes store the slots of the split tree. */
  lemma {:induction false} NewRootArena(t: Tree, n: nat, i: nat, j: nat, a: nat, size: nat)
    requires ReadyToSplit(t, n, i, j, a) && i == t.root && |t.slots| + 1 < size
    ensures var vs, c, mid := DividedArena(t, i, size), |t.slots|, Middle(t.slots[i]);
            && vs[i].parent == t.slots[i].parent && CanAttach(vs, n, t.root, i, j, c, mid)
            && AttachViews(vs, i, j, c, mid) == ArenaOf(Split(t, i, j, a).slots, size)
  {
    assert SlotOk(t, n, i, i);
    var vs, c, t' := DividedArena(t, i, size), |t.slots|, Split(t, i, j, a);
    var r := RootViews(vs, c + 1, Middle(t.slots[i]), i, c);
    forall x: nat | x < size
      ensures r[x] == ArenaOf(t'.slots, size)[x]
    {
      assert x < |t'.slots| ==> t'.slots[x] == SlotAfter(t, i, j, x);
    }
  }

  /** Slot `c` gets its number. */
  ghost function Numbered(vs: seq<NodeView>, c: nat): seq<NodeView>
    requires c < |vs|
  {
    vs[c := vs[c].(id := c)]
  }

  /** The middle value of a node, which becomes the separator. */
  function MidOf(v: NodeView): Entry
    requires |v.vals| > 0
  {
    v.vals[|v.vals| / 2]
  }

  ghost predicate CanDivide(vs: seq<NodeView>, c: nat, i: nat) {
    && i < c < |vs| && |vs[i].vals| > 0 && |vs[i].childs| % 2 == 0
    && (forall k :: 0 <= k < |vs[i].childs| ==> vs[i].childs[k] < |vs|)
    && vs[c] == BLANK
  }

  lemma DivideOverwrites(vs: seq<NodeView>, i: nat, c: nat)
    requires i < |vs| && c < |vs| && i != c && |vs[i].vals| > 0
    ensures DivideViews(Numbered(vs, c), i, c) == DivideViews(vs, i, c)
  {
    var w := Numbered(vs, c);
    assert w[i := LowerView(w[i], c)][c := UpperView(w[i], c)] ==
           vs[i := LowerView(vs[i], c)][c := UpperView(vs[i], c)];
  }

  ghost predicate CanAttach(vs: seq<NodeView>, n: nat, root: nat, i: nat, j: nat, c: nat, mid: Entry) {
    && i < c < |vs|
    && (if vs[i].parent != 0 then vs[i].parent < |vs| && CanTake(vs[vs[i].parent], n, mid.key, j)
        else i == root && c + 1 < |vs| && vs[c + 1] == BLANK)
  }

  ghost function AttachViews(vs: seq<NodeView>, i: nat, j: nat, c: nat, mid: Entry): seq<NodeView>
    requires exists n, root :: CanAttach(vs, n, root, i, j, c, mid)
  {
    if vs[i].parent != 0 then PutViews(vs, vs[i].parent, mid, c, j)
    else RootViews(vs, c + 1, mid, i, c)
  }

  /** On the nodes that store a tree, one level of split_node stores the split tree. */
  lemma {:induction false} SplitArena(t: Tree, n: nat, i: nat, j: nat, a: nat, size: nat)
    requires ReadyToSplit(t, n, i, j, a) && |Split(t, i, j, a).slots| <= size
    ensures var vs, c := ArenaOf(t.slots, size), |t.slots|;
            && CanDivide(vs, c, i)
            && vs[i].parent == t.slots[i].parent && (t.slots[i].parent == 0 <==> i == t.root)
            && var d, mid := DivideViews(vs, i, c), MidOf(vs[i]);
               && CanAttach(d, n, t.root, i, j, c, mid)
               && d[i].parent == vs[i].parent
               && AttachViews(d, i, j, c, mid) == ArenaOf(Split(t, i, j, a).slots, size)
  {
    SplitSlotFacts(t, n, i, j, a);
    KidsInArena(t, n, i, j, a);
    ParentLink(t, n, i);
    DivideArena(t, n, i, j, a, size);
    if i != t.root {
      AttachArena(t, n, i, j, a, size);
    } else {
      NewRootArena(t, n, i, j, a, size);
    }
  }

  lemma {:induction false} KidsInArena(t: Tree, n: nat, i: nat, j: nat, a: nat)
    requires ReadyToSplit(t, n, i, j, a)
    ensures forall k :: 0 <= k < |t.slots[i].childs| ==> t.slots[i].childs[k] < |t.slots|
  {
    forall k | 0 <= k < |t.slots[i].childs|
      ensures t.slots[i].childs[k] < |t.slots|
    {
      KidFacts(t, n, i, j, a, t.slots[i].childs[k]);
    }
  }

  /** An overflowing slot hangs somewhere. */
  lemma {:induction false} SplitPlace(t: Tree, n: nat, i: nat) returns (j: nat, a: nat)
    requires i != 0 && Inv(t, n, i)
    ensures ReadyToSplit(t, n, i, j, a)
  {
    assert SlotOk(t, n, i, i);
    j, a := 0, 0;
    if i != t.root {
      var p := t.slots[i].parent;
      assert SlotOk(t, n, i, p);
      j :| 0 <= j < |t.slots[p].childs| && t.slots[p].childs[j] == i;
    }
    if t.slots[i].isLeaf {
      a := PlaceOf(t, n, i, i);
    }
  }

  lemma {:induction false} ParentLink(t: Tree, n: nat, i: nat)
    requires i != 0 && Inv(t, n, i)
    ensures t.slots[i].parent == 0 <==> i == t.root
  {
    assert SlotOk(t, n, i, i);
  }

  /** What one split keeps, and that it has room. */
  lemma {:induction false} SplitKeeps(t: Tree, n: nat, i: nat, j: nat, a: nat)
    requires ReadyToSplit(t, n, i, j, a) && Counted(t)
    ensures Inv(Split(t, i, j, a), n, NextFull(t, n, i)) && Counted(Split(t, i, j, a))
    ensures Contents(Split(t, i, j, a)) == Contents(t)
    ensures |Split(t, i, j, a).slots| <= SlotsFor(|Contents(t)|, n)
  {
    SplitInv(t, n, i, j, a);
    SplitCounted(t, n, i, j, a);
    SplitContents(t, n, i, j, a);
    ArenaBound(Split(t, i, j, a), n, NextFull(t, n, i));
  }

  /** The node that received the separator is full exactly when it has to be split next, one level higher up. */
  lemma {:induction false} FullIsNext(t: Tree, n: nat, i: nat, j: nat, a: nat)
    requires ReadyToSplit(t, n, i, j, a)
    ensures var q, t' := ParentSlot(t, i), Split(t, i, j, a);
            && InTree(t', q)
            && (|t'.slots[q].vals| + 1 >= 2 * n <==> NextFull(t, n, i) == q)
            && (|t'.slots[q].vals| + 1 < 2 * n <==> NextFull(t, n, i) == 0)
            && (NextFull(t, n, i) == q ==>
                  && t'.slots[t'.root].height == t.slots[t.root].height
                  && t'.slots[q].height == t.slots[i].height + 1
                  && t'.slots[q].height <= t'.slots[t'.root].height)
  {
    SplitSlotFacts(t, n, i, j, a);
    LinkedToParent(t, n, i, j, a);
    SplitRoot(t, n, i, j, a);
    SplitInv(t, n, i, j, a);
    assert SlotOk(Split(t, i, j, a), n, NextFull(t, n, i), ParentSlot(t, i));
  }

  /** Slot `i` lies `above` levels below the root. */
  ghost predicate IsAbove(t: Tree, i: nat, above: nat) {
    InTree(t, t.root) && InTree(t, i) && t.slots[t.root].height == t.slots[i].height + above
  }

  /** The node that receives the separator when slot `i` is split. */
  ghost function Receiver(t: Tree, i: nat): nat
    requires i < |t.slots|
  {
    if t.slots[i].parent == 0 then |t.slots| + 1 else t.slots[i].parent
  }

  /** One level of split_node turns the nodes that store `t` into nodes that store `u`. */
  ghost predicate StepFacts(t: Tree, u: Tree, n: nat, i: nat, j: nat, size: nat) {
    && CanDivide(ArenaOf(t.slots, size), |t.slots|, i)
    && i < |t.slots| && ArenaOf(t.slots, size)[i].parent == t.slots[i].parent
    && (var vs, c := ArenaOf(t.slots, size), |t.slots|;
        var d, mid := DivideViews(vs, i, c), MidOf(vs[i]);
        && CanAttach(d, n, t.root, i, j, c, mid)
        && d[i].parent == vs[i].parent
        && ArenaOf(u.slots, size) == AttachViews(d, i, j, c, mid))
    && (if t.slots[i].parent == 0 then |u.slots| == |t.slots| + 2 && u.root == |t.slots| + 1
        else |u.slots| == |t.slots| + 1 && u.root == t.root)
    && |u.slots| <= size
    && 0 < Receiver(t, i) < |u.slots|
  }

  /** One level of split_node on the tree: `u` is the tree after it. */
  lemma {:induction false} SplitStep(t: Tree, n: nat, i: nat, above: nat, size: nat)
    returns (j: nat, u: Tree, full: nat, above': nat)
    requires IsAbove(t, i, above)
    requires i != 0 && Inv(t, n, i) && Counted(t) && SlotsFor(|Contents(t)|, n) <= size
    ensures StepFacts(t, u, n, i, j, size)
    ensures Inv(u, n, full) && Counted(u) && Contents(u) == Contents(t)
    ensures full == if |u.slots[Receiver(t, i)].vals| + 1 >= 2 * n then Receiver(t, i) else 0
    ensures full != 0 ==> above' < above && IsAbove(u, full, above')
  {
    var a;
    j, a := SplitPlace(t, n, i);
    u := Split(t, i, j, a);
    full := NextFull(t, n, i);
    SplitKeeps(t, n, i, j, a);
    SplitArena(t, n, i, j, a, size);
    FullIsNext(t, n, i, j, a);
    above' := if full != 0 then above - 1 else 0;
  }

  lemma {:induction false} LeafRoom(t: Tree, n: nat, i: nat)
    requires Inv(t, n, 0) && InTree(t, i) && t.slots[i].isLeaf
    ensures |t.slots[i].vals| < 2 * n && Ascending(t.slots[i].vals)
  {
    assert SlotOk(t, n, 0, i);
  }

  lemma InsertedSize(s: seq<Entry>, e: Entry)
    ensures |InsertSorted(s, e)| == |s| + 1
  {
  }

  lemma {:induction false} NotBelowIsAbove(s: seq<Entry>, key: int, d: nat)
    requires d <= |s| && !HasKey(s, key) && forall k :: d <= k < |s| ==> key <= s[k].key
    ensures AllAbove(s[d..], key)
  {
    assert forall k :: d <= k < |s| ==> s[k].key != key;
    assert forall k :: 0 <= k < |s| - d ==> s[d..][k] == s[d + k];
  }

  /** Storing an entry in its leaf, nodes and tree together. */
  lemma {:induction false} LeafStep(t: Tree, n: nat, a: nat, d: nat, e: Entry, size: nat)
    requires Inv(t, n, 0) && Counted(t) && |t.slots| <= size
    requires HoldsKey(t, a, e.key) && t.slots[t.leaves[a]].isLeaf && !HasKey(t.slots[t.leaves[a]].vals, e.key)
    requires var vals := t.slots[t.leaves[a]].vals;
             d <= |vals| && AllBelow(vals[..d], e.key) && forall k :: d <= k < |vals| ==> e.key <= vals[k].key
    ensures var i := t.leaves[a];
            var u, vs := InsertInLeaf(t, i, d, e), ArenaOf(t.slots, size);
            && vs[i := vs[i].(vals := InsertAt(vs[i].vals, d, e))] == ArenaOf(u.slots, size)
            && Counted(u) && Inv(u, n, if |t.slots[i].vals| + 1 >= 2 * n then i else 0)
            && Contents(u) == InsertSorted(Contents(t), e)
  {
    var i := t.leaves[a];
    NotBelowIsAbove(t.slots[i].vals, e.key, d);
    LeafRoom(t, n, i);
    InsertInLeafInv(t, n, i, d, e);
    InsertInLeafContents(t, n, a, d, e);
    InsertInLeafCounted(t, i, d, e);
  }

  lemma {:induction false} DepthOf(t: Tree, n: nat, i: nat) returns (above: nat)
    requires i != 0 && Inv(t, n, i)
    ensures IsAbove(t, i, above)
  {
    assert SlotOk(t, n, i, i);
    above := t.slots[t.root].height - t.slots[i].height;
  }

  // ---- lookups ----

  /** Slot `cur` is responsible for the key: where a search for it may pass. */
  ghost predicate OnPath(t: Tree, cur: nat, key: int) {
    InTree(t, cur) && AtLeast(key, t.slots[cur].lo) && Under(key, t.slots[cur].hi)
  }

  /** What a lookup may report given the contents. */
  ghost predicate FindsIn(s: seq<Entry>, key: int, res: Option<IndexRecord>) {
    && (forall i :: 0 <= i < |s| && s[i].key == key ==> res == Some(s[i].val))
    && (res.Some? ==> exists e :: IsCeiling(s, key, e) && res.value == e.val)
  }

  /** The answer of a lookup: there is none exactly when all keys of the leaf responsible for the key are below it. */
  ghost predicate Finds(t: Tree, key: int, res: Option<IndexRecord>)
    requires LeavesInRange(t)
  {
    && FindsIn(Contents(t), key, res)
    && exists a: nat :: HoldsKey(t, a, key) && (res.None? <==> AllBelow(t.slots[t.leaves[a]].vals, key))
  }

  lemma {:induction false} AnswerFinds(t: Tree, n: nat, a: nat, key: int, res: Option<IndexRecord>)
    requires Inv(t, n, 0) && HoldsKey(t, a, key) && Answers(t.slots[t.leaves[a]].vals, key, res)
    ensures Finds(t, key, res)
  {
    var vs := t.slots[t.leaves[a]].vals;
    ContentsAscending(t, n, 0);
    var d := |vs|;
    if res.Some? {
      d :| 0 <= d < |vs| && AllBelow(vs[..d], key) && key <= vs[d].key && res.value == vs[d].val;
      assert !AllBelow(vs, key);
    } else {
      assert vs[..d] == vs;
    }
    LeafCeiling(t, n, 0, a, key, d);
    var s := Contents(t);
    forall i | 0 <= i < |s| && s[i].key == key
      ensures res == Some(s[i].val)
    {
      if res.Some? {
        CeilingOfStored(s, key, vs[d], s[i]);
      }
    }
  }

  class BTree {
    const n: nat
    const cache: seq<Node>
    var root: nat
    var cachePos: nat
    ghost var t: Tree

    /** The heap stores the tree `u`. */
    ghost predicate Stores(u: Tree)
      reads this, Foot(cache)
    {
      && Separate(cache, n) && AllSized(cache) && this !in Foot(cache)
      && root == u.root && cachePos == |u.slots| <= |cache|
      && Views(cache) == ArenaOf(u.slots, |cache|)
    }

    ghost predicate Valid()
      reads this, Foot(cache)
    {
      Stores(t) && Inv(t, n, 0) && Counted(t)
    }

    /** The constructor of BTree: a view on an arena in which a tree was left before. */
    constructor (cache: seq<Node>, n: nat, rootPos: nat, cachePos: nat, ghost t: Tree)
      requires Separate(cache, n) && AllSized(cache)
      requires |t.slots| <= |cache| && Views(cache) == ArenaOf(t.slots, |cache|)
      requires rootPos == t.root && cachePos == |t.slots| && Inv(t, n, 0) && Counted(t)
      ensures Valid() && this.t == t && this.cache == cache && this.n == n
      ensures this.root == rootPos && this.cachePos == cachePos
    {
      this.cache, this.n, this.root, this.cachePos, this.t := cache, n, rootPos, cachePos, t;
    }

    /** iner_find: from node `cur` down to the leaf responsible for the key. */
    method InerFind(key: int, cur: nat, ghost u: Tree) returns (node: nat, res: Option<IndexRecord>)
      requires AllSized(cache) && |u.slots| <= |cache| && Views(cache) == ArenaOf(u.slots, |cache|) && Inv(u, n, 0)
      requires OnPath(u, cur, key)
      ensures OnPath(u, node, key) && u.slots[node].isLeaf
      ensures Answers(u.slots[node].vals, key, res)
      decreases u.slots[cur].height
    {
      assert SlotOk(u, n, 0, cur);
      assert Views(cache)[cur] == cache[cur].View() == ViewOf(u.slots[cur], cur);
      if cache[cur].isLeaf {
        node := cur;
        res := cache[cur].LookUp(key);
      } else {
        var j := cache[cur].Route(key);
        ghost var s := u.slots[cur];
        assert s.childs[j] == cache[cur].childs[j];
        assert ChildFits(u.slots[s.childs[j]], s, cur, j);
        node, res := InerFind(key, cache[cur].childs[j], u);
      }
    }

    /** The search from the root, with the place of the leaf it reaches. */
    method Search(key: int, ghost u: Tree) returns (node: nat, res: Option<IndexRecord>, ghost a: nat)
      requires Stores(u) && Inv(u, n, 0)
      ensures HoldsKey(u, a, key) && u.leaves[a] == node && u.slots[node].isLeaf
      ensures Answers(u.slots[node].vals, key, res)
    {
      node, res := InerFind(key, root, u);
      a := PlaceOf(u, n, 0, node);
    }

    /**
     find: the stored value for a stored key. For another key it reports the value of the next larger
     key in the same leaf, and a miss exactly when that leaf has none.
     */
    method Find(key: int) returns (res: Option<IndexRecord>)
      requires Valid()
      ensures Finds(t, key, res)
    {
      var node;
      ghost var a;
      node, res, a := Search(key, t);
      AnswerFinds(t, n, a, key, res);
    }

    /** find_node: the leaf that holds the greatest stored key not above the sought one, if there is one. */
    method FindNode(key: int, ghost u: Tree) returns (node: nat, ghost a: nat)
      requires Stores(u) && Inv(u, n, 0)
      ensures Stores(u) && HoldsKey(u, a, key) && u.leaves[a] == node && u.slots[node].isLeaf
      ensures forall e :: IsFloor(Contents(u), key, e) <==> IsFloor(u.slots[node].vals, key, e)
    {
      var res;
      node, res, a := Search(key, u);
      forall e
        ensures IsFloor(Contents(u), key, e) <==> IsFloor(u.slots[node].vals, key, e)
      {
        LeafHasFloor(u, n, 0, a, key, e);
      }
    }

    /** make_node: the next slot gets its number and nothing else. */
    method MakeNode(ghost vs: seq<NodeView>) returns (c: nat)
      requires Separate(cache, n) && AllSized(cache) && Views(cache) == vs && cachePos < |vs|
      modifies this`cachePos, Foot(cache)
      ensures AllSized(cache) && c == old(cachePos) && cachePos == c + 1
      ensures Views(cache) == Numbered(vs, c)
    {
      c := cachePos;
      cache[cachePos].id := cachePos;
      cachePos := cachePos + 1;
      forall x | 0 <= x < |cache| && x != c
        ensures cache[x].View() == vs[x]
      {
        Apart(cache, n, x, c);
      }
    }

    /** isFull */
    method IsFull(i: nat, ghost vs: seq<NodeView>) returns (b: bool)
      requires AllSized(cache) && Views(cache) == vs && i < |vs|
      ensures AllSized(cache) && Views(cache) == vs
      ensures b == (|vs[i].vals| + 1 >= 2 * n)
    {
      assert Views(cache)[i] == cache[i].View();
      b := cache[i].valsSize + 1 >= 2 * n;
    }

    /** Second half of split_node below an existing parent. */
    method PutToParent(i: nat, c: nat, mid: Entry, ghost j: nat, ghost d: seq<NodeView>) returns (p: nat)
      requires Separate(cache, n) && AllSized(cache) && this !in Foot(cache) && Views(cache) == d
      requires i < |d| && c < |d| && d[i].parent < |d| && CanTake(d[d[i].parent], n, mid.key, j)
      modifies Foot(cache)
      ensures AllSized(cache) && p == d[i].parent && root == old(root) && cachePos == old(cachePos)
      ensures Views(cache) == PutViews(d, p, mid, c, j)
    {
      assert Views(cache)[i] == cache[i].View();
      p := cache[i].parent;
      AddToParent(cache, n, p, mid, c, j);
      SetParent(cache, n, c, p);
    }

    /** Second half of split_node at the root: a new root above both halves. */
    method PutNewRoot(i: nat, c: nat, mid: Entry) returns (q: nat)
      requires Separate(cache, n) && AllSized(cache) && this !in Foot(cache) && n >= 2
      requires i == root < |cache| && c < cachePos < |cache| && i < c && Views(cache)[cachePos] == BLANK
      modifies this`root, this`cachePos, Foot(cache)
      ensures AllSized(cache) && root == q == old(cachePos) && cachePos == q + 1
      ensures Views(cache) == RootViews(old(Views(cache)), q, mid, i, c)
    {
      ghost var vs := Views(cache);
      q := MakeNode(vs);
      ghost var w := Views(cache)[q];
      RootViewsOverwrite(vs, q, w, mid, i, c);
      var r := root;
      root := q;
      ghost var vs' := vs[q := w];
      assert Views(cache) == vs';
      RootAbove(cache, n, r, q, mid, i, c, vs');
    }

    /** First half of split_node: a new node takes over the upper half of node `i`. */
    method Divide(i: nat, ghost vs: seq<NodeView>) returns (c: nat, mid: Entry)
      requires Separate(cache, n) && AllSized(cache) && this !in Foot(cache) && Views(cache) == vs
      requires CanDivide(vs, cachePos, i)
      modifies this`cachePos, Foot(cache)
      ensures AllSized(cache) && c == old(cachePos) && cachePos == c + 1 && mid == MidOf(vs[i])
      ensures Views(cache) == DivideViews(vs, i, c)
    {
      c := MakeNode(vs);
      DivideOverwrites(vs, i, c);
      mid := DivideNodes(cache, n, i, c);
    }

    /** Second half of split_node: separator and new node go to the parent, or to a new root. */
    method Attach(i: nat, c: nat, mid: Entry, ghost j: nat, ghost d: seq<NodeView>) returns (q: nat)
      requires Separate(cache, n) && AllSized(cache) && this !in Foot(cache) && n >= 2 && Views(cache) == d
      requires c + 1 == cachePos && CanAttach(d, n, root, i, j, c, mid)
      modifies this`root, this`cachePos, Foot(cache)
      ensures AllSized(cache) && Views(cache) == AttachViews(d, i, j, c, mid)
      ensures if d[i].parent != 0 then root == old(root) && cachePos == c + 1 && q == d[i].parent
              else root == q == c + 1 && cachePos == c + 2
    {
      assert Views(cache)[i] == cache[i].View();
      ghost var goal := AttachViews(d, i, j, c, mid);
      if cache[i].parent != 0 {
        assert goal == PutViews(d, d[i].parent, mid, c, j);
        q := PutToParent(i, c, mid, j, d);
        assert Views(cache) == goal;
      } else {
        assert goal == RootViews(d, c + 1, mid, i, c);
        q := PutNewRoot(i, c, mid);
        assert Views(cache) == goal;
      }
    }

    /** One level of split_node; `q` is the node that received the separator. */
    method SplitOnce(i: nat, ghost j: nat, ghost c0: nat, ghost vs: seq<NodeView>, ghost goal: seq<NodeView>)
      returns (q: nat)
      requires Separate(cache, n) && AllSized(cache) && this !in Foot(cache) && n >= 2
      requires Views(cache) == vs && c0 == cachePos && CanDivide(vs, c0, i)
      requires CanAttach(DivideViews(vs, i, c0), n, root, i, j, c0, MidOf(vs[i]))
      requires DivideViews(vs, i, c0)[i].parent == vs[i].parent
      requires goal == AttachViews(DivideViews(vs, i, c0), i, j, c0, MidOf(vs[i]))
      modifies this`root, this`cachePos, Foot(cache)
      ensures AllSized(cache) && Views(cache) == goal
      ensures if vs[i].parent != 0 then root == old(root) && cachePos == c0 + 1 && q == vs[i].parent
              else root == q == c0 + 1 && cachePos == c0 + 2
    {
      ghost var d := DivideViews(vs, i, c0);
      var c, mid := Divide(i, vs);
      q := Attach(i, c, mid, j, d);
    }

    /** One level of split_node on the nodes; `b` tells whether the node `q` above overflows now. */
    method SplitStored(i: nat, ghost u: Tree, ghost u': Tree, ghost j: nat) returns (q: nat, b: bool)
      requires Stores(u) && n >= 2 && StepFacts(u, u', n, i, j, |cache|)
      modifies this`root, this`cachePos, Foot(cache)
      ensures Stores(u') && q == Receiver(u, i) && b == (|u'.slots[q].vals| + 1 >= 2 * n)
    {
      ghost var goal := ArenaOf(u'.slots, |cache|);
      q := SplitOnce(i, j, |u.slots|, ArenaOf(u.slots, |cache|), goal);
      b := IsFull(q, goal);
    }

    /** One level of split_node, nodes and tree together. */
    method SplitLevel(i: nat, ghost u: Tree, ghost above: nat)
      returns (q: nat, b: bool, ghost u': Tree, ghost above': nat)
      requires IsAbove(u, i, above)
      requires Stores(u) && i != 0 && Inv(u, n, i) && Counted(u) && SlotsFor(|Contents(u)|, n) <= |cache|
      modifies this`root, this`cachePos, Foot(cache)
      ensures Stores(u') && q != 0 && Inv(u', n, if b then q else 0) && Counted(u') && Contents(u') == Contents(u)
      ensures b ==> IsAbove(u', q, above') && above' < above
    {
      ghost var j, full;
      j, u', full, above' := SplitStep(u, n, i, above, |cache|);
      q, b := SplitStored(i, u, u', j);
    }

    /** split_node: split the overflowing node, and go on with its parent while that overflows. */
    method SplitNode(i: nat, ghost u: Tree, ghost above: nat) returns (ghost u': Tree)
      requires IsAbove(u, i, above)
      requires Stores(u) && i != 0 && Inv(u, n, i) && Counted(u) && SlotsFor(|Contents(u)|, n) <= |cache|
      modifies this`root, this`cachePos, Foot(cache)
      ensures Stores(u') && Inv(u', n, 0) && Counted(u') && Contents(u') == Contents(u)
      decreases above
    {
      var q, b;
      ghost var w, above';
      q, b, w, above' := SplitLevel(i, u, above);
      if b {
        u' := SplitNode(q, w, above');
      } else {
        u' := w;
      }
    }

    /** The leaf takes the entry. */
    method StoreInLeaf(i: nat, ghost u: Tree, ghost a: nat, key: int, val: IndexRecord) returns (ghost u': Tree)
      requires Stores(u) && Inv(u, n, 0) && Counted(u)
      requires HoldsKey(u, a, key) && u.leaves[a] == i && u.slots[i].isLeaf && !HasKey(u.slots[i].vals, key)
      modifies Foot(cache)
      ensures Stores(u') && Counted(u') && Inv(u', n, if |u.slots[i].vals| + 1 >= 2 * n then i else 0)
      ensures Contents(u') == InsertSorted(Contents(u), Entry(key, val))
      ensures |u'.slots| == |u.slots|
    {
      LeafRoom(u, n, i);
      ghost var d := AddValue(cache, n, i, key, val, ArenaOf(u.slots, |cache|));
      u' := InsertInLeaf(u, i, d, Entry(key, val));
      LeafStep(u, n, a, d, Entry(key, val), |cache|);
    }

    /** insert on the nodes and a tree they store. */
    method InsertStored(key: int, val: IndexRecord, ghost u: Tree) returns (ghost u': Tree)
      requires Stores(u) && Inv(u, n, 0) && Counted(u) && !HasKey(Contents(u), key)
      requires SlotsFor(|InsertSorted(Contents(u), Entry(key, val))|, n) <= |cache|
      modifies this`root, this`cachePos, Foot(cache)
      ensures Stores(u') && Inv(u', n, 0) && Counted(u')
      ensures Contents(u') == InsertSorted(Contents(u), Entry(key, val))
    {
      var node, res;
      ghost var a;
      node, res, a := Search(key, u);
      LeafDecides(u, n, 0, a, key);
      var full := IsFull(node, ArenaOf(u.slots, |cache|));
      ghost var w := StoreInLeaf(node, u, a, key, val);
      if full {
        ghost var above := DepthOf(w, n, node);
        u' := SplitNode(node, w, above);
      } else {
        u' := w;
      }
    }

    /** insert: a new key enters the contents in order and nothing else changes. */
    method Insert(key: int, val: IndexRecord)
      requires Valid() && !HasKey(Contents(t), key)
      requires SlotsFor(|Contents(t)| + 1, n) <= |cache|
      modifies this, Foot(cache)
      ensures Valid() && Contents(t) == InsertSorted(old(Contents(t)), Entry(key, val))
    {
      InsertedSize(Contents(t), Entry(key, val));
      ghost var u := InsertStored(key, val, t);
      Remember(u);
    }

    ghost method Remember(u: Tree)
      requires Stores(u) && Inv(u, n, 0) && Counted(u)
      modifies this`t
      ensures Valid() && t == u
    {
      t := u;
    }
  }
}
