/** The two ways `insert` changes the tree: an entry enters a leaf, and an overflowing node is split. */
module TreeSteps {
  import opened Entries
  import opened TreeShape

  // ---- an entry enters a leaf ----

  function InsertInLeaf(t: Tree, i: nat, d: nat, e: Entry): Tree
    requires i < |t.slots| && d <= |t.slots[i].vals|
  {
    t.(slots := t.slots[i := t.slots[i].(vals := InsertAt(t.slots[i].vals, d, e))])
  }

  ghost predicate FitsLeaf(t: Tree, i: nat, d: nat, e: Entry) {
    && InTree(t, i)
    && t.slots[i].isLeaf
    && AtLeast(e.key, t.slots[i].lo) && Under(e.key, t.slots[i].hi)
    && d <= |t.slots[i].vals|
    && AllBelow(t.slots[i].vals[..d], e.key) && AllAbove(t.slots[i].vals[d..], e.key)
  }

  lemma {:induction false} LeafKeysAfterInsert(t: Tree, n: nat, i: nat, d: nat, e: Entry)
    requires Inv(t, n, 0) && FitsLeaf(t, i, d, e)
    ensures KeysOk(InsertInLeaf(t, i, d, e).slots[i])
  {
    var s := t.slots[i];
    assert SlotOk(t, n, 0, i);
    InsertAtAscending(s.vals, d, e);
    assert |s.vals| > 0 ==> s.vals[0] == if d == 0 then s.vals[d..][0] else s.vals[..d][0];
  }

  lemma {:induction false} SlotAfterInsert(t: Tree, n: nat, i: nat, d: nat, e: Entry, x: nat)
    requires Inv(t, n, 0) && FitsLeaf(t, i, d, e) && InTree(t, x)
    ensures SlotOk(InsertInLeaf(t, i, d, e), n, if |t.slots[i].vals| + 1 == 2 * n then i else 0, x)
  {
    LeafKeysAfterInsert(t, n, i, d, e);
    assert SlotOk(t, n, 0, x);
    assert SlotOk(t, n, 0, i);
  }

  /** Storing an entry in the right place of the right leaf keeps the invariant; the leaf may now be full. */
  lemma {:induction false} InsertInLeafInv(t: Tree, n: nat, i: nat, d: nat, e: Entry)
    requires Inv(t, n, 0) && FitsLeaf(t, i, d, e)
    ensures Inv(InsertInLeaf(t, i, d, e), n, if |t.slots[i].vals| + 1 == 2 * n then i else 0)
  {
    var t' := InsertInLeaf(t, i, d, e);
    var full := if |t.slots[i].vals| + 1 == 2 * n then i else 0;
    forall x: nat | InTree(t', x)
      ensures SlotOk(t', n, full, x)
    {
      SlotAfterInsert(t, n, i, d, e, x);
    }
    forall a: nat | a < |t'.leaves|
      ensures LeafOk(t', a)
    {
      assert LeafOk(t, a);
    }
  }

  // ---- an overflowing node is split ----

  function Middle(s: Slot): Entry
    requires |s.vals| > 0
  {
    s.vals[|s.vals| / 2]
  }

  /** What stays in the split node: the lower half. */
  function LeftHalf(s: Slot, c: nat, q: nat): Slot
    requires |s.vals| > 0
  {
    s.(vals := s.vals[..|s.vals| / 2], childs := s.childs[..|s.childs| / 2], parent := q, next := c,
       hi := At(Middle(s).key))
  }

  /** What the new node takes over: the upper half, in an inner node without the middle entry. */
  function RightHalf(s: Slot, q: nat): Slot
    requires |s.vals| > 0
  {
    var h := |s.vals| / 2;
    Slot(if s.isLeaf then s.vals[h..] else s.vals[h + 1..], s.childs[|s.childs| / 2..], s.isLeaf, q, s.next,
         At(Middle(s).key), s.hi, s.height)
  }

  /** The children that change their parent. */
  function Moved(s: Slot): seq<nat> { s.childs[|s.childs| / 2..] }

  /** Slot number of the parent after the split: the old parent, or a new root made after the new node. */
  function ParentSlot(t: Tree, i: nat): nat
    requires i < |t.slots|
  {
    if i == t.root then |t.slots| + 1 else t.slots[i].parent
  }

  ghost predicate SplitArgs(t: Tree, i: nat, j: nat) {
    && InTree(t, i)
    && |t.slots[i].vals| > 0
    && (i != t.root ==>
          && InTree(t, t.slots[i].parent)
          && j < |t.slots[t.slots[i].parent].childs|
          && j <= |t.slots[t.slots[i].parent].vals|)
  }

  /** The parent after the split: separator and new child enter at places j and j + 1. */
  ghost function GrownParent(t: Tree, i: nat, j: nat): Slot
    requires SplitArgs(t, i, j)
  {
    var s, c := t.slots[i], |t.slots|;
    if i == t.root then
      Slot([Middle(s)], [i, c], false, 0, 0, Open, Open, s.height + 1)
    else
      var p := t.slots[s.parent];
      p.(vals := InsertAt(p.vals, j, Middle(s)), childs := InsertAt(p.childs, j + 1, c))
  }

  ghost function SlotAfter(t: Tree, i: nat, j: nat, x: nat): Slot
    requires SplitArgs(t, i, j) && x < |t.slots| + 2
  {
    var s, c, q := t.slots[i], |t.slots|, ParentSlot(t, i);
    if x == i then LeftHalf(s, c, q)
    else if x == c then RightHalf(s, q)
    else if x == q || x > c then GrownParent(t, i, j)
    else if x in Moved(s) then t.slots[x].(parent := c)
    else t.slots[x]
  }

  /**
   Splitting slot `i`, which is child number `j` of its parent and, if a leaf, number `a` in the
   leaf order.
   */
  ghost function Split(t: Tree, i: nat, j: nat, a: nat): (r: Tree)
    requires SplitArgs(t, i, j) && (t.slots[i].isLeaf ==> a < |t.leaves|)
    ensures |r.slots| == |t.slots| + if i == t.root then 2 else 1
    ensures forall x :: 0 <= x < |r.slots| ==> r.slots[x] == SlotAfter(t, i, j, x)
  {
    var count := |t.slots| + if i == t.root then 2 else 1;
    Tree(seq(count, x requires 0 <= x < count => SlotAfter(t, i, j, x)),
         if i == t.root then ParentSlot(t, i) else t.root,
         if t.slots[i].isLeaf then InsertAt(t.leaves, a + 1, |t.slots|) else t.leaves)
  }

  /** Slot `i` overflowed, and `j` and `a` say where it hangs. */
  ghost predicate ReadyToSplit(t: Tree, n: nat, i: nat, j: nat, a: nat) {
    && i != 0
    && Inv(t, n, i)
    && SplitArgs(t, i, j)
    && (i != t.root ==> t.slots[t.slots[i].parent].childs[j] == i)
    && (t.slots[i].isLeaf ==> a < |t.leaves| && t.leaves[a] == i)
  }

  /** The slot that is full after the split: the parent, if the separator filled it up. */
  ghost function NextFull(t: Tree, n: nat, i: nat): nat
    requires InTree(t, i) && InTree(t, t.root) && (i != t.root ==> InTree(t, t.slots[i].parent))
  {
    if i != t.root && |t.slots[t.slots[i].parent].vals| + 1 == 2 * n - 1 then t.slots[i].parent else 0
  }

  // Facts about the neighbourhood of the split slot.

  lemma {:induction false} SplitSlotFacts(t: Tree, n: nat, i: nat, j: nat, a: nat)
    requires ReadyToSplit(t, n, i, j, a)
    ensures SlotOk(t, n, i, i)
    ensures var s := t.slots[i];
            && |s.vals| == (if s.isLeaf then 2 * n else 2 * n - 1)
            && |s.vals| / 2 == (if s.isLeaf then n else n - 1)
            && |s.childs| / 2 == (if s.isLeaf then 0 else n)
    ensures i != t.root ==> t.slots[i].parent != i && SlotOk(t, n, i, t.slots[i].parent)
    ensures i != t.root ==> !t.slots[t.slots[i].parent].isLeaf
    ensures i != t.root ==> ChildFits(t.slots[i], t.slots[t.slots[i].parent], t.slots[i].parent, j)
  {
    assert SlotOk(t, n, i, i);
    if i != t.root {
      var p := t.slots[i].parent;
      assert SlotOk(t, n, i, p);
      assert ChildFits(t.slots[t.slots[p].childs[j]], t.slots[p], p, j);
    }
  }

  /** A child of the split slot is none of the other slots the split writes. */
  lemma {:induction false} KidFacts(t: Tree, n: nat, i: nat, j: nat, a: nat, x: nat)
    requires ReadyToSplit(t, n, i, j, a) && x in t.slots[i].childs
    ensures InTree(t, x) && t.slots[x].parent == i && t.slots[x].height < t.slots[i].height
    ensures x != i && x != t.root && x != ParentSlot(t, i)
  {
    SplitSlotFacts(t, n, i, j, a);
    var k :| 0 <= k < |t.slots[i].childs| && t.slots[i].childs[k] == x;
    assert ChildFits(t.slots[x], t.slots[i], i, k);
    assert SlotOk(t, n, i, x);
  }

  /** Conversely the children of a slot are the slots that name it as parent. */
  lemma {:induction false} MovedFacts(t: Tree, n: nat, i: nat, j: nat, a: nat, x: nat)
    requires ReadyToSplit(t, n, i, j, a) && x in Moved(t.slots[i])
    ensures x in t.slots[i].childs
  {
    var s := t.slots[i];
    var k :| 0 <= k < |Moved(s)| && Moved(s)[k] == x;
    assert s.childs[|s.childs| / 2 + k] == x;
  }

  // The invariant after the split, one kind of slot at a time.

  lemma {:induction false} HalvesKeys(s: Slot, c: nat, q: nat, n: nat)
    requires n >= 2 && KeysOk(s) && |s.vals| == (if s.isLeaf then 2 * n else 2 * n - 1)
    ensures KeysOk(LeftHalf(s, c, q)) && KeysOk(RightHalf(s, q))
    ensures |LeftHalf(s, c, q).vals| == (if s.isLeaf then n else n - 1)
    ensures |RightHalf(s, q).vals| == (if s.isLeaf then n else n - 1)
  {
    LeftHalfKeys(s, c, q);
    RightHalfKeys(s, q);
  }

  lemma {:induction false} LeftHalfKeys(s: Slot, c: nat, q: nat)
    requires KeysOk(s) && |s.vals| >= 2
    ensures KeysOk(LeftHalf(s, c, q))
  {
    var l := LeftHalf(s, c, q);
    assert forall k :: 0 <= k < |l.vals| ==> l.vals[k] == s.vals[k];
  }

  lemma {:induction false} RightHalfKeys(s: Slot, q: nat)
    requires KeysOk(s) && |s.vals| >= 2
    ensures KeysOk(RightHalf(s, q))
  {
    var r := RightHalf(s, q);
    assert forall k :: 0 <= k < |r.vals| ==> r.vals[k] == s.vals[|s.vals| - |r.vals| + k];
  }

  lemma {:induction false} LeftHalfChilds(t: Tree, n: nat, i: nat, j: nat, a: nat)
    requires ReadyToSplit(t, n, i, j, a)
    ensures ChildsOk(Split(t, i, j, a), i)
  {
    SplitSlotFacts(t, n, i, j, a);
    var s, t' := t.slots[i], Split(t, i, j, a);
    var l := t'.slots[i];
    assert l == SlotAfter(t, i, j, i);
    forall k | 0 <= k < |l.childs|
      ensures InTree(t', l.childs[k]) && ChildFits(t'.slots[l.childs[k]], l, i, k)
    {
      KidFacts(t, n, i, j, a, s.childs[k]);
      NotMoved(t, n, i, j, a, k);
      assert ChildFits(t.slots[s.childs[k]], s, i, k);
    }
  }

  lemma {:induction false} LeftHalfOk(t: Tree, n: nat, i: nat, j: nat, a: nat)
    requires ReadyToSplit(t, n, i, j, a)
    ensures SlotOk(Split(t, i, j, a), n, NextFull(t, n, i), i)
  {
    SplitSlotFacts(t, n, i, j, a);
    assert Split(t, i, j, a).slots[i] == SlotAfter(t, i, j, i);
    HalvesKeys(t.slots[i], |t.slots|, ParentSlot(t, i), n);
    LeftHalfChilds(t, n, i, j, a);
    SplitRoot(t, n, i, j, a);
    LinkedToParent(t, n, i, j, a);
  }

  /** No slot occurs twice among the children. */
  lemma {:induction false} KidsDistinct(t: Tree, n: nat, i: nat, j: nat, a: nat, k: nat, k': nat)
    requires ReadyToSplit(t, n, i, j, a) && k < k' < |t.slots[i].childs|
    ensures t.slots[i].childs[k] != t.slots[i].childs[k']
  {
    SplitSlotFacts(t, n, i, j, a);
    var s := t.slots[i];
    assert ChildFits(t.slots[s.childs[k]], s, i, k);
    assert ChildFits(t.slots[s.childs[k']], s, i, k');
    assert k < k' - 1 ==> s.vals[k].key < s.vals[k' - 1].key;
    assert k > 0 ==> s.vals[k - 1].key < s.vals[k' - 1].key;
  }

  lemma {:induction false} NotMoved(t: Tree, n: nat, i: nat, j: nat, a: nat, k: nat)
    requires ReadyToSplit(t, n, i, j, a) && k < |t.slots[i].childs| / 2
    ensures t.slots[i].childs[k] !in Moved(t.slots[i])
  {
    var s := t.slots[i];
    forall m | 0 <= m < |Moved(s)|
      ensures Moved(s)[m] != s.childs[k]
    {
      KidsDistinct(t, n, i, j, a, k, |s.childs| / 2 + m);
    }
  }

  /** Root and heights after the split. */
  lemma {:induction false} SplitRoot(t: Tree, n: nat, i: nat, j: nat, a: nat)
    requires ReadyToSplit(t, n, i, j, a)
    ensures var t' := Split(t, i, j, a);
            && RootOk(t')
            && t'.slots[t'.root].height == t.slots[t.root].height + if i == t.root then 1 else 0
  {
    SplitSlotFacts(t, n, i, j, a);
    var t' := Split(t, i, j, a);
    assert t'.slots[t'.root] == SlotAfter(t, i, j, t'.root);
    if i != t.root && t.root in Moved(t.slots[i]) {
      MovedFacts(t, n, i, j, a, t.root);
      KidFacts(t, n, i, j, a, t.root);
    }
  }

  /** Both halves are children of the parent slot. */
  lemma {:induction false} LinkedToParent(t: Tree, n: nat, i: nat, j: nat, a: nat)
    requires ReadyToSplit(t, n, i, j, a)
    ensures var t', q := Split(t, i, j, a), ParentSlot(t, i);
            && InTree(t', q) && t'.slots[q] == GrownParent(t, i, j) && !t'.slots[q].isLeaf
            && i in t'.slots[q].childs && |t.slots| in t'.slots[q].childs
  {
    SplitSlotFacts(t, n, i, j, a);
    var t', q := Split(t, i, j, a), ParentSlot(t, i);
    assert t'.slots[q] == SlotAfter(t, i, j, q);
    if i != t.root {
      assert t'.slots[q].childs[j] == i && t'.slots[q].childs[j + 1] == |t.slots|;
    } else {
      assert t'.slots[q].childs[0] == i && t'.slots[q].childs[1] == |t.slots|;
    }
  }

  lemma {:induction false} RightHalfChild(t: Tree, n: nat, i: nat, j: nat, a: nat, k: nat)
    requires ReadyToSplit(t, n, i, j, a) && !t.slots[i].isLeaf && k < n
    ensures |t.slots[i].childs| == 2 * n
    ensures var t', c, x := Split(t, i, j, a), |t.slots|, t.slots[i].childs[n + k];
            && InTree(t', x)
            && |t'.slots[c].vals| == n - 1
            && ChildFits(t'.slots[x], t'.slots[c], c, k)
  {
    SplitSlotFacts(t, n, i, j, a);
    var s, t', c := t.slots[i], Split(t, i, j, a), |t.slots|;
    var x := s.childs[n + k];
    assert t'.slots[c] == SlotAfter(t, i, j, c) && t'.slots[x] == SlotAfter(t, i, j, x);
    assert Moved(s)[k] == x;
    KidFacts(t, n, i, j, a, x);
    assert ChildFits(t.slots[x], s, i, n + k);
  }

  lemma {:induction false} RightHalfChilds(t: Tree, n: nat, i: nat, j: nat, a: nat)
    requires ReadyToSplit(t, n, i, j, a)
    ensures ChildsOk(Split(t, i, j, a), |t.slots|)
  {
    SplitSlotFacts(t, n, i, j, a);
    var s, t', c := t.slots[i], Split(t, i, j, a), |t.slots|;
    var r := t'.slots[c];
    assert r == SlotAfter(t, i, j, c);
    if !s.isLeaf {
      forall k | 0 <= k < |r.childs|
        ensures InTree(t', r.childs[k]) && ChildFits(t'.slots[r.childs[k]], r, c, k)
      {
        RightHalfChild(t, n, i, j, a, k);
        assert r.childs[k] == s.childs[n + k];
      }
    }
  }

  lemma {:induction false} RightHalfOk(t: Tree, n: nat, i: nat, j: nat, a: nat)
    requires ReadyToSplit(t, n, i, j, a)
    ensures SlotOk(Split(t, i, j, a), n, NextFull(t, n, i), |t.slots|)
  {
    SplitSlotFacts(t, n, i, j, a);
    assert Split(t, i, j, a).slots[|t.slots|] == SlotAfter(t, i, j, |t.slots|);
    HalvesKeys(t.slots[i], |t.slots|, ParentSlot(t, i), n);
    RightHalfChilds(t, n, i, j, a);
    SplitRoot(t, n, i, j, a);
    LinkedToParent(t, n, i, j, a);
  }

  /** The separator lies strictly between its new neighbours in the parent. */
  lemma {:induction false} GrownParentKeys(t: Tree, n: nat, i: nat, j: nat, a: nat)
    requires ReadyToSplit(t, n, i, j, a)
    ensures KeysOk(GrownParent(t, i, j))
    ensures i != t.root ==> var p, k := t.slots[t.slots[i].parent], Middle(t.slots[i]).key;
                            AllBelow(p.vals[..j], k) && AllAbove(p.vals[j..], k)
  {
    SplitSlotFacts(t, n, i, j, a);
    var s := t.slots[i];
    assert s.vals[0].key < Middle(s).key;
    if i != t.root {
      var p := t.slots[s.parent];
      assert forall k :: 0 <= k < j ==> p.vals[k].key <= p.vals[j - 1].key;
      assert forall k :: j <= k < |p.vals| ==> p.vals[j].key <= p.vals[k].key;
      InsertAtAscending(p.vals, j, Middle(s));
    }
  }

  lemma {:induction false} GrownParentChild(t: Tree, n: nat, i: nat, j: nat, a: nat, k: nat)
    requires ReadyToSplit(t, n, i, j, a) && i != t.root
    requires k <= |t.slots[t.slots[i].parent].childs|
    ensures var t', p := Split(t, i, j, a), t.slots[i].parent;
            && InTree(t', p) && |t'.slots[p].childs| == |t.slots[p].childs| + 1 == |t'.slots[p].vals| + 1
            && InTree(t', t'.slots[p].childs[k])
            && ChildFits(t'.slots[t'.slots[p].childs[k]], t'.slots[p], p, k)
  {
    if k == j || k == j + 1 {
      GrownParentHalf(t, n, i, j, a, k);
    } else {
      GrownParentSibling(t, n, i, j, a, k, if k < j then k else k - 1);
    }
  }

  /** The other children of the parent moved by one place or not at all. */
  lemma {:induction false} GrownParentSibling(t: Tree, n: nat, i: nat, j: nat, a: nat, k: nat, k0: nat)
    requires ReadyToSplit(t, n, i, j, a) && i != t.root
    requires k0 < |t.slots[t.slots[i].parent].childs| && k0 != j && k == if k0 < j then k0 else k0 + 1
    ensures var t', p := Split(t, i, j, a), t.slots[i].parent;
            && InTree(t', p) && |t'.slots[p].childs| == |t.slots[p].childs| + 1 == |t'.slots[p].vals| + 1
            && k < |t'.slots[p].childs| && InTree(t', t'.slots[p].childs[k])
            && ChildFits(t'.slots[t'.slots[p].childs[k]], t'.slots[p], p, k)
  {
    LinkedToParent(t, n, i, j, a);
    SplitSlotFacts(t, n, i, j, a);
    SiblingKept(t, n, i, j, a, k0);
    var p := t.slots[i].parent;
    var s, g := t.slots[p], Split(t, i, j, a).slots[p];
    assert g.childs[k] == s.childs[k0];
    SepShift(s, g, j, Middle(t.slots[i]), k0, k);
  }

  /** A new separator leaves the bounds of the other children as they are. */
  lemma {:induction false} SepShift(s: Slot, g: Slot, j: nat, e: Entry, k0: nat, k: nat)
    requires j <= |s.vals| && g.vals == InsertAt(s.vals, j, e) && g.lo == s.lo && g.hi == s.hi
    requires k0 <= |s.vals| && k0 != j && k == if k0 < j then k0 else k0 + 1
    ensures SepLo(g, k) == SepLo(s, k0) && SepHi(g, k) == SepHi(s, k0)
  {
  }

  /** The two halves are children of the parent. */
  lemma {:induction false} GrownParentHalf(t: Tree, n: nat, i: nat, j: nat, a: nat, k: nat)
    requires ReadyToSplit(t, n, i, j, a) && i != t.root
    requires k == j || k == j + 1
    ensures var t', p := Split(t, i, j, a), t.slots[i].parent;
            && InTree(t', p) && |t'.slots[p].childs| == |t.slots[p].childs| + 1 == |t'.slots[p].vals| + 1
            && k < |t'.slots[p].childs| && InTree(t', t'.slots[p].childs[k])
            && ChildFits(t'.slots[t'.slots[p].childs[k]], t'.slots[p], p, k)
  {
    LinkedToParent(t, n, i, j, a);
    SplitSlotFacts(t, n, i, j, a);
    var t', c, p := Split(t, i, j, a), |t.slots|, t.slots[i].parent;
    var g := t'.slots[p];
    if k == j {
      assert g.childs[k] == i && t'.slots[i] == SlotAfter(t, i, j, i);
    } else {
      assert g.childs[k] == c && t'.slots[c] == SlotAfter(t, i, j, c);
    }
  }

  lemma {:induction false} GrownParentChilds(t: Tree, n: nat, i: nat, j: nat, a: nat)
    requires ReadyToSplit(t, n, i, j, a)
    ensures ChildsOk(Split(t, i, j, a), ParentSlot(t, i))
  {
    LinkedToParent(t, n, i, j, a);
    SplitSlotFacts(t, n, i, j, a);
    var t', q, c := Split(t, i, j, a), ParentSlot(t, i), |t.slots|;
    if i == t.root {
      assert t'.slots[i] == SlotAfter(t, i, j, i) && t'.slots[c] == SlotAfter(t, i, j, c);
    } else {
      forall k | 0 <= k < |t'.slots[q].childs|
        ensures InTree(t', t'.slots[q].childs[k]) && ChildFits(t'.slots[t'.slots[q].childs[k]], t'.slots[q], q, k)
      {
        GrownParentChild(t, n, i, j, a, k);
      }
    }
  }

  /** Another child of the parent is not touched by the split. */
  lemma {:induction false} SiblingKept(t: Tree, n: nat, i: nat, j: nat, a: nat, k: nat)
    requires ReadyToSplit(t, n, i, j, a) && i != t.root
    requires k < |t.slots[t.slots[i].parent].childs| && k != j
    ensures var p := t.slots[i].parent;
            var x := t.slots[p].childs[k];
            && InTree(t, x) && k <= |t.slots[p].vals| && ChildFits(t.slots[x], t.slots[p], p, k)
            && Split(t, i, j, a).slots[x] == t.slots[x]
  {
    SplitSlotFacts(t, n, i, j, a);
    var p := t.slots[i].parent;
    var s, x := t.slots[p], t.slots[p].childs[k];
    assert ChildFits(t.slots[x], s, p, k);
    assert ChildFits(t.slots[i], s, p, j);
    assert Split(t, i, j, a).slots[x] == SlotAfter(t, i, j, x);
    assert k < j ==> s.vals[k].key <= s.vals[j - 1].key;
    assert j < k ==> s.vals[j].key <= s.vals[k - 1].key;
    if x in Moved(t.slots[i]) {
      MovedFacts(t, n, i, j, a, x);
      KidFacts(t, n, i, j, a, x);
    }
  }

  lemma {:induction false} GrownParentOk(t: Tree, n: nat, i: nat, j: nat, a: nat)
    requires ReadyToSplit(t, n, i, j, a)
    ensures SlotOk(Split(t, i, j, a), n, NextFull(t, n, i), ParentSlot(t, i))
  {
    SplitSlotFacts(t, n, i, j, a);
    SplitRoot(t, n, i, j, a);
    LinkedToParent(t, n, i, j, a);
    GrownParentKeys(t, n, i, j, a);
    GrownParentChilds(t, n, i, j, a);
  }

  /** A slot that is neither half nor the parent keeps everything except, if it moved, its parent. */
  ghost predicate Bystander(t: Tree, i: nat, x: nat)
    requires InTree(t, i)
  {
    InTree(t, x) && x != i && x != ParentSlot(t, i)
  }

  /** What the split changes in a bystander or in the parent, as seen from above. */
  lemma {:induction false} SeenFromAbove(t: Tree, n: nat, i: nat, j: nat, a: nat, x: nat)
    requires ReadyToSplit(t, n, i, j, a) && InTree(t, x) && x != i
    ensures var y, y' := t.slots[x], Split(t, i, j, a).slots[x];
            && y'.lo == y.lo && y'.hi == y.hi && y'.height == y.height && y'.isLeaf == y.isLeaf
            && y'.next == y.next
            && (y.isLeaf ==> y'.vals == y.vals)
            && (y.parent != i ==> y'.parent == y.parent)
  {
    SplitSlotFacts(t, n, i, j, a);
    assert Split(t, i, j, a).slots[x] == SlotAfter(t, i, j, x);
    if x in Moved(t.slots[i]) {
      MovedFacts(t, n, i, j, a, x);
      KidFacts(t, n, i, j, a, x);
    }
  }

  lemma {:induction false} BystanderChilds(t: Tree, n: nat, i: nat, j: nat, a: nat, x: nat)
    requires ReadyToSplit(t, n, i, j, a) && Bystander(t, i, x)
    ensures ChildsOk(Split(t, i, j, a), x)
  {
    SplitSlotFacts(t, n, i, j, a);
    assert SlotOk(t, n, i, x);
    var s, t' := t.slots[x], Split(t, i, j, a);
    assert t'.slots[x] == SlotAfter(t, i, j, x);
    forall k | 0 <= k < |s.childs|
      ensures InTree(t', s.childs[k]) && (!s.isLeaf ==> ChildFits(t'.slots[s.childs[k]], s, x, k))
    {
      assert !s.isLeaf ==> ChildFits(t.slots[s.childs[k]], s, x, k);
      SeenFromAbove(t, n, i, j, a, s.childs[k]);
    }
  }

  lemma {:induction false} BystanderParent(t: Tree, n: nat, i: nat, j: nat, a: nat, x: nat)
    requires ReadyToSplit(t, n, i, j, a) && Bystander(t, i, x)
    ensures ParentOk(Split(t, i, j, a), x)
  {
    SplitSlotFacts(t, n, i, j, a);
    assert SlotOk(t, n, i, x);
    var s, t', c := t.slots[x], Split(t, i, j, a), |t.slots|;
    assert t'.slots[x] == SlotAfter(t, i, j, x) && t'.slots[c] == SlotAfter(t, i, j, c);
    if x in Moved(t.slots[i]) {
      MovedFacts(t, n, i, j, a, x);
      KidFacts(t, n, i, j, a, x);
    } else if s.parent == i {
      assert t'.slots[i] == SlotAfter(t, i, j, i);
      StaysLeft(t.slots[i], x);
    } else if x != t.root {
      StaysChild(t, n, i, j, a, x);
    }
  }

  lemma {:induction false} KeepsChild(cs: seq<nat>, d: nat, c: nat, x: nat)
    requires d <= |cs| && x in cs
    ensures x in InsertAt(cs, d, c)
  {
    var k :| 0 <= k < |cs| && cs[k] == x;
    assert InsertAt(cs, d, c)[if k < d then k else k + 1] == x;
  }

  /** A child of another node than the one split is one still. */
  lemma {:induction false} StaysChild(t: Tree, n: nat, i: nat, j: nat, a: nat, x: nat)
    requires ReadyToSplit(t, n, i, j, a) && InTree(t, x) && x != t.root && t.slots[x].parent != i
    ensures var t', p := Split(t, i, j, a), t.slots[x].parent;
            InTree(t', p) && !t'.slots[p].isLeaf && x in t'.slots[p].childs
  {
    SplitSlotFacts(t, n, i, j, a);
    assert SlotOk(t, n, i, x);
    var p, t' := t.slots[x].parent, Split(t, i, j, a);
    assert t'.slots[p] == SlotAfter(t, i, j, p);
    if p == ParentSlot(t, i) {
      KeepsChild(t.slots[p].childs, j + 1, |t.slots|, x);
    } else if p in Moved(t.slots[i]) {
      MovedFacts(t, n, i, j, a, p);
      KidFacts(t, n, i, j, a, p);
    }
  }

  lemma {:induction false} StaysLeft(s: Slot, x: nat)
    requires x in s.childs && x !in Moved(s)
    ensures x in s.childs[..|s.childs| / 2]
  {
    assert s.childs == s.childs[..|s.childs| / 2] + Moved(s);
  }

  lemma {:induction false} BystanderOk(t: Tree, n: nat, i: nat, j: nat, a: nat, x: nat)
    requires ReadyToSplit(t, n, i, j, a) && Bystander(t, i, x)
    ensures SlotOk(Split(t, i, j, a), n, NextFull(t, n, i), x)
  {
    SplitSlotFacts(t, n, i, j, a);
    assert SlotOk(t, n, i, x);
    assert Split(t, i, j, a).slots[x] == SlotAfter(t, i, j, x);
    SplitRoot(t, n, i, j, a);
    BystanderChilds(t, n, i, j, a, x);
    BystanderParent(t, n, i, j, a, x);
  }

  lemma {:induction false} SplitSlotsOk(t: Tree, n: nat, i: nat, j: nat, a: nat)
    requires ReadyToSplit(t, n, i, j, a)
    ensures SlotsOk(Split(t, i, j, a), n, NextFull(t, n, i))
  {
    var t' := Split(t, i, j, a);
    forall x: nat | InTree(t', x)
      ensures SlotOk(t', n, NextFull(t, n, i), x)
    {
      if x == i {
        LeftHalfOk(t, n, i, j, a);
      } else if x == |t.slots| {
        RightHalfOk(t, n, i, j, a);
      } else if x == ParentSlot(t, i) {
        GrownParentOk(t, n, i, j, a);
      } else {
        BystanderOk(t, n, i, j, a, x);
      }
    }
  }

  // The leaf chain after the split.

  lemma {:induction false} SplitLeafOk(t: Tree, n: nat, i: nat, j: nat, a: nat, b: nat)
    requires ReadyToSplit(t, n, i, j, a) && t.slots[i].isLeaf && b <= |t.leaves|
    ensures LeafOk(Split(t, i, j, a), b)
  {
    if b == a || b == a + 1 {
      HalfLeafOk(t, n, i, j, a, b);
    } else {
      OtherLeafOk(t, n, i, j, a, b, if b < a then b else b - 1);
    }
  }

  lemma {:induction false} HalfLeafOk(t: Tree, n: nat, i: nat, j: nat, a: nat, b: nat)
    requires ReadyToSplit(t, n, i, j, a) && t.slots[i].isLeaf && (b == a || b == a + 1)
    ensures LeafOk(Split(t, i, j, a), b)
  {
    SplitSlotFacts(t, n, i, j, a);
    var t', c := Split(t, i, j, a), |t.slots|;
    assert t'.slots[i] == SlotAfter(t, i, j, i) && t'.slots[c] == SlotAfter(t, i, j, c);
    assert t'.leaves[a] == i && t'.leaves[a + 1] == c;
    assert LeafOk(t, a);
    if a + 1 < |t.leaves| {
      assert LeafOk(t, a + 1) && t'.leaves[a + 2] == t.leaves[a + 1];
      OtherLeafKept(t, n, i, j, a, a + 1);
    }
  }

  lemma {:induction false} OtherLeafOk(t: Tree, n: nat, i: nat, j: nat, a: nat, b: nat, b0: nat)
    requires ReadyToSplit(t, n, i, j, a) && t.slots[i].isLeaf
    requires b0 < |t.leaves| && b0 != a && b == if b0 < a then b0 else b0 + 1
    ensures LeafOk(Split(t, i, j, a), b)
  {
    var t' := Split(t, i, j, a);
    assert LeafOk(t, b0) && t'.leaves[b] == t.leaves[b0];
    OtherLeafKept(t, n, i, j, a, b0);
    if b0 + 1 < |t.leaves| {
      assert LeafOk(t, b0 + 1) && t'.leaves[b + 1] == t.leaves[b0 + 1];
      if b0 + 1 == a {
        assert t'.slots[i] == SlotAfter(t, i, j, i);
      } else {
        OtherLeafKept(t, n, i, j, a, b0 + 1);
      }
    }
  }

  /** Any other leaf keeps what its neighbours see of it. */
  lemma {:induction false} OtherLeafKept(t: Tree, n: nat, i: nat, j: nat, a: nat, b: nat)
    requires ReadyToSplit(t, n, i, j, a) && t.slots[i].isLeaf && b < |t.leaves|
    ensures InTree(t, t.leaves[b])
    ensures b != a ==>
              var x, t' := t.leaves[b], Split(t, i, j, a);
              && t'.slots[x].lo == t.slots[x].lo && t'.slots[x].hi == t.slots[x].hi
              && t'.slots[x].next == t.slots[x].next && t'.slots[x].isLeaf
  {
    assert LeafOk(t, b);
    if b != a {
      SeenFromAbove(t, n, i, j, a, t.leaves[b]);
    }
  }

  lemma {:induction false} SplitInnerLeafOk(t: Tree, n: nat, i: nat, j: nat, a: nat, b: nat)
    requires ReadyToSplit(t, n, i, j, a) && !t.slots[i].isLeaf && b < |t.leaves|
    ensures LeafOk(Split(t, i, j, a), b)
  {
    assert LeafOk(t, b);
    SeenFromAbove(t, n, i, j, a, t.leaves[b]);
    if b + 1 < |t.leaves| {
      assert LeafOk(t, b + 1);
      SeenFromAbove(t, n, i, j, a, t.leaves[b + 1]);
    }
  }

  lemma {:induction false} SplitLeavesComplete(t: Tree, n: nat, i: nat, j: nat, a: nat, x: nat)
    requires ReadyToSplit(t, n, i, j, a)
    ensures var t' := Split(t, i, j, a); InTree(t', x) && t'.slots[x].isLeaf ==> x in t'.leaves
  {
    SplitSlotFacts(t, n, i, j, a);
    LinkedToParent(t, n, i, j, a);
    var t', c := Split(t, i, j, a), |t.slots|;
    assert t'.slots[c] == SlotAfter(t, i, j, c);
    if InTree(t', x) && t'.slots[x].isLeaf {
      if x == c {
        assert t'.leaves[a + 1] == c;
      } else {
        assert t.slots[x].isLeaf by {
          if x != i { SeenFromAbove(t, n, i, j, a, x); }
        }
        assert x in t.leaves;
        var b :| 0 <= b < |t.leaves| && t.leaves[b] == x;
        assert t.slots[i].isLeaf ==> t'.leaves[if b <= a then b else b + 1] == x;
      }
    }
  }

  lemma {:induction false} SplitLeavesOk(t: Tree, n: nat, i: nat, j: nat, a: nat)
    requires ReadyToSplit(t, n, i, j, a)
    ensures LeavesOk(Split(t, i, j, a))
  {
    var t' := Split(t, i, j, a);
    forall b: nat | b < |t'.leaves|
      ensures LeafOk(t', b)
    {
      if t.slots[i].isLeaf {
        SplitLeafOk(t, n, i, j, a, b);
      } else {
        SplitInnerLeafOk(t, n, i, j, a, b);
      }
    }
    forall x: nat | InTree(t', x) && t'.slots[x].isLeaf
      ensures x in t'.leaves
    {
      SplitLeavesComplete(t, n, i, j, a, x);
    }
    SplitLeavesDistinct(t, n, i, j, a);
  }

  lemma {:induction false} InsertDistinct(ls: seq<nat>, d: nat, c: nat)
    requires d <= |ls| && (forall a, b :: 0 <= a < b < |ls| ==> ls[a] != ls[b])
    requires forall a :: 0 <= a < |ls| ==> ls[a] < c
    ensures var r := InsertAt(ls, d, c);
            && (forall a, b :: 0 <= a < b < |r| ==> r[a] != r[b])
            && forall a :: 0 <= a < |r| ==> r[a] <= c
  {
  }

  lemma {:induction false} SplitLeavesDistinct(t: Tree, n: nat, i: nat, j: nat, a: nat)
    requires ReadyToSplit(t, n, i, j, a)
    ensures var t' := Split(t, i, j, a);
            && |t'.leaves| > 0 && t'.leaves[0] == 1 && LeavesInRange(t')
            && forall b, d :: 0 <= b < d < |t'.leaves| ==> t'.leaves[b] != t'.leaves[d]
  {
    assert LeavesOk(t);
    if t.slots[i].isLeaf {
      InsertDistinct(t.leaves, a + 1, |t.slots|);
    }
  }

  /** Splitting an overflowing node restores the invariant, except that its parent may overflow in turn. */
  lemma {:induction false} SplitInv(t: Tree, n: nat, i: nat, j: nat, a: nat)
    requires ReadyToSplit(t, n, i, j, a)
    ensures Inv(Split(t, i, j, a), n, NextFull(t, n, i))
  {
    SplitRoot(t, n, i, j, a);
    SplitSlotsOk(t, n, i, j, a);
    SplitLeavesOk(t, n, i, j, a);
    SplitSlotFacts(t, n, i, j, a);
  }
}
