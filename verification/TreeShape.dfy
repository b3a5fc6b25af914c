/**
 The B+ tree of include/btree.hpp as a value: the used slots of the node arena, each slot
 annotated with the key interval it is responsible for and its height, and the order of the leaves.
 */
module TreeShape {
  import opened Entries

  /** An end of a key interval: a key, or unbounded on that side. */
  datatype Bound = Open | At(key: int)

  predicate AtLeast(key: int, lo: Bound) { lo.At? ==> lo.key <= key }
  predicate Under(key: int, hi: Bound) { hi.At? ==> key < hi.key }

  /**
   One arena slot. `vals`, `childs`, `isLeaf`, `parent` and `next` are what the node holds;
   keys of its subtree lie in [lo, hi), and `height` is its distance to the leaves.
   */
  datatype Slot = Slot(vals: seq<Entry>, childs: seq<nat>, isLeaf: bool, parent: nat, next: nat,
                       lo: Bound, hi: Bound, height: nat)

  /** Slot 0 is the null reference; slots 1 .. |slots| - 1 are the nodes made so far. */
  datatype Tree = Tree(slots: seq<Slot>, root: nat, leaves: seq<nat>)

  ghost predicate InTree(t: Tree, i: nat) { 0 < i < |t.slots| }

  // ---- the invariant, part by part ----

  /** Keys strictly ascend and lie in the slot's interval; a bounded leaf starts exactly at its lower bound. */
  ghost predicate KeysOk(s: Slot) {
    && Ascending(s.vals)
    && (forall j :: 0 <= j < |s.vals| ==> AtLeast(s.vals[j].key, s.lo) && Under(s.vals[j].key, s.hi))
    && (s.isLeaf && s.lo.At? ==> |s.vals| > 0 && s.vals[0].key == s.lo.key)
  }

  /** Array bounds and minimal fill; only a slot that is `full` and about to be split may reach the upper limit. */
  ghost predicate SizeOk(s: Slot, n: nat, isRoot: bool, full: bool) {
    if s.isLeaf then
      && s.childs == []
      && (if full then |s.vals| == 2 * n else |s.vals| < 2 * n)
      && (!isRoot ==> n <= |s.vals|)
    else
      && |s.childs| == |s.vals| + 1
      && (if full then |s.vals| == 2 * n - 1 else |s.vals| < 2 * n - 1)
      && (if isRoot then 1 <= |s.vals| else n - 1 <= |s.vals|)
  }

  /** Lower and upper key bound of the j-th child. */
  function SepLo(s: Slot, j: nat): Bound
    requires j <= |s.vals|
  {
    if j == 0 then s.lo else At(s.vals[j - 1].key)
  }

  function SepHi(s: Slot, j: nat): Bound
    requires j <= |s.vals|
  {
    if j == |s.vals| then s.hi else At(s.vals[j].key)
  }

  /** Slot `c` is what the j-th child of `s` (in slot `i`) has to be. */
  ghost predicate ChildFits(c: Slot, s: Slot, i: nat, j: nat)
    requires j <= |s.vals|
  {
    c.parent == i && c.height + 1 == s.height && c.lo == SepLo(s, j) && c.hi == SepHi(s, j)
  }

  ghost predicate ChildsOk(t: Tree, i: nat)
    requires InTree(t, i)
  {
    var s := t.slots[i];
    !s.isLeaf ==>
      && |s.childs| == |s.vals| + 1
      && forall j :: 0 <= j < |s.childs| ==> InTree(t, s.childs[j]) && ChildFits(t.slots[s.childs[j]], s, i, j)
  }

  /** The parent link is the inverse of a child link; only the root has none. */
  ghost predicate ParentOk(t: Tree, i: nat)
    requires InTree(t, i)
  {
    var p := t.slots[i].parent;
    && (i == t.root <==> p == 0)
    && (i != t.root ==> InTree(t, p) && !t.slots[p].isLeaf && i in t.slots[p].childs)
  }

  ghost predicate SlotOk(t: Tree, n: nat, full: nat, i: nat)
    requires InTree(t, i)
  {
    var s := t.slots[i];
    && KeysOk(s)
    && SizeOk(s, n, i == t.root, i == full)
    && (s.isLeaf <==> s.height == 0)
    && InTree(t, t.root) && s.height <= t.slots[t.root].height
    && ChildsOk(t, i)
    && ParentOk(t, i)
  }

  ghost predicate SlotsOk(t: Tree, n: nat, full: nat) {
    forall i: nat {:trigger SlotOk(t, n, full, i)} :: InTree(t, i) ==> SlotOk(t, n, full, i)
  }

  /** The leaf at place `a` of the leaf order links to the next one and its interval ends where that one starts. */
  ghost predicate LeafOk(t: Tree, a: nat)
    requires a < |t.leaves|
  {
    var i := t.leaves[a];
    && InTree(t, i)
    && t.slots[i].isLeaf
    && (t.slots[i].lo.At? <==> a > 0)
    && (if a + 1 < |t.leaves| then
          && t.slots[i].next == t.leaves[a + 1]
          && InTree(t, t.leaves[a + 1])
          && t.slots[i].hi == t.slots[t.leaves[a + 1]].lo
        else
          && t.slots[i].next == 0
          && t.slots[i].hi == Open)
  }

  ghost predicate LeavesInRange(t: Tree) {
    forall a :: 0 <= a < |t.leaves| ==> t.leaves[a] < |t.slots|
  }

  /** The `next` chain from slot 1 passes every leaf exactly once. */
  ghost predicate LeavesOk(t: Tree) {
    && |t.leaves| > 0
    && t.leaves[0] == 1
    && LeavesInRange(t)
    && (forall a :: 0 <= a < |t.leaves| ==> LeafOk(t, a))
    && (forall a, b :: 0 <= a < b < |t.leaves| ==> t.leaves[a] != t.leaves[b])
    && (forall i: nat {:trigger i in t.leaves} :: InTree(t, i) && t.slots[i].isLeaf ==> i in t.leaves)
  }

  ghost predicate RootOk(t: Tree) {
    InTree(t, t.root) && t.slots[t.root].lo == Open && t.slots[t.root].hi == Open
  }

  /**
   The whole invariant. `full` is the slot that overflowed and is to be split next, or 0 when the
   tree is at rest.
   */
  ghost predicate Inv(t: Tree, n: nat, full: nat) {
    && n >= 2
    && RootOk(t)
    && (full != 0 ==> InTree(t, full))
    && SlotsOk(t, n, full)
    && LeavesOk(t)
  }

  // ---- contents ----

  /** All entries of the given leaves, in that order. */
  function EntriesOf(slots: seq<Slot>, leaves: seq<nat>): seq<Entry>
    requires forall a :: 0 <= a < |leaves| ==> leaves[a] < |slots|
  {
    if leaves == [] then [] else slots[leaves[0]].vals + EntriesOf(slots, leaves[1..])
  }

  /** The contents of the tree: the entries met when following the leaf chain. */
  ghost function Contents(t: Tree): seq<Entry>
    requires LeavesInRange(t)
  {
    EntriesOf(t.slots, t.leaves)
  }

  /** A fresh tree: `init_cache` makes slot 1 an empty leaf, which is also the root. */
  function EmptyTree(): Tree {
    var s := Slot([], [], true, 0, 0, Open, Open, 0);
    Tree([s.(isLeaf := false), s], 1, [1])
  }

  lemma {:induction false} EmptyTreeInv(n: nat)
    requires n >= 2
    ensures Inv(EmptyTree(), n, 0) && Contents(EmptyTree()) == []
  {
    var t := EmptyTree();
    assert t.leaves[1..] == [];
    assert EntriesOf(t.slots, t.leaves[1..]) == [];
  }
}
