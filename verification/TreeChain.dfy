/** The leaf chain: following `next` from slot 1 meets every leaf once, in the order of an in-order traversal. */
module TreeChain {
  import opened TreeShape
  import opened TreeContents

  /** The slots met when following `next` from slot `i`, at most `fuel` of them. */
  function Chain(slots: seq<Slot>, i: nat, fuel: nat): seq<nat>
    decreases fuel
  {
    if i == 0 || i >= |slots| || fuel == 0 then [] else [i] + Chain(slots, slots[i].next, fuel - 1)
  }

  lemma {:induction false} ChainFrom(t: Tree, n: nat, full: nat, a: nat, fuel: nat)
    requires Inv(t, n, full) && a < |t.leaves| && |t.leaves| - a <= fuel
    ensures Chain(t.slots, t.leaves[a], fuel) == t.leaves[a..]
    decreases |t.leaves| - a
  {
    LeafFacts(t, n, full, a);
    if a + 1 < |t.leaves| {
      ChainFrom(t, n, full, a + 1, fuel - 1);
      assert t.leaves[a..] == [t.leaves[a]] + t.leaves[a + 1..];
    }
  }

  /** However long one follows `next` from slot 1, one gets the leaves, each once: the chain has no cycle. */
  lemma {:induction false} ChainIsLeaves(t: Tree, n: nat, full: nat, fuel: nat)
    requires Inv(t, n, full) && |t.leaves| <= fuel
    ensures Chain(t.slots, 1, fuel) == t.leaves
    ensures forall i: nat :: i in Chain(t.slots, 1, fuel) <==> InTree(t, i) && t.slots[i].isLeaf
  {
    ChainFrom(t, n, full, 0, fuel);
    forall i | i in t.leaves
      ensures InTree(t, i) && t.slots[i].isLeaf
    {
      var a :| 0 <= a < |t.leaves| && t.leaves[a] == i;
      LeafFacts(t, n, full, a);
    }
  }

  // ---- in-order traversal ----

  /** The leaves below slot `i`, from left to right; `h` is its height. */
  ghost function InOrder(t: Tree, i: nat, h: nat): seq<nat>
    decreases h, 0
  {
    if !InTree(t, i) then []
    else if t.slots[i].isLeaf || h == 0 then [i]
    else InOrderChilds(t, t.slots[i].childs, h)
  }

  ghost function InOrderChilds(t: Tree, cs: seq<nat>, h: nat): seq<nat>
    requires h > 0
    decreases h - 1, |cs| + 1
  {
    if cs == [] then [] else InOrderChilds(t, cs[..|cs| - 1], h) + InOrder(t, cs[|cs| - 1], h - 1)
  }

  /** Leaves a .. b - 1 are those of the key interval [lo, hi). */
  ghost predicate Covers(t: Tree, a: nat, b: nat, lo: Bound, hi: Bound) {
    && a < b <= |t.leaves|
    && InTree(t, t.leaves[a]) && t.slots[t.leaves[a]].lo == lo
    && (if b < |t.leaves| then InTree(t, t.leaves[b]) && t.slots[t.leaves[b]].lo == hi else hi == Open)
  }

  /** The lower bounds of the leaves strictly increase. */
  lemma {:induction false} LowerBoundsIncrease(t: Tree, n: nat, full: nat, a: nat, b: nat)
    requires Inv(t, n, full) && a < b < |t.leaves|
    ensures InTree(t, t.leaves[a]) && InTree(t, t.leaves[b])
    ensures t.slots[t.leaves[b]].lo.At?
    ensures t.slots[t.leaves[a]].lo.At? ==> t.slots[t.leaves[a]].lo.key < t.slots[t.leaves[b]].lo.key
  {
    LeafFacts(t, n, full, a);
    LeafFacts(t, n, full, b);
    LeafFacts(t, n, full, b - 1);
    if a < b - 1 {
      LowerBoundsIncrease(t, n, full, a, b - 1);
    }
  }

  lemma {:induction false} SamePlace(t: Tree, n: nat, full: nat, a: nat, b: nat)
    requires Inv(t, n, full) && a < |t.leaves| && b < |t.leaves|
    requires InTree(t, t.leaves[a]) && InTree(t, t.leaves[b]) && t.slots[t.leaves[a]].lo == t.slots[t.leaves[b]].lo
    ensures a == b
  {
    if a < b {
      LowerBoundsIncrease(t, n, full, a, b);
    } else if b < a {
      LowerBoundsIncrease(t, n, full, b, a);
    }
  }

  /** The leaves below a slot are a stretch of the leaf order: the one of its key interval. */
  lemma {:induction false} InOrderCovers(t: Tree, n: nat, full: nat, i: nat) returns (a: nat, b: nat)
    requires Inv(t, n, full) && InTree(t, i)
    ensures Covers(t, a, b, t.slots[i].lo, t.slots[i].hi)
    ensures InOrder(t, i, t.slots[i].height) == t.leaves[a..b]
    decreases t.slots[i].height, 0
  {
    var s := t.slots[i];
    assert SlotOk(t, n, full, i);
    if s.isLeaf {
      a := PlaceOf(t, n, full, i);
      b := a + 1;
      LeafFacts(t, n, full, a);
      assert t.leaves[a..b] == [i];
    } else {
      a, b := ChildsCover(t, n, full, i, |s.childs|);
      assert s.childs[..|s.childs|] == s.childs;
    }
  }

  lemma {:induction false} ChildsCover(t: Tree, n: nat, full: nat, i: nat, k: nat) returns (a: nat, b: nat)
    requires Inv(t, n, full) && InTree(t, i) && !t.slots[i].isLeaf && 0 < k <= |t.slots[i].childs|
    requires t.slots[i].height > 0 && |t.slots[i].childs| == |t.slots[i].vals| + 1
    ensures Covers(t, a, b, t.slots[i].lo, SepHi(t.slots[i], k - 1))
    ensures InOrderChilds(t, t.slots[i].childs[..k], t.slots[i].height) == t.leaves[a..b]
    decreases t.slots[i].height - 1, k
  {
    var s := t.slots[i];
    assert SlotOk(t, n, full, i);
    var c := s.childs[k - 1];
    assert ChildFits(t.slots[c], s, i, k - 1);
    var a', b' := InOrderCovers(t, n, full, c);
    assert s.childs[..k][..k - 1] == s.childs[..k - 1];
    if k == 1 {
      a, b := a', b';
      assert InOrderChilds(t, s.childs[..0], s.height) == [];
    } else {
      a, b := ChildsCover(t, n, full, i, k - 1);
      assert SepHi(s, k - 2) == SepLo(s, k - 1);
      SamePlace(t, n, full, b, a');
      assert t.leaves[a..b] + t.leaves[b..b'] == t.leaves[a..b'];
      b := b';
    }
  }

  /** The leaf chain is the in-order traversal of the tree. */
  lemma {:induction false} ChainIsInOrder(t: Tree, n: nat, full: nat)
    requires Inv(t, n, full)
    ensures InOrder(t, t.root, t.slots[t.root].height) == t.leaves
  {
    var a, b := InOrderCovers(t, n, full, t.root);
    LeafFacts(t, n, full, a);
    LeafFacts(t, n, full, if b < |t.leaves| then b else 0);
    assert t.leaves[0..|t.leaves|] == t.leaves;
  }
}
