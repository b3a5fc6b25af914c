/** How many arena slots the tree uses, as a function of the number of entries and the node size. */
module TreeSize {
  import opened Entries
  import opened TreeShape
  import opened TreeSteps
  import opened TreeContents

  function Total(xs: seq<nat>): nat {
    if xs == [] then 0 else Total(xs[..|xs| - 1]) + xs[|xs| - 1]
  }

  lemma {:induction false} TotalAppend(xs: seq<nat>, x: nat)
    ensures Total(xs + [x]) == Total(xs) + x
  {
    assert (xs + [x])[..|xs|] == xs;
  }

  lemma {:induction false} TotalUpdate(xs: seq<nat>, i: nat, x: nat)
    requires i < |xs|
    ensures Total(xs[i := x]) + xs[i] == Total(xs) + x
  {
    var k := |xs| - 1;
    if i < k {
      TotalUpdate(xs[..k], i, x);
      assert xs[i := x][..k] == xs[..k][i := x];
    } else {
      assert xs[i := x][..k] == xs[..k];
    }
  }

  function ChildCounts(slots: seq<Slot>): (r: seq<nat>)
    ensures |r| == |slots|
    ensures forall x :: 0 <= x < |r| ==> r[x] == if x == 0 then 0 else |slots[x].childs|
  {
    seq(|slots|, x requires 0 <= x < |slots| => if x == 0 then 0 else |slots[x].childs|)
  }

  function LeafMarks(slots: seq<Slot>): (r: seq<nat>)
    ensures |r| == |slots|
    ensures forall x :: 0 <= x < |r| ==> r[x] == if x > 0 && slots[x].isLeaf then 1 else 0
  {
    seq(|slots|, x requires 0 <= x < |slots| => if x > 0 && slots[x].isLeaf then 1 else 0)
  }

  /** Every node except the root is a child once, and the leaf order lists the leaves. */
  ghost predicate Counted(t: Tree) {
    && |t.slots| >= 2
    && Total(ChildCounts(t.slots)) == |t.slots| - 2
    && Total(LeafMarks(t.slots)) == |t.leaves|
  }

  lemma {:induction false} EmptyTreeCounted()
    ensures Counted(EmptyTree())
  {
    var t := EmptyTree();
    assert ChildCounts(t.slots) == [0] + [0] && LeafMarks(t.slots) == [0] + [1];
    TotalAppend([0], 0);
    TotalAppend([0], 1);
    TotalAppend([], 0);
    assert [] + [0] == [0];
  }

  lemma {:induction false} InsertInLeafCounted(t: Tree, i: nat, d: nat, e: Entry)
    requires Counted(t) && i < |t.slots| && d <= |t.slots[i].vals|
    ensures Counted(InsertInLeaf(t, i, d, e))
  {
    var t' := InsertInLeaf(t, i, d, e);
    assert ChildCounts(t'.slots) == ChildCounts(t.slots);
    assert LeafMarks(t'.slots) == LeafMarks(t.slots);
  }

  /** Slot `i` keeps `l` of its links and a new slot gets the others. */
  function Divided(cs: seq<nat>, i: nat, l: nat): seq<nat>
    requires i < |cs| && l <= cs[i]
  {
    (cs + [cs[i] - l])[i := l]
  }

  function PlusOne(cs: seq<nat>, i: nat): seq<nat>
    requires i < |cs|
  {
    cs[i := cs[i] + 1]
  }

  lemma {:induction false} SplitChildCount(t: Tree, n: nat, i: nat, j: nat, a: nat, x: nat)
    requires ReadyToSplit(t, n, i, j, a) && x < |Split(t, i, j, a).slots|
    ensures var k := |t.slots[i].childs|;
            |Split(t, i, j, a).slots[x].childs| ==
              if x == i then k / 2
              else if x == |t.slots| then k - k / 2
              else if x > |t.slots| then 2
              else if x == ParentSlot(t, i) then |t.slots[x].childs| + 1
              else |t.slots[x].childs|
  {
    SplitSlotFacts(t, n, i, j, a);
    assert Split(t, i, j, a).slots[x] == SlotAfter(t, i, j, x);
  }

  /** Number of child links per slot after a split. */
  lemma {:induction false} SplitChildCounts(t: Tree, n: nat, i: nat, j: nat, a: nat)
    requires ReadyToSplit(t, n, i, j, a)
    ensures var base := Divided(ChildCounts(t.slots), i, |t.slots[i].childs| / 2);
            ChildCounts(Split(t, i, j, a).slots) ==
              if i == t.root then base + [2] else PlusOne(base, t.slots[i].parent)
  {
    var base := Divided(ChildCounts(t.slots), i, |t.slots[i].childs| / 2);
    var r := ChildCounts(Split(t, i, j, a).slots);
    var r' := if i == t.root then base + [2] else PlusOne(base, t.slots[i].parent);
    assert |r| == |r'|;
    SplitSlotFacts(t, n, i, j, a);
    forall x | 0 <= x < |r|
      ensures r[x] == r'[x]
    {
      SplitChildCount(t, n, i, j, a, x);
    }
  }

  lemma {:induction false} SplitLeafMarks(t: Tree, n: nat, i: nat, j: nat, a: nat)
    requires ReadyToSplit(t, n, i, j, a)
    ensures var base := LeafMarks(t.slots) + [if t.slots[i].isLeaf then 1 else 0];
            LeafMarks(Split(t, i, j, a).slots) == if i == t.root then base + [0] else base
  {
    SplitSlotFacts(t, n, i, j, a);
    var t' := Split(t, i, j, a);
    forall x | 0 <= x < |t'.slots|
      ensures t'.slots[x].isLeaf == SlotAfter(t, i, j, x).isLeaf
    {
      assert t'.slots[x] == SlotAfter(t, i, j, x);
    }
  }

  lemma {:induction false} TotalDivided(cs: seq<nat>, i: nat, l: nat)
    requires i < |cs| && l <= cs[i]
    ensures Total(Divided(cs, i, l)) == Total(cs)
  {
    TotalAppend(cs, cs[i] - l);
    TotalUpdate(cs + [cs[i] - l], i, l);
  }

  lemma {:induction false} TotalPlusOne(cs: seq<nat>, i: nat)
    requires i < |cs|
    ensures Total(PlusOne(cs, i)) == Total(cs) + 1
  {
    TotalUpdate(cs, i, cs[i] + 1);
  }

  lemma {:induction false} SplitChildTotal(t: Tree, n: nat, i: nat, j: nat, a: nat)
    requires ReadyToSplit(t, n, i, j, a)
    ensures Total(ChildCounts(Split(t, i, j, a).slots)) ==
            Total(ChildCounts(t.slots)) + if i == t.root then 2 else 1
  {
    SplitChildCounts(t, n, i, j, a);
    var cs, l := ChildCounts(t.slots), |t.slots[i].childs| / 2;
    TotalDivided(cs, i, l);
    if i == t.root {
      TotalAppend(Divided(cs, i, l), 2);
    } else {
      TotalPlusOne(Divided(cs, i, l), t.slots[i].parent);
    }
  }

  lemma {:induction false} SplitLeafTotal(t: Tree, n: nat, i: nat, j: nat, a: nat)
    requires ReadyToSplit(t, n, i, j, a)
    ensures Total(LeafMarks(Split(t, i, j, a).slots)) ==
            Total(LeafMarks(t.slots)) + if t.slots[i].isLeaf then 1 else 0
  {
    SplitLeafMarks(t, n, i, j, a);
    var m := if t.slots[i].isLeaf then 1 else 0;
    TotalAppend(LeafMarks(t.slots), m);
    TotalAppend(LeafMarks(t.slots) + [m], 0);
  }

  lemma {:induction false} SplitCounted(t: Tree, n: nat, i: nat, j: nat, a: nat)
    requires ReadyToSplit(t, n, i, j, a) && Counted(t)
    ensures Counted(Split(t, i, j, a))
  {
    SplitChildTotal(t, n, i, j, a);
    SplitLeafTotal(t, n, i, j, a);
  }

  // ---- the bounds ----

  /** Links counted over the first k slots: at least n per inner slot, except that the root may have two. */
  lemma {:induction false} LinksAtLeast(t: Tree, n: nat, full: nat, k: nat)
    requires Inv(t, n, full) && 1 <= k <= |t.slots|
    ensures Total(ChildCounts(t.slots)[..k]) + (if t.root < k then n - 2 else 0) >=
            n * (k - 1 - Total(LeafMarks(t.slots)[..k])) + (if t.root < k && t.slots[t.root].isLeaf then n - 2 else 0)
  {
    var cs, ms := ChildCounts(t.slots), LeafMarks(t.slots);
    if k == 1 {
      assert cs[..1] == [0] && ms[..1] == [0];
    } else {
      LinksAtLeast(t, n, full, k - 1);
      assert cs[..k][..k - 1] == cs[..k - 1] && ms[..k][..k - 1] == ms[..k - 1];
      assert SlotOk(t, n, full, k - 1);
      OneMore(n, k - 2 - Total(ms[..k - 1]));
    }
  }

  lemma OneMore(n: int, x: int)
    ensures n * (x + 1) == n * x + n
  {
  }

  lemma {:induction false} LeavesFilled(t: Tree, n: nat, full: nat, b: nat)
    requires Inv(t, n, full) && b <= |t.leaves|
    requires forall a :: 0 <= a < |t.leaves| ==> t.leaves[a] != t.root
    ensures Known(t.slots, t.leaves[..b]) && n * b <= |EntriesOf(t.slots, t.leaves[..b])|
  {
    if b > 0 {
      LeavesFilled(t, n, full, b - 1);
      LeafFacts(t, n, full, b - 1);
      assert SlotOk(t, n, full, t.leaves[b - 1]);
      assert t.leaves[..b] == t.leaves[..b - 1] + [t.leaves[b - 1]];
      EntriesConcat(t.slots, t.leaves[..b - 1], [t.leaves[b - 1]]);
      EntriesOne(t.slots, t.leaves[b - 1]);
      OneMore(n, b - 1);
    }
  }

  /** The root is a leaf exactly when it is the only one. */
  lemma {:induction false} RootLeaf(t: Tree, n: nat, full: nat)
    requires Inv(t, n, full)
    ensures |t.leaves| >= 2 ==> forall a :: 0 <= a < |t.leaves| ==> t.leaves[a] != t.root
  {
    if |t.leaves| >= 2 {
      forall a | 0 <= a < |t.leaves|
        ensures t.leaves[a] != t.root
      {
        LeafFacts(t, n, full, a);
        LeafFacts(t, n, full, if a == 0 then 1 else a);
      }
    }
  }

  /** Slot 0 is no leaf, and an inner root is none either; below a leaf root there is nothing else. */
  lemma {:induction false} LeafMarksUpTo(t: Tree, n: nat, full: nat, k: nat)
    requires Inv(t, n, full) && 1 <= k <= |t.slots|
    ensures Total(LeafMarks(t.slots)[..k]) <= k - 1
    ensures t.slots[t.root].isLeaf ==> Total(LeafMarks(t.slots)[..k]) == k - 1
    ensures !t.slots[t.root].isLeaf && t.root < k ==> Total(LeafMarks(t.slots)[..k]) < k - 1
  {
    var ms := LeafMarks(t.slots);
    if k == 1 {
      assert ms[..1] == [0];
    } else {
      LeafMarksUpTo(t, n, full, k - 1);
      assert SlotOk(t, n, full, t.root) && SlotOk(t, n, full, k - 1);
      assert ms[..k][..k - 1] == ms[..k - 1];
    }
  }

  function Inner(t: Tree): int { |t.slots| - 1 - |t.leaves| }

  lemma {:induction false} InnerBound(t: Tree, n: nat, full: nat)
    requires Inv(t, n, full) && Counted(t)
    ensures 0 <= Inner(t)
    ensures Inner(t) >= 1 ==> (Inner(t) - 1) * (n - 1) <= |t.leaves| - 2
    ensures Inner(t) == 0 ==> t.slots[t.root].isLeaf
  {
    var cs, ms := ChildCounts(t.slots), LeafMarks(t.slots);
    assert cs[..|cs|] == cs && ms[..|ms|] == ms;
    LinksAtLeast(t, n, full, |t.slots|);
    LeafMarksUpTo(t, n, full, |t.slots|);
    assert n * Inner(t) == (Inner(t) - 1) * (n - 1) + Inner(t) + n - 1;
  }

  lemma {:induction false} LeafBound(t: Tree, n: nat, full: nat)
    requires Inv(t, n, full)
    ensures LeavesInRange(t)
    ensures |t.leaves| >= 2 ==> |t.leaves| * n <= |Contents(t)|
    ensures t.slots[t.root].isLeaf ==> |t.leaves| == 1
  {
    RootLeaf(t, n, full);
    assert t.leaves[..|t.leaves|] == t.leaves;
    if |t.leaves| >= 2 {
      LeavesFilled(t, n, full, |t.leaves|);
    }
    if t.slots[t.root].isLeaf {
      var a := PlaceOf(t, n, full, t.root);
    }
  }

  /**
   Arena bound: with L leaves and I inner nodes, every slot made is one of them, the leaves are at
   least half full once there are two, and the inner nodes are few compared to the leaves.
   */
  lemma {:induction false} ArenaBound(t: Tree, n: nat, full: nat)
    requires Inv(t, n, full) && Counted(t)
    ensures LeavesInRange(t) && 0 <= Inner(t)
    ensures |t.leaves| >= 2 ==> |t.leaves| * n <= |Contents(t)|
    ensures Inner(t) >= 1 ==> (Inner(t) - 1) * (n - 1) <= |t.leaves| - 2
    ensures |t.slots| <= SlotsFor(|Contents(t)|, n)
  {
    InnerBound(t, n, full);
    LeafBound(t, n, full);
    SlotsEnough(|t.leaves|, Inner(t), |Contents(t)|, n);
  }

  lemma {:induction false} SlotsEnough(leaves: nat, inner: nat, m: nat, n: nat)
    requires n >= 2 && (leaves >= 2 ==> leaves * n <= m)
    requires inner >= 1 ==> (inner - 1) * (n - 1) <= leaves - 2
    requires inner == 0 ==> leaves == 1
    ensures 1 + leaves + inner <= SlotsFor(m, n)
  {
    if inner >= 1 {
      assert 0 <= (inner - 1) * (n - 1);
      MulMonotone(2, leaves, n);
      DivAtLeast(leaves, n, m);
      var q := m / n;
      DivAtLeast(inner - 1, n - 1, q - 2);
      assert SlotsFor(m, n) == 2 + q + (q - 2) / (n - 1);
    }
  }

  /** A number of slots, counting slot 0, that is enough for `m` entries in nodes of order `n`. */
  function SlotsFor(m: nat, n: nat): nat
    requires n >= 2
  {
    if m < 2 * n then 2 else 2 + m / n + (m / n - 2) / (n - 1)
  }

  /** More entries never need fewer slots. */
  lemma SlotsForMonotone(m: nat, m': nat, n: nat)
    requires n >= 2 && m <= m'
    ensures SlotsFor(m, n) <= SlotsFor(m', n)
  {
    if 2 * n <= m {
      DivAtLeast(2, n, m);
      DivMonotone(m, m', n);
      SlotsForHalves(m / n, m' / n, n);
    } else if 2 * n <= m' {
      DivAtLeast(2, n, m');
      SlotsForHalves(2, m' / n, n);
    }
  }

  lemma SlotsForHalves(q: nat, q': nat, n: nat)
    requires n >= 2 && 2 <= q <= q'
    ensures 2 <= 2 + q + (q - 2) / (n - 1) <= 2 + q' + (q' - 2) / (n - 1)
  {
    DivMonotone(q - 2, q' - 2, n - 1);
  }

  lemma DivMonotone(a: nat, b: nat, d: nat)
    requires d > 0 && a <= b
    ensures a / d <= b / d
  {
    assert (a / d) * d <= b;
    DivAtLeast(a / d, d, b);
  }

  lemma MulMonotone(r: int, q: int, d: int)
    requires d >= 0
    ensures r <= q ==> r * d <= q * d
  {
  }

  lemma {:induction false} DivAtLeast(q: nat, d: nat, m: int)
    requires d > 0 && q * d <= m
    ensures q <= m / d
  {
    var r := m / d + 1;
    assert m < r * d;
    MulMonotone(r, q, d);
  }
}
