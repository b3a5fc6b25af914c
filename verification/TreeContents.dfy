/** What the tree holds: the entries along the leaf chain, and what the tree steps do to them. */
module TreeContents {
  import opened Entries
  import opened TreeShape
  import opened TreeSteps

  ghost predicate Known(slots: seq<Slot>, ls: seq<nat>) {
    forall a :: 0 <= a < |ls| ==> ls[a] < |slots|
  }

  lemma {:induction false} EntriesConcat(slots: seq<Slot>, l: seq<nat>, r: seq<nat>)
    requires Known(slots, l) && Known(slots, r)
    ensures Known(slots, l + r)
    ensures EntriesOf(slots, l + r) == EntriesOf(slots, l) + EntriesOf(slots, r)
  {
    if l == [] {
      assert l + r == r;
    } else {
      assert (l + r)[1..] == l[1..] + r;
      assert Known(slots, l[1..]);
      EntriesConcat(slots, l[1..], r);
    }
  }

  /** Only the entries of the listed leaves matter. */
  lemma {:induction false} EntriesFrame(slots: seq<Slot>, slots': seq<Slot>, ls: seq<nat>)
    requires Known(slots, ls) && Known(slots', ls)
    requires forall a :: 0 <= a < |ls| ==> slots'[ls[a]].vals == slots[ls[a]].vals
    ensures EntriesOf(slots', ls) == EntriesOf(slots, ls)
  {
    if ls != [] {
      assert forall a :: 0 <= a < |ls| - 1 ==> ls[1..][a] == ls[a + 1];
      EntriesFrame(slots, slots', ls[1..]);
    }
  }

  lemma {:induction false} EntriesOne(slots: seq<Slot>, i: nat)
    requires i < |slots|
    ensures EntriesOf(slots, [i]) == slots[i].vals
  {
    assert [i][1..] == [];
    assert EntriesOf(slots, [i][1..]) == [];
  }

  lemma {:induction false} EntriesAround(slots: seq<Slot>, ls: seq<nat>, a: nat)
    requires Known(slots, ls) && a < |ls|
    ensures Known(slots, ls[..a]) && Known(slots, ls[a + 1..])
    ensures EntriesOf(slots, ls) == EntriesOf(slots, ls[..a]) + slots[ls[a]].vals + EntriesOf(slots, ls[a + 1..])
  {
    var l, m, r := ls[..a], [ls[a]], ls[a + 1..];
    assert Known(slots, l) && Known(slots, m) && Known(slots, r);
    EntriesConcat(slots, m, r);
    EntriesConcat(slots, l, m + r);
    EntriesOne(slots, ls[a]);
    assert ls == l + (m + r);
  }

  /** The contents around the leaf at place `a`. */
  lemma {:induction false} ContentsAround(t: Tree, n: nat, full: nat, a: nat)
    requires Inv(t, n, full) && a < |t.leaves|
    ensures Known(t.slots, t.leaves) && Known(t.slots, t.leaves[..a]) && Known(t.slots, t.leaves[a + 1..])
    ensures Contents(t) ==
            EntriesOf(t.slots, t.leaves[..a]) + t.slots[t.leaves[a]].vals + EntriesOf(t.slots, t.leaves[a + 1..])
  {
    EntriesAround(t.slots, t.leaves, a);
  }

  // ---- order ----

  lemma {:induction false} LeafFacts(t: Tree, n: nat, full: nat, a: nat)
    requires Inv(t, n, full) && a < |t.leaves|
    ensures LeafOk(t, a) && KeysOk(t.slots[t.leaves[a]])
  {
    assert LeafOk(t, a);
    assert SlotOk(t, n, full, t.leaves[a]);
  }

  /** Everything before the leaf at place `b` is smaller than that leaf's lower bound. */
  lemma {:induction false} EntriesBelow(t: Tree, n: nat, full: nat, b: nat, key: int)
    requires Inv(t, n, full) && b <= |t.leaves|
    requires b < |t.leaves| && InTree(t, t.leaves[b]) && AtLeast(key, t.slots[t.leaves[b]].lo)
    ensures Known(t.slots, t.leaves[..b]) && AllBelow(EntriesOf(t.slots, t.leaves[..b]), key)
  {
    if b > 0 {
      LeafFacts(t, n, full, b);
      LeafFacts(t, n, full, b - 1);
      var s := t.slots[t.leaves[b - 1]];
      EntriesBelow(t, n, full, b - 1, if s.lo.At? then s.lo.key else key);
      assert t.leaves[..b] == t.leaves[..b - 1] + [t.leaves[b - 1]];
      EntriesConcat(t.slots, t.leaves[..b - 1], [t.leaves[b - 1]]);
      EntriesOne(t.slots, t.leaves[b - 1]);
    }
  }

  /** Everything after the leaf at place `b` is at least that leaf's upper bound. */
  lemma {:induction false} EntriesAbove(t: Tree, n: nat, full: nat, b: nat, key: int)
    requires Inv(t, n, full) && b < |t.leaves| && InTree(t, t.leaves[b]) && Under(key, t.slots[t.leaves[b]].hi)
    ensures Known(t.slots, t.leaves[b + 1..]) && AllAbove(EntriesOf(t.slots, t.leaves[b + 1..]), key)
    decreases |t.leaves| - b
  {
    LeafFacts(t, n, full, b);
    if b + 1 < |t.leaves| {
      LeafFacts(t, n, full, b + 1);
      EntriesAbove(t, n, full, b + 1, key);
      assert t.leaves[b + 1..] == [t.leaves[b + 1]] + t.leaves[b + 2..];
      EntriesConcat(t.slots, [t.leaves[b + 1]], t.leaves[b + 2..]);
      EntriesOne(t.slots, t.leaves[b + 1]);
    }
  }

  lemma {:induction false} AscendingConcat(l: seq<Entry>, r: seq<Entry>)
    requires Ascending(l) && Ascending(r)
    requires r != [] ==> AllBelow(l, r[0].key)
    ensures Ascending(l + r)
  {
    var s := l + r;
    forall i, j | 0 <= i < j < |s|
      ensures s[i].key < s[j].key
    {
      if i < |l| <= j {
        assert s[i] == l[i] && r[0].key <= r[j - |l|].key;
      }
    }
  }

  lemma {:induction false} PrefixAscending(t: Tree, n: nat, full: nat, b: nat)
    requires Inv(t, n, full) && b <= |t.leaves|
    ensures Known(t.slots, t.leaves[..b]) && Ascending(EntriesOf(t.slots, t.leaves[..b]))
  {
    if b > 0 {
      LeafFacts(t, n, full, b - 1);
      PrefixAscending(t, n, full, b - 1);
      var s := t.slots[t.leaves[b - 1]];
      if s.vals != [] {
        EntriesBelow(t, n, full, b - 1, s.vals[0].key);
      }
      assert t.leaves[..b] == t.leaves[..b - 1] + [t.leaves[b - 1]];
      EntriesConcat(t.slots, t.leaves[..b - 1], [t.leaves[b - 1]]);
      EntriesOne(t.slots, t.leaves[b - 1]);
      AscendingConcat(EntriesOf(t.slots, t.leaves[..b - 1]), s.vals);
    }
  }

  /** The leaf chain lists the entries in strictly increasing key order. */
  lemma {:induction false} ContentsAscending(t: Tree, n: nat, full: nat)
    requires Inv(t, n, full)
    ensures LeavesInRange(t) && Ascending(Contents(t))
  {
    PrefixAscending(t, n, full, |t.leaves|);
    assert t.leaves[..|t.leaves|] == t.leaves;
  }

  // ---- what the steps do to the contents ----

  /** Storing an entry in its leaf is ordered insertion into the contents. */
  lemma {:induction false} InsertInLeafContents(t: Tree, n: nat, a: nat, d: nat, e: Entry)
    requires Inv(t, n, 0) && a < |t.leaves| && FitsLeaf(t, t.leaves[a], d, e)
    ensures LeavesInRange(t) && LeavesInRange(InsertInLeaf(t, t.leaves[a], d, e))
    ensures Contents(InsertInLeaf(t, t.leaves[a], d, e)) == InsertSorted(Contents(t), e)
  {
    var i := t.leaves[a];
    var t' := InsertInLeaf(t, i, d, e);
    InsertInLeafInv(t, n, i, d, e);
    ContentsAround(t, n, 0, a);
    ContentsAround(t', n, if |t.slots[i].vals| + 1 == 2 * n then i else 0, a);
    EntriesFrame(t.slots, t'.slots, t.leaves[..a]);
    EntriesFrame(t.slots, t'.slots, t.leaves[a + 1..]);
    EntriesBelow(t, n, 0, a, e.key);
    EntriesAbove(t, n, 0, a, e.key);
    InsertSortedMiddle(EntriesOf(t.slots, t.leaves[..a]), t.slots[i].vals, EntriesOf(t.slots, t.leaves[a + 1..]),
                       d, e);
  }

  /** Leaves other than slot `i`. */
  ghost predicate OtherLeaves(t: Tree, i: nat, ls: seq<nat>) {
    forall b :: 0 <= b < |ls| ==> InTree(t, ls[b]) && t.slots[ls[b]].isLeaf && ls[b] != i
  }

  lemma {:induction false} SplitFrame(t: Tree, n: nat, i: nat, j: nat, a: nat, ls: seq<nat>)
    requires ReadyToSplit(t, n, i, j, a) && OtherLeaves(t, i, ls)
    ensures Known(t.slots, ls) && Known(Split(t, i, j, a).slots, ls)
    ensures EntriesOf(Split(t, i, j, a).slots, ls) == EntriesOf(t.slots, ls)
  {
    var t' := Split(t, i, j, a);
    forall b | 0 <= b < |ls|
      ensures t'.slots[ls[b]].vals == t.slots[ls[b]].vals
    {
      SeenFromAbove(t, n, i, j, a, ls[b]);
    }
    EntriesFrame(t.slots, t'.slots, ls);
  }

  lemma {:induction false} LeavesAround(t: Tree, n: nat, i: nat, j: nat, a: nat)
    requires ReadyToSplit(t, n, i, j, a)
    ensures !t.slots[i].isLeaf ==> OtherLeaves(t, i, t.leaves)
    ensures t.slots[i].isLeaf ==> OtherLeaves(t, i, t.leaves[..a]) && OtherLeaves(t, i, t.leaves[a + 1..])
  {
    forall b | 0 <= b < |t.leaves|
      ensures InTree(t, t.leaves[b]) && t.slots[t.leaves[b]].isLeaf
    {
      assert LeafOk(t, b);
    }
  }

  lemma {:induction false} SplitLeafOrder(t: Tree, n: nat, i: nat, j: nat, a: nat)
    requires ReadyToSplit(t, n, i, j, a) && t.slots[i].isLeaf
    ensures Split(t, i, j, a).leaves == t.leaves[..a] + [i, |t.slots|] + t.leaves[a + 1..]
  {
  }

  lemma {:induction false} RegroupMiddle(l: seq<Entry>, u: seq<Entry>, v: seq<Entry>, r: seq<Entry>, w: seq<Entry>)
    requires u + v == w
    ensures l + u + v + r == l + w + r
  {
    assert l + u + v == l + (u + v);
  }

  lemma {:induction false} SplitLeafContents(t: Tree, n: nat, i: nat, j: nat, a: nat)
    requires ReadyToSplit(t, n, i, j, a) && t.slots[i].isLeaf
    ensures LeavesInRange(t) && LeavesInRange(Split(t, i, j, a))
    ensures Contents(Split(t, i, j, a)) == Contents(t)
  {
    var t', c := Split(t, i, j, a), |t.slots|;
    var l, r := t.leaves[..a], t.leaves[a + 1..];
    ContentsAround(t, n, i, a);
    LeavesAround(t, n, i, j, a);
    SplitFrame(t, n, i, j, a, l);
    SplitFrame(t, n, i, j, a, r);
    SplitLeafOrder(t, n, i, j, a);
    LeafHalvesJoin(t, n, i, j, a);
    PairContents(t', t, l, i, c, r);
  }

  lemma {:induction false} PairContents(t': Tree, t: Tree, l: seq<nat>, i: nat, c: nat, r: seq<nat>)
    requires t'.leaves == l + [i, c] + r
    requires Known(t.slots, l) && Known(t.slots, r) && i < |t.slots|
    requires Known(t'.slots, l) && Known(t'.slots, r) && i < |t'.slots| && c < |t'.slots|
    requires EntriesOf(t'.slots, l) == EntriesOf(t.slots, l) && EntriesOf(t'.slots, r) == EntriesOf(t.slots, r)
    requires t'.slots[i].vals + t'.slots[c].vals == t.slots[i].vals
    ensures LeavesInRange(t')
    ensures Contents(t') == EntriesOf(t.slots, l) + t.slots[i].vals + EntriesOf(t.slots, r)
  {
    EntriesWithPair(t'.slots, l, i, c, r);
    RegroupMiddle(EntriesOf(t.slots, l), t'.slots[i].vals, t'.slots[c].vals, EntriesOf(t.slots, r), t.slots[i].vals);
  }

  lemma {:induction false} LeafHalvesJoin(t: Tree, n: nat, i: nat, j: nat, a: nat)
    requires ReadyToSplit(t, n, i, j, a) && t.slots[i].isLeaf
    ensures var t' := Split(t, i, j, a); t'.slots[i].vals + t'.slots[|t.slots|].vals == t.slots[i].vals
  {
    var t', c := Split(t, i, j, a), |t.slots|;
    assert t'.slots[i] == SlotAfter(t, i, j, i) && t'.slots[c] == SlotAfter(t, i, j, c);
    HalvesJoin(t.slots[i], c, ParentSlot(t, i));
  }

  lemma {:induction false} HalvesJoin(s: Slot, c: nat, q: nat)
    requires |s.vals| > 0 && s.isLeaf
    ensures LeftHalf(s, c, q).vals + RightHalf(s, q).vals == s.vals
  {
  }

  lemma {:induction false} EntriesWithPair(slots: seq<Slot>, l: seq<nat>, i: nat, c: nat, r: seq<nat>)
    requires Known(slots, l) && Known(slots, r) && i < |slots| && c < |slots|
    ensures Known(slots, l + [i, c] + r)
    ensures EntriesOf(slots, l + [i, c] + r) ==
            EntriesOf(slots, l) + slots[i].vals + slots[c].vals + EntriesOf(slots, r)
  {
    assert [i, c] == [i] + [c];
    EntriesConcat(slots, [i], [c]);
    EntriesConcat(slots, l, [i, c]);
    EntriesConcat(slots, l + [i, c], r);
    EntriesOne(slots, i);
    EntriesOne(slots, c);
    assert EntriesOf(slots, l) + (slots[i].vals + slots[c].vals) == EntriesOf(slots, l) + slots[i].vals + slots[c].vals;
  }

  /** A split moves entries between nodes and changes nothing in the contents. */
  lemma {:induction false} SplitContents(t: Tree, n: nat, i: nat, j: nat, a: nat)
    requires ReadyToSplit(t, n, i, j, a)
    ensures LeavesInRange(t) && LeavesInRange(Split(t, i, j, a))
    ensures Contents(Split(t, i, j, a)) == Contents(t)
  {
    if t.slots[i].isLeaf {
      SplitLeafContents(t, n, i, j, a);
    } else {
      LeavesAround(t, n, i, j, a);
      SplitFrame(t, n, i, j, a, t.leaves);
    }
  }

  // ---- what a search that reached the right leaf may conclude ----

  /** The leaf at place `a` is the one whose interval holds the key. */
  ghost predicate HoldsKey(t: Tree, a: nat, key: int) {
    && a < |t.leaves|
    && InTree(t, t.leaves[a])
    && AtLeast(key, t.slots[t.leaves[a]].lo)
    && Under(key, t.slots[t.leaves[a]].hi)
  }

  /** The leaf whose interval holds the key has the entry for that key, if there is one. */
  lemma {:induction false} LeafDecides(t: Tree, n: nat, full: nat, a: nat, key: int)
    requires Inv(t, n, full) && HoldsKey(t, a, key)
    ensures LeavesInRange(t)
    ensures HasKey(Contents(t), key) <==> HasKey(t.slots[t.leaves[a]].vals, key)
    ensures forall k :: 0 <= k < |t.slots[t.leaves[a]].vals| ==> t.slots[t.leaves[a]].vals[k] in Contents(t)
  {
    ContentsAround(t, n, full, a);
    EntriesBelow(t, n, full, a, key);
    EntriesAbove(t, n, full, a, key);
    var l, v, r := EntriesOf(t.slots, t.leaves[..a]), t.slots[t.leaves[a]].vals, EntriesOf(t.slots, t.leaves[a + 1..]);
    MiddleDecides(l, v, r, key);
  }

  lemma {:induction false} MiddleDecides(l: seq<Entry>, v: seq<Entry>, r: seq<Entry>, key: int)
    requires AllBelow(l, key) && AllAbove(r, key)
    ensures HasKey(l + v + r, key) <==> HasKey(v, key)
  {
    var s := l + v + r;
    assert forall k :: 0 <= k < |v| ==> s[|l| + k] == v[k];
    assert forall k :: 0 <= k < |l| ==> s[k] == l[k];
    assert forall k :: 0 <= k < |r| ==> s[|l| + |v| + k] == r[k];
    assert forall k :: 0 <= k < |s| && s[k].key == key ==> |l| <= k < |l| + |v| && v[k - |l|] == s[k];
  }

  lemma {:induction false} MiddleFloor(l: seq<Entry>, v: seq<Entry>, r: seq<Entry>, key: int, e: Entry)
    requires AllAbove(r, key)
    requires l != [] ==> v != [] && v[0].key <= key && AllBelow(l, v[0].key)
    ensures IsFloor(l + v + r, key, e) <==> IsFloor(v, key, e)
  {
    var s := l + v + r;
    assert forall k :: 0 <= k < |v| ==> s[|l| + k] == v[k];
    assert forall k :: 0 <= k < |l| ==> s[k] == l[k];
    assert forall k :: 0 <= k < |r| ==> s[|l| + |v| + k] == r[k];
  }

  /** The leaf whose interval holds the key has the entry with the greatest key not above it, if there is one. */
  lemma {:induction false} LeafHasFloor(t: Tree, n: nat, full: nat, a: nat, key: int, e: Entry)
    requires Inv(t, n, full) && HoldsKey(t, a, key)
    ensures LeavesInRange(t)
    ensures IsFloor(Contents(t), key, e) <==> IsFloor(t.slots[t.leaves[a]].vals, key, e)
  {
    ContentsAround(t, n, full, a);
    LeafFacts(t, n, full, a);
    EntriesAbove(t, n, full, a, key);
    var l, v, r := EntriesOf(t.slots, t.leaves[..a]), t.slots[t.leaves[a]].vals, EntriesOf(t.slots, t.leaves[a + 1..]);
    if a > 0 {
      EntriesBelow(t, n, full, a, v[0].key);
    }
    MiddleFloor(l, v, r, key, e);
  }

  /**
   The first key of that leaf which is not smaller than the sought one is the least such key of the
   whole tree; if the leaf has none, the sought key is not stored.
   */
  lemma {:induction false} LeafCeiling(t: Tree, n: nat, full: nat, a: nat, key: int, d: nat)
    requires Inv(t, n, full) && HoldsKey(t, a, key) && d <= |t.slots[t.leaves[a]].vals|
    requires AllBelow(t.slots[t.leaves[a]].vals[..d], key)
    requires d < |t.slots[t.leaves[a]].vals| ==> key <= t.slots[t.leaves[a]].vals[d].key
    ensures d < |t.slots[t.leaves[a]].vals| ==> IsCeiling(Contents(t), key, t.slots[t.leaves[a]].vals[d])
    ensures d == |t.slots[t.leaves[a]].vals| ==> !HasKey(Contents(t), key)
  {
    ContentsAround(t, n, full, a);
    LeafFacts(t, n, full, a);
    EntriesBelow(t, n, full, a, key);
    EntriesAbove(t, n, full, a, key);
    var l, v, r := EntriesOf(t.slots, t.leaves[..a]), t.slots[t.leaves[a]].vals, EntriesOf(t.slots, t.leaves[a + 1..]);
    if d < |v| {
      var hi := t.slots[t.leaves[a]].hi;
      assert Under(v[d].key, hi);
      EntriesAbove(t, n, full, a, v[d].key);
      MiddleCeiling(l, v, r, key, d);
    } else {
      assert v[..d] == v;
      MiddleDecides(l, v, r, key);
    }
  }

  lemma {:induction false} MiddleCeiling(l: seq<Entry>, v: seq<Entry>, r: seq<Entry>, key: int, d: nat)
    requires d < |v| && Ascending(v) && AllBelow(l, key) && AllBelow(v[..d], key) && key <= v[d].key
    requires AllAbove(r, v[d].key)
    ensures IsCeiling(l + v + r, key, v[d])
  {
    var s := l + v + r;
    assert s[|l| + d] == v[d];
    assert forall k :: 0 <= k < d ==> v[..d][k] == v[k];
    assert forall k :: 0 <= k < |l| ==> s[k] == l[k];
    assert forall k :: |l| <= k < |l| + |v| ==> s[k] == v[k - |l|];
  }

  /** In ascending entries the one with the sought key is its own ceiling. */
  lemma {:induction false} CeilingOfStored(s: seq<Entry>, key: int, e: Entry, e': Entry)
    requires Ascending(s) && IsCeiling(s, key, e) && e' in s && e'.key == key
    ensures e == e'
  {
    var i :| 0 <= i < |s| && s[i] == e;
    var j :| 0 <= j < |s| && s[j] == e';
  }

  /** Every leaf has its place in the leaf order. */
  lemma {:induction false} PlaceOf(t: Tree, n: nat, full: nat, i: nat) returns (a: nat)
    requires Inv(t, n, full) && InTree(t, i) && t.slots[i].isLeaf
    ensures a < |t.leaves| && t.leaves[a] == i
  {
    assert i in t.leaves;
    a :| 0 <= a < |t.leaves| && t.leaves[a] == i;
  }
}
