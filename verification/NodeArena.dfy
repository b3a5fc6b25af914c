/** The node arena: operations on single nodes, seen as changes to the sequence of all node contents. */
module NodeArena {
  import opened Entries
  import opened NodeArrays

  /** The arena: distinct nodes with their own arrays of 2n places. */
  ghost predicate Separate(cache: seq<Node>, n: nat) {
    && (forall i :: 0 <= i < |cache| ==> cache[i].vals.Length == 2 * n && cache[i].childs.Length == 2 * n)
    && (forall i, j :: 0 <= i < j < |cache| ==>
          cache[i] != cache[j] && cache[i].vals != cache[j].vals && cache[i].childs != cache[j].childs)
  }

  /** All objects of the arena. */
  ghost function Foot(cache: seq<Node>): set<object> {
    (set i | 0 <= i < |cache| :: cache[i] as object) +
    (set i | 0 <= i < |cache| :: cache[i].vals as object) +
    (set i | 0 <= i < |cache| :: cache[i].childs as object)
  }

  ghost predicate AllSized(cache: seq<Node>)
    reads Foot(cache)
  {
    forall i :: 0 <= i < |cache| ==> cache[i].Sized()
  }

  /** Different slots share nothing. */
  lemma Apart(cache: seq<Node>, n: nat, x: int, y: int)
    requires Separate(cache, n) && 0 <= x < |cache| && 0 <= y < |cache| && x != y
    ensures cache[x] != cache[y] && cache[x].vals != cache[y].vals && cache[x].childs != cache[y].childs
  {
  }

  /** The contents of all nodes. */
  ghost function Views(cache: seq<Node>): (r: seq<NodeView>)
    requires AllSized(cache)
    reads Foot(cache)
    ensures |r| == |cache| && forall i :: 0 <= i < |cache| ==> r[i] == cache[i].View()
  {
    seq(|cache|, i requires 0 <= i < |cache| && AllSized(cache) reads Foot(cache)
           => cache[i].View())
  }

  const BLANK := NodeView([], [], 0, false, 0, 0)

  /** The node after giving away its upper half to node `c`. */
  function LowerView(v: NodeView, c: nat): NodeView {
    v.(vals := v.vals[..|v.vals| / 2], childs := v.childs[..|v.childs| / 2], next := c)
  }

  /** The new node `c` with the upper half of `v`. */
  function UpperView(v: NodeView, c: nat): NodeView
    requires |v.vals| > 0
  {
    NodeView(v.vals[(if v.isLeaf then |v.vals| / 2 else |v.vals| / 2 + 1)..], v.childs[|v.childs| / 2..],
             c, v.isLeaf, 0, v.next)
  }

  method TakeUpperHalf(cache: seq<Node>, n: nat, i: nat, c: nat) returns (mid: Entry)
    requires Separate(cache, n) && AllSized(cache) && i < |cache| && c < |cache| && i != c
    requires cache[i].valsSize > 0 && cache[i].childsSize % 2 == 0
    requires Views(cache)[c] == BLANK.(id := c)
    modifies Foot(cache)
    ensures AllSized(cache)
    ensures var v := old(Views(cache)[i]);
            mid == v.vals[|v.vals| / 2] && Views(cache) == old(Views(cache))[i := LowerView(v, c)][c := UpperView(v, c)]
  {
    ghost var before := Views(cache);
    mid := Halve(cache[i], cache[c], c);
    forall x | 0 <= x < |cache| && x != i && x != c
      ensures cache[x].Sized() && cache[x].View() == before[x]
    {
      Apart(cache, n, x, i);
      Apart(cache, n, x, c);
    }
  }

  /** The copying part of split_node on the two nodes concerned. */
  method Halve(a: Node, b: Node, ghost c: nat) returns (mid: Entry)
    requires a != b && a.vals != b.vals && a.childs != b.childs
    requires a.vals.Length == b.vals.Length && a.childs.Length == b.childs.Length
    requires a.Sized() && a.valsSize > 0 && a.childsSize % 2 == 0
    requires b.Sized() && b.View() == BLANK.(id := c)
    modifies a, a.childs, b, b.vals, b.childs
    ensures a.Sized() && b.Sized()
    ensures mid == old(a.View()).vals[|old(a.View()).vals| / 2]
    ensures a.View() == LowerView(old(a.View()), c)
    ensures b.View() == UpperView(old(a.View()), c)
  {
    ghost var v := a.View();
    b.isLeaf := a.isLeaf;
    mid := a.GiveValues(b);
    var tmp := a.next;
    a.next := b.id;
    b.next := tmp;
    assert a.View() == v.(vals := v.vals[..|v.vals| / 2], next := c);
    assert b.View() == UpperView(v, c).(childs := []);
    a.GiveChilds(b);
  }

  /** The nodes listed in `kids` get `c` as their parent. */
  ghost function Adopted(vs: seq<NodeView>, kids: seq<nat>, c: nat): (r: seq<NodeView>)
    ensures |r| == |vs|
    ensures forall x :: 0 <= x < |vs| ==> r[x] == if x in kids then vs[x].(parent := c) else vs[x]
  {
    seq(|vs|, x requires 0 <= x < |vs| => if x in kids then vs[x].(parent := c) else vs[x])
  }

  method AdoptChilds(cache: seq<Node>, n: nat, c: nat)
    requires Separate(cache, n) && AllSized(cache) && c < |cache| && Views(cache)[c].id == c
    requires forall k :: 0 <= k < |Views(cache)[c].childs| ==> Views(cache)[c].childs[k] < |cache|
    modifies cache`parent
    ensures AllSized(cache)
    ensures Views(cache) == Adopted(old(Views(cache)), old(Views(cache)[c].childs), c)
  {
    ghost var before := Views(cache);
    assert forall k :: 0 <= k < cache[c].childsSize ==> before[c].childs[k] == cache[c].childs[k];
    LinkChilds(cache, n, c);
    ghost var kids := cache[c].childs[..cache[c].childsSize];
    assert before[c].childs == kids;
    forall x | 0 <= x < |cache|
      ensures cache[x].View() == if x in kids then before[x].(parent := c) else before[x]
    {
    }
    AdoptedIs(before, kids, c, Views(cache));
  }

  lemma AdoptedIs(vs: seq<NodeView>, kids: seq<nat>, c: nat, r: seq<NodeView>)
    requires |r| == |vs|
    requires forall x :: 0 <= x < |vs| ==> r[x] == if x in kids then vs[x].(parent := c) else vs[x]
    ensures r == Adopted(vs, kids, c)
  {
  }

  method LinkChilds(cache: seq<Node>, n: nat, c: nat)
    requires Separate(cache, n) && c < |cache| && cache[c].Sized() && cache[c].id == c
    requires forall k :: 0 <= k < cache[c].childsSize ==> cache[c].childs[k] < |cache|
    modifies cache`parent
    ensures forall x :: 0 <= x < |cache| ==>
              cache[x].parent == if x in cache[c].childs[..cache[c].childsSize] then c else old(cache[x].parent)
  {
    for k := 0 to cache[c].childsSize
      invariant forall x :: 0 <= x < |cache| ==>
                  cache[x].parent == if x in cache[c].childs[..k] then c else old(cache[x].parent)
    {
      var ch := cache[c].childs[k];
      assert cache[c].childs[..k + 1] == cache[c].childs[..k] + [ch];
      cache[ch].parent := cache[c].id;
    }
  }

  /** The nodes after the copying part of the split. */
  ghost function DivideViews(vs: seq<NodeView>, i: nat, c: nat): seq<NodeView>
    requires i < |vs| && c < |vs| && |vs[i].vals| > 0
  {
    Adopted(vs[i := LowerView(vs[i], c)][c := UpperView(vs[i], c)], UpperView(vs[i], c).childs, c)
  }

  /** Halving node `i` and handing over the upper children, as in the first half of split_node. */
  method DivideNodes(cache: seq<Node>, n: nat, i: nat, c: nat) returns (mid: Entry)
    requires Separate(cache, n) && AllSized(cache) && i < |cache| && c < |cache| && i != c
    requires |Views(cache)[i].vals| > 0 && |Views(cache)[i].childs| % 2 == 0
    requires forall k :: 0 <= k < |Views(cache)[i].childs| ==> Views(cache)[i].childs[k] < |cache|
    requires Views(cache)[c] == BLANK.(id := c)
    modifies Foot(cache)
    ensures AllSized(cache)
    ensures mid == old(Views(cache)[i]).vals[|old(Views(cache)[i]).vals| / 2]
    ensures Views(cache) == DivideViews(old(Views(cache)), i, c)
  {
    ghost var v := Views(cache)[i];
    mid := TakeUpperHalf(cache, n, i, c);
    assert forall k :: 0 <= k < |UpperView(v, c).childs| ==>
        UpperView(v, c).childs[k] == v.childs[|v.childs| / 2 + k];
    AdoptChilds(cache, n, c);
  }

  method SetParent(cache: seq<Node>, n: nat, i: nat, p: nat)
    requires Separate(cache, n) && AllSized(cache) && i < |cache|
    modifies cache`parent
    ensures AllSized(cache)
    ensures Views(cache) == old(Views(cache))[i := old(Views(cache)[i]).(parent := p)]
  {
    cache[i].parent := p;
    forall x | 0 <= x < |cache| && x != i
      ensures cache[x].View() == old(Views(cache))[x]
    {
      Apart(cache, n, x, i);
    }
  }

  /** The separator and the new child enter the parent node. */
  method AddToParent(cache: seq<Node>, n: nat, p: nat, mid: Entry, c: nat, ghost j: nat)
    requires Separate(cache, n) && AllSized(cache) && p < |cache|
    requires var v := Views(cache)[p];
             && |v.vals| < 2 * n && |v.childs| == |v.vals| + 1 && |v.childs| < 2 * n
             && Ascending(v.vals) && j <= |v.vals|
             && AllBelow(v.vals[..j], mid.key) && AllAbove(v.vals[j..], mid.key)
    modifies Foot(cache)
    ensures AllSized(cache)
    ensures var v := old(Views(cache)[p]);
            Views(cache) ==
            old(Views(cache))[p := v.(vals := InsertAt(v.vals, j, mid), childs := InsertAt(v.childs, j + 1, c))]
  {
    ghost var before := Views(cache);
    PutSeparator(cache[p], mid, c, j);
    forall x | 0 <= x < |cache| && x != p
      ensures cache[x].Sized() && cache[x].View() == before[x]
    {
      Apart(cache, n, x, p);
    }
  }

  method PutSeparator(nd: Node, mid: Entry, c: nat, ghost j: nat)
    requires nd.Sized() && nd.valsSize < nd.vals.Length && nd.childsSize == nd.valsSize + 1 < nd.childs.Length
    requires Ascending(nd.View().vals) && j <= nd.valsSize
    requires AllBelow(nd.View().vals[..j], mid.key) && AllAbove(nd.View().vals[j..], mid.key)
    modifies nd, nd.vals, nd.childs
    ensures nd.Sized()
    ensures var v := old(nd.View());
            nd.View() == v.(vals := InsertAt(v.vals, j, mid), childs := InsertAt(v.childs, j + 1, c))
  {
    ghost var v := nd.View();
    ghost var d := nd.InsertValue(mid.key, mid.val);
    SplitPointUnique(v.vals, mid.key, d, j);
    InsertAtAscending(v.vals, j, mid);
    nd.InsertChild(mid.key, c, j);
  }

  lemma SplitPointUnique(s: seq<Entry>, key: int, d: nat, j: nat)
    requires d <= |s| && j <= |s|
    requires AllBelow(s[..j], key) && AllAbove(s[j..], key)
    requires AllBelow(s[..d], key) && forall k :: d <= k < |s| ==> key <= s[k].key
    ensures d == j
  {
    assert forall k :: 0 <= k < j ==> s[..j][k] == s[k];
    assert forall k :: j <= k < |s| ==> s[j..][k - j] == s[k];
    assert forall k :: 0 <= k < d ==> s[..d][k] == s[k];
    assert forall k :: 0 <= k < |s| ==> (k < j <==> s[k].key < key) && (k < d <==> s[k].key < key);
    var m := if d <= j then d else j;
    assert m < |s| ==> (m < j <==> s[m].key < key);
  }

  /** A fresh root above two nodes. */
  method FillRoot(cache: seq<Node>, n: nat, q: nat, mid: Entry, i: nat, c: nat)
    requires Separate(cache, n) && AllSized(cache) && n >= 2 && q < |cache| && Views(cache)[q] == BLANK.(id := q)
    modifies Foot(cache)
    ensures AllSized(cache)
    ensures Views(cache) == old(Views(cache))[q := NodeView([mid], [i, c], q, false, 0, 0)]
  {
    ghost var before := Views(cache);
    PutTwo(cache[q], mid, i, c, q);
    forall x | 0 <= x < |cache| && x != q
      ensures cache[x].Sized() && cache[x].View() == before[x]
    {
      Apart(cache, n, x, q);
    }
  }

  ghost function RootViews(vs: seq<NodeView>, q: nat, mid: Entry, i: nat, c: nat): seq<NodeView>
    requires q < |vs| && c < |vs| && i < |vs|
  {
    vs[q := NodeView([mid], [i, c], q, false, 0, 0)][i := vs[i].(parent := q)][c := vs[c].(parent := q)]
  }

  /** The node `q` becomes the parent of the old root `i` and of `c`. */
  method RootAbove(cache: seq<Node>, n: nat, root: nat, q: nat, mid: Entry, i: nat, c: nat, ghost vs: seq<NodeView>)
    requires Separate(cache, n) && AllSized(cache) && n >= 2 && Views(cache) == vs
    requires q < |vs| && vs[q] == BLANK.(id := q)
    requires root == i < |vs| && c < |vs| && i != q && c != q && c != i
    modifies Foot(cache)
    ensures AllSized(cache)
    ensures Views(cache) == RootViews(vs, q, mid, i, c)
  {
    SetParent(cache, n, root, q);
    ghost var v1 := Views(cache);
    FillRoot(cache, n, q, mid, i, c);
    ghost var v2 := Views(cache);
    SetParent(cache, n, i, q);
    ghost var v3 := Views(cache);
    SetParent(cache, n, c, q);
    RootWrites(vs, v1, v2, v3, q, i, c, NodeView([mid], [i, c], q, false, 0, 0));
  }

  lemma RootWrites(vs: seq<NodeView>, v1: seq<NodeView>, v2: seq<NodeView>, v3: seq<NodeView>,
                   q: nat, i: nat, c: nat, r: NodeView)
    requires q < |vs| && i < |vs| && c < |vs| && i != q && c != q && c != i
    requires v1 == vs[i := vs[i].(parent := q)] && v2 == v1[q := r] && v3 == v2[i := v2[i].(parent := q)]
    ensures v3[c := v3[c].(parent := q)] ==
            vs[q := r][i := vs[i].(parent := q)][c := vs[c].(parent := q)]
  {
  }

  method PutTwo(nd: Node, mid: Entry, i: nat, c: nat, ghost q: nat)
    requires nd.Sized() && nd.vals.Length >= 2 && nd.childs.Length >= 2 && nd.View() == BLANK.(id := q)
    modifies nd, nd.vals, nd.childs
    ensures nd.Sized() && nd.View() == NodeView([mid], [i, c], q, false, 0, 0)
  {
    ghost var d := nd.InsertValue(mid.key, mid.val);
    nd.childs[nd.childsSize] := i;
    nd.childsSize := nd.childsSize + 1;
    nd.childs[nd.childsSize] := c;
    nd.childsSize := nd.childsSize + 1;
  }

  /** An entry enters node `i` in key order. */
  method AddValue(cache: seq<Node>, n: nat, i: nat, key: int, val: IndexRecord, ghost vs: seq<NodeView>)
    returns (ghost d: nat)
    requires Separate(cache, n) && AllSized(cache) && Views(cache) == vs
    requires i < |vs| && |vs[i].vals| < 2 * n && Ascending(vs[i].vals)
    modifies Foot(cache)
    ensures AllSized(cache)
    ensures d <= |vs[i].vals| && AllBelow(vs[i].vals[..d], key)
    ensures forall k :: d <= k < |vs[i].vals| ==> key <= vs[i].vals[k].key
    ensures Views(cache) == vs[i := vs[i].(vals := InsertAt(vs[i].vals, d, Entry(key, val)))]
  {
    assert vs[i] == cache[i].View();
    d := cache[i].InsertValue(key, val);
    forall x | 0 <= x < |cache| && x != i
      ensures cache[x].Sized() && cache[x].View() == vs[x]
    {
      Apart(cache, n, x, i);
    }
  }
}
