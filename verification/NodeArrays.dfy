/** One node of the arena with its fixed-size arrays, and the array operations it uses. */
module NodeArrays {
  import opened Wrappers
  import opened Entries

  /** insert_to_array: bubbles the free last place of the first `sz` down to `pos` and stores the value there. */
  method InsertToArray<T>(a: array<T>, sz: nat, pos: nat, value: T)
    requires pos < sz <= a.Length
    modifies a
    ensures a[..sz] == InsertAt(old(a[..sz - 1]), pos, value)
    ensures a[sz..] == old(a[sz..])
  {
    var i := sz - 1;
    while i > pos
      invariant pos <= i < sz
      invariant forall k :: 0 <= k < i ==> a[k] == old(a[k])
      invariant forall k :: i < k < sz ==> a[k] == old(a[k - 1])
      invariant forall k :: sz <= k < a.Length ==> a[k] == old(a[k])
    {
      a[i], a[i - 1] := a[i - 1], a[i];
      i := i - 1;
    }
    a[pos] := value;
    IsInsertAt(old(a[..sz - 1]), a[..sz], pos, value);
  }

  lemma {:induction false} IsInsertAt<T>(s: seq<T>, t: seq<T>, pos: nat, value: T)
    requires pos <= |s| && |t| == |s| + 1 && t[pos] == value
    requires forall k :: 0 <= k < pos ==> t[k] == s[k]
    requires forall k :: pos < k <= |s| ==> t[k] == s[k - 1]
    ensures t == InsertAt(s, pos, value)
  {
  }

  /** std::lower_bound on the keys of the first `size` entries. */
  method LowerBound(a: array<Entry>, size: nat, key: int) returns (d: nat)
    requires size <= a.Length && Ascending(a[..size])
    ensures d <= size && AllBelow(a[..d], key)
    ensures forall k :: d <= k < size ==> key <= a[k].key
  {
    d := 0;
    var count := size;
    while count > 0
      invariant d + count <= size
      invariant forall k :: 0 <= k < d ==> a[k].key < key
      invariant forall k :: d + count <= k < size ==> key <= a[k].key
    {
      var step := count / 2;
      ghost var s := a[..size];
      assert s[d + step] == a[d + step];
      assert forall k :: 0 <= k < size ==> s[k] == a[k];
      if a[d + step].key < key {
        d := d + step + 1;
        count := count - step - 1;
      } else {
        count := step;
      }
    }
  }

  lemma PlaceUnique(s: seq<Entry>, d: nat, lb: nat, key: int)
    requires Ascending(s) && d < |s| && s[d].key == key && lb <= |s|
    requires forall k :: 0 <= k < lb ==> s[k].key < key
    requires forall k :: lb <= k < |s| ==> key <= s[k].key
    ensures lb == d
  {
    var m := if lb < |s| then lb else d;
    var x, y := s[m], s[d];
    assert m < d ==> x.key < y.key;
  }

  /** What a leaf with these entries answers: the value of its first key that is not smaller, if any. */
  ghost predicate Answers(vs: seq<Entry>, key: int, res: Option<IndexRecord>) {
    match res
    case Some(v) => exists d :: 0 <= d < |vs| && AllBelow(vs[..d], key) && key <= vs[d].key && v == vs[d].val
    case None => AllBelow(vs, key)
  }

  /** What a node holds, without the unused ends of its arrays. */
  datatype NodeView = NodeView(vals: seq<Entry>, childs: seq<nat>, id: nat, isLeaf: bool, parent: nat, next: nat)

  class Node {
    const vals: array<Entry>
    var valsSize: nat
    const childs: array<nat>
    var childsSize: nat
    var id: nat
    var isLeaf: bool
    var parent: nat
    var next: nat

    /** A zeroed node with room for 2n values and 2n children. */
    constructor (n: nat, filler: Entry)
      ensures Sized() && View() == NodeView([], [], 0, false, 0, 0)
      ensures vals.Length == 2 * n && childs.Length == 2 * n
      ensures fresh(vals) && fresh(childs)
    {
      vals := new Entry[2 * n](_ => filler);
      childs := new nat[2 * n](_ => 0);
      valsSize, childsSize, id, isLeaf, parent, next := 0, 0, 0, false, 0, 0;
    }

    ghost predicate Sized()
      reads this
    {
      valsSize <= vals.Length && childsSize <= childs.Length
    }

    ghost function View(): NodeView
      requires Sized()
      reads this, vals, childs
    {
      NodeView(vals[..valsSize], childs[..childsSize], id, isLeaf, parent, next)
    }

    /** The entry goes before the first key that is not smaller; `d` is that place. */
    method InsertValue(key: int, val: IndexRecord) returns (ghost d: nat)
      requires Sized() && valsSize < vals.Length && Ascending(View().vals)
      modifies this`valsSize, vals
      ensures Sized()
      ensures d <= |old(View().vals)| && AllBelow(old(View().vals)[..d], key)
      ensures forall k :: d <= k < |old(View().vals)| ==> key <= old(View().vals)[k].key
      ensures View() == old(View()).(vals := InsertAt(old(View().vals), d, Entry(key, val)))
    {
      var kv := Entry(key, val);
      ghost var before := vals[..valsSize];
      if valsSize == 0 {
        d := 0;
        valsSize := valsSize + 1;
        vals[0] := kv;
        return;
      }
      if vals[0].key > key {
        d := 0;
        assert forall k :: 0 <= k < |before| ==> before[0].key <= before[k].key;
        PutValue(0, kv);
        return;
      }
      var lb := LowerBound(vals, valsSize, key);
      d := lb;
      assert before[..d] == vals[..d];
      assert forall k :: 0 <= k < |before| ==> before[k] == vals[k];
      if lb != valsSize {
        PutValue(lb, kv);
        return;
      }
      PushValue(kv);
    }

    method PutValue(pos: nat, kv: Entry)
      requires Sized() && pos < valsSize < vals.Length
      modifies this`valsSize, vals
      ensures Sized() && View() == old(View()).(vals := InsertAt(old(View().vals), pos, kv))
    {
      valsSize := valsSize + 1;
      InsertToArray(vals, valsSize, pos, kv);
    }

    method PushValue(kv: Entry)
      requires Sized() && valsSize < vals.Length
      modifies this`valsSize, vals
      ensures Sized() && View() == old(View()).(vals := InsertAt(old(View().vals), |old(View().vals)|, kv))
    {
      vals[valsSize] := kv;
      valsSize := valsSize + 1;
    }

    /** The child goes right after the place its key has among the values. */
    method InsertChild(key: int, c: nat, ghost d: nat)
      requires Sized() && childsSize < childs.Length && Ascending(View().vals)
      requires d < |View().vals| && View().vals[d].key == key && |View().childs| == |View().vals|
      modifies this`childsSize, childs
      ensures Sized()
      ensures View() == old(View()).(childs := InsertAt(old(View().childs), d + 1, c))
    {
      ghost var vs := View().vals;
      if key == vals[valsSize - 1].key {
        assert d == valsSize - 1 by { assert vs[valsSize - 1] == vals[valsSize - 1]; }
        childs[childsSize] := c;
        childsSize := childsSize + 1;
        return;
      }
      var lb := LowerBound(vals, valsSize, key);
      assert forall k :: 0 <= k < |vs| ==> vs[k] == vals[k];
      assert forall k :: 0 <= k < lb ==> vals[..lb][k] == vs[k];
      PlaceUnique(vs, d, lb, key);
      // The key is among the values, so the bound is not the end.
      InsertToArray(childs, childsSize + 1, lb + 1, c);
      childsSize := childsSize + 1;
    }

    /** The search inside a leaf. */
    method LookUp(key: int) returns (res: Option<IndexRecord>)
      requires Sized() && Ascending(View().vals)
      ensures Answers(View().vals, key, res)
    {
      ghost var vs := View().vals;
      var d := LowerBound(vals, valsSize, key);
      assert vals[..d] == vs[..d];
      if d != valsSize {
        assert vs[d] == vals[d];
        res := Some(vals[d].val);
      } else {
        assert vs[..d] == vs;
        res := None;
      }
    }

    /** The three routing cases of the search in an inner node: `j` is the child to go to. */
    method Route(key: int) returns (j: nat)
      requires Sized() && Ascending(View().vals)
      requires 0 < |View().vals| && |View().childs| == |View().vals| + 1
      ensures j <= |View().vals|
      ensures j > 0 ==> View().vals[j - 1].key <= key
      ensures j < |View().vals| ==> key < View().vals[j].key
    {
      ghost var vs := View().vals;
      assert forall k :: 0 <= k < |vs| ==> vs[k] == vals[k];
      // case k < k_0
      if key < vals[0].key {
        return 0;
      }
      // case k_d <= k
      if childsSize != 0 && valsSize != 0 {
        if key >= vals[valsSize - 1].key {
          return childsSize - 1;
        }
      }
      // case k_i <= k < k_{i+1}
      var d := LowerBound(vals, valsSize, key);
      assert d > 0 ==> vals[..d][d - 1] == vs[d - 1];
      if vals[d].key != key {
        d := d - 1;
      } else {
        assert vs[d].key < vs[d + 1].key;
      }
      return d + 1;
    }

    /** The copying half of a split: the upper values go to `c`, in an inner node without the middle one. */
    method GiveValues(c: Node) returns (mid: Entry)
      requires Sized() && valsSize > 0 && this != c && vals != c.vals
      requires c.Sized() && c.valsSize == 0 && valsSize <= c.vals.Length
      modifies this`valsSize, c`valsSize, c.vals
      ensures Sized() && c.Sized()
      ensures var vs := old(View().vals);
              && mid == vs[|vs| / 2]
              && vals[..valsSize] == vs[..|vs| / 2]
              && c.vals[..c.valsSize] == vs[(if c.isLeaf then |vs| / 2 else |vs| / 2 + 1)..]
    {
      var half := valsSize / 2;
      mid := vals[half];
      var valsBegin := half;
      if !c.isLeaf {
        valsBegin := valsBegin + 1;
      }
      for i := valsBegin to valsSize
        invariant c.valsSize == i - valsBegin
        invariant c.vals[..c.valsSize] == vals[valsBegin..i]
      {
        c.vals[c.valsSize] := vals[i];
        c.valsSize := c.valsSize + 1;
      }
      valsSize := half;
    }

    /** The upper half of the children goes to `c`; the freed places are zeroed. */
    method GiveChilds(c: Node)
      requires Sized() && childsSize % 2 == 0 && this != c && childs != c.childs
      requires c.Sized() && c.childsSize == 0 && childsSize <= c.childs.Length
      modifies this`childsSize, childs, c`childsSize, c.childs
      ensures Sized() && c.Sized()
      ensures childs[..childsSize] == old(View().childs)[..|old(View().childs)| / 2]
      ensures c.childs[..c.childsSize] == old(View().childs)[|old(View().childs)| / 2..]
    {
      if childsSize > 0 {
        var newCount := childsSize / 2;
        c.childsSize := newCount;
        for i := newCount to childsSize
          invariant childsSize == old(childsSize) && c.childsSize == newCount
          invariant c.childs[..i - newCount] == childs[newCount..i]
          invariant childs[..childsSize] == old(childs[..childsSize])
        {
          c.childs[i - newCount] := childs[i];
        }
        for i := newCount to childsSize
          invariant childsSize == old(childsSize) && c.childsSize == newCount
          invariant childs[..newCount] == old(childs[..childsSize])[..newCount]
          invariant c.childs[..newCount] == old(childs[..childsSize])[newCount..]
        {
          childs[i] := 0;
        }
        childsSize := newCount;
      }
    }
  }
}
