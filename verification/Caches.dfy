/** The caches of the write path, the pool they come from, and the sort the writer applies to them. */
module Caches {
  import opened Wrappers
  import opened Measurements
  import opened Picking

  datatype AppendResult = AppendResult(writed: nat, ignored: nat)

  /** The measurements that pass the age test; `young` holds its verdict on each. */
  function Kept(ms: seq<Meas>, young: seq<bool>): (r: seq<Meas>)
    requires |ms| <= |young|
    ensures |r| <= |ms|
  {
    if ms == [] then []
    else
      var k := |ms| - 1;
      Kept(ms[..k], young) + if young[k] then [ms[k]] else []
  }

  lemma {:induction false} KeptConcat(a: seq<Meas>, x: seq<bool>, b: seq<Meas>, y: seq<bool>)
    requires |a| == |x| && |b| <= |y|
    ensures Kept(a + b, x + y) == Kept(a, x) + Kept(b, y)
  {
    if b == [] {
      assert a + b == a;
      KeptPrefix(a, x + y, x);
    } else {
      var k := |b| - 1;
      assert (a + b)[..|a| + k] == a + b[..k];
      KeptConcat(a, x, b[..k], y);
    }
  }

  /** Only the verdicts on the measurements themselves count. */
  lemma {:induction false} KeptPrefix(ms: seq<Meas>, young: seq<bool>, young': seq<bool>)
    requires |ms| <= |young| && |ms| <= |young'| && young[..|ms|] == young'[..|ms|]
    ensures Kept(ms, young) == Kept(ms, young')
  {
    if ms != [] {
      var k := |ms| - 1;
      assert young[k] == young[..|ms|][k] == young'[..|ms|][k] == young'[k];
      assert young[..k] == young[..|ms|][..k] && young'[..k] == young'[..|ms|][..k];
      KeptPrefix(ms[..k], young, young');
    }
  }

  lemma {:induction false} KeptOne(m: Meas, young: bool)
    ensures Kept([m], [young]) == if young then [m] else []
  {
    assert [m][..0] == [];
  }

  /** Of a batch exactly the measurements with the verdict true are kept, in their order. */
  lemma {:induction false} KeptIsFiltered(ms: seq<Meas>, young: seq<bool>)
    requires |ms| <= |young|
    ensures Filtered(ms, young[..|ms|], Kept(ms, young))
  {
    if ms == [] {
      FilteredNone<Meas>();
    } else {
      var k := |ms| - 1;
      KeptIsFiltered(ms[..k], young);
      assert young[..|ms|][..k] == young[..k];
      FilteredLast(ms, young[..|ms|], Kept(ms[..k], young), Kept(ms, young));
    }
  }

  function Min(a: nat, b: nat): nat { if a < b then a else b }

  class Cache {
    const meases: array<Meas>
    var size: nat
    var index: nat
    var sync: bool

    ghost predicate Valid() reads this`size, this`index { size == index <= meases.Length }

    ghost function Contents(): (s: seq<Meas>)
      requires Valid()
      reads this`size, this`index, meases
    {
      meases[..size]
    }

    constructor (capacity: nat)
      ensures Valid() && Contents() == [] && !sync && meases.Length == capacity && fresh(meases)
    {
      meases := new Meas[capacity](_ => EMPTY);
      size, index, sync := 0, 0, false;
    }

    method IsFull() returns (b: bool)
      requires Valid()
      ensures b == (|Contents()| == meases.Length)
    {
      b := size == meases.Length;
    }

    /** clear: the places keep their old values, the cache counts as empty. */
    method Clear()
      requires Valid()
      modifies this`size, this`index
      ensures Valid() && Contents() == []
    {
      size, index := 0, 0;
    }

    /** append of one measurement: one the age test refuses counts as written; a full cache writes nothing. */
    method Append(value: Meas, young: bool) returns (res: AppendResult)
      requires Valid()
      modifies this`size, this`index, meases
      ensures Valid()
      ensures Contents() == if young && |old(Contents())| < meases.Length then old(Contents()) + [value]
                            else old(Contents())
      ensures res.ignored == if young then 0 else 1
      ensures res.writed == if young && |old(Contents())| == meases.Length then 0 else 1
    {
      if !young {
        return AppendResult(1, 1);
      }
      var full := IsFull();
      if full {
        return AppendResult(0, 0);
      }
      meases[index] := value;
      index := index + 1;
      size := size + 1;
      res := AppendResult(1, 0);
    }

    /** append of a batch: as much of it as the free places allow, less what the age test refuses. */
    method AppendBatch(begin: seq<Meas>, young: seq<bool>) returns (res: AppendResult)
      requires Valid() && |begin| <= |young|
      modifies this`size, this`index, meases
      ensures Valid() && res.writed == Min(meases.Length - |old(Contents())|, |begin|)
      ensures Contents() == old(Contents()) + Kept(begin[..res.writed], young)
      ensures Filtered(begin[..res.writed], young[..res.writed], Contents()[|old(Contents())|..])
      ensures res.ignored + |Contents()| == res.writed + |old(Contents())|
    {
      var cap := meases.Length - size;
      var toWrite := if cap >= |begin| then |begin| else cap;
      var ignored := 0;
      ghost var before := Contents();
      for i := 0 to toWrite
        invariant Valid() && Contents() == before + Kept(begin[..i], young)
        invariant ignored + size == i + |before|
      {
        assert begin[..i + 1][..i] == begin[..i];
        if !young[i] {
          ignored := ignored + 1;
        } else {
          meases[index] := begin[i];
          size := size + 1;
          index := index + 1;
        }
      }
      res := AppendResult(toWrite, ignored);
      KeptIsFiltered(begin[..toWrite], young);
      assert Contents()[|before|..] == Kept(begin[..toWrite], young);
    }
  }

  // ---- the pool ----

  /** getCache with a fixed pool size: the last cache that is not being synchronised. */
  method GetCache(pool: seq<Cache>) returns (result: Option<nat>)
    ensures result.None? ==> forall i :: 0 <= i < |pool| ==> pool[i].sync
    ensures result.Some? ==> result.value < |pool| && !pool[result.value].sync
    ensures result.Some? ==> forall i :: result.value < i < |pool| ==> pool[i].sync
  {
    result := None;
    for i := 0 to |pool|
      invariant result.None? ==> forall k :: 0 <= k < i ==> pool[k].sync
      invariant result.Some? ==> result.value < i && !pool[result.value].sync
      invariant result.Some? ==> forall k :: result.value < k < i ==> pool[k].sync
    {
      if !pool[i].sync {
        result := Some(i);
      }
    }
  }

  // ---- sorting ----

  /** In time order, up to where the element at `p` is still to sink. */
  ghost predicate SortedBut(ms: seq<Meas>, p: nat) {
    && (forall i, j :: 0 <= i < j < |ms| && i != p && j != p ==> ms[i].time <= ms[j].time)
    && (forall j :: p < j < |ms| ==> ms[p].time <= ms[j].time)
  }

  /** std::sort of the first `n` places, written out as an insertion sort. */
  method SortByTime(a: array<Meas>, n: nat)
    requires n <= a.Length
    modifies a
    ensures SortedByTime(a[..n]) && multiset(a[..n]) == multiset(old(a[..n]))
    ensures a[n..] == old(a[n..])
  {
    for i := 0 to n
      invariant SortedByTime(a[..i]) && multiset(a[..n]) == multiset(old(a[..n]))
      invariant a[n..] == old(a[n..])
    {
      Sink(a, i, n);
    }
  }

  lemma {:induction false} SwapKeeps(s: seq<Meas>, t: seq<Meas>, p: nat)
    requires 0 < p < |s| && t == s[p - 1 := s[p]][p := s[p - 1]]
    ensures multiset(t) == multiset(s)
  {
  }

  lemma {:induction false} SwapSinks(s: seq<Meas>, t: seq<Meas>, p: nat)
    requires 0 < p < |s| && t == s[p - 1 := s[p]][p := s[p - 1]]
    requires SortedBut(s, p) && s[p].time < s[p - 1].time
    ensures SortedBut(t, p - 1)
  {
  }

  lemma {:induction false} SunkIsSorted(s: seq<Meas>, p: nat)
    requires p < |s| && SortedBut(s, p) && (p == 0 || s[p - 1].time <= s[p].time)
    ensures SortedByTime(s)
  {
  }

  method SwapDown(a: array<Meas>, p: nat)
    requires 0 < p < a.Length
    modifies a
    ensures a[..] == old(a[..])[p - 1 := old(a[p])][p := old(a[p - 1])]
  {
    a[p], a[p - 1] := a[p - 1], a[p];
  }

  /** One step of the sink, as seen by a beginning of the array. */
  lemma {:induction false} SwapPrefix(s: seq<Meas>, t: seq<Meas>, p: nat, i: nat)
    requires 0 < p < i <= |s| && t == s[p - 1 := s[p]][p := s[p - 1]]
    ensures t[..i] == s[..i][p - 1 := s[..i][p]][p := s[..i][p - 1]] && t[i..] == s[i..]
  {
  }

  /** Moves the element at `i` down to its place. */
  method Sink(a: array<Meas>, i: nat, n: nat)
    requires i < n <= a.Length && SortedByTime(a[..i])
    modifies a
    ensures SortedByTime(a[..i + 1]) && multiset(a[..n]) == multiset(old(a[..n]))
    ensures a[n..] == old(a[n..])
  {
    var p := i;
    ghost var s := a[..];
    ghost var all, rest := multiset(s[..n]), s[n..];
    while p > 0 && a[p].time < a[p - 1].time
      invariant 0 <= p <= i && s == a[..] && SortedBut(s[..i + 1], p)
      invariant multiset(s[..n]) == all && s[n..] == rest
    {
      SwapDown(a, p);
      ghost var swapped := a[..];
      SwapPrefix(s, swapped, p, n);
      SwapKeeps(s[..n], swapped[..n], p);
      SwapPrefix(s, swapped, p, i + 1);
      SwapSinks(s[..i + 1], swapped[..i + 1], p);
      s := swapped;
      p := p - 1;
    }
    SunkIsSorted(s[..i + 1], p);
    assert a[..i + 1] == s[..i + 1] && a[..n] == s[..n] && a[n..] == s[n..];
  }
}
