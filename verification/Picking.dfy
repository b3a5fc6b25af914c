/** Filtering, without saying how it is computed: which places are kept, and in which order. */
module Picking {

  /** `sel` lists the marked places, each once, in increasing order. */
  ghost predicate Picks(sel: seq<nat>, marks: seq<bool>) {
    && (forall i, j :: 0 <= i < j < |sel| ==> sel[i] < sel[j])
    && (forall i: nat :: i in sel <==> i < |marks| && marks[i])
  }

  /** `out` is what stands at the places `sel`. */
  ghost predicate StandsAt<T(!new)>(s: seq<T>, sel: seq<nat>, out: seq<T>) {
    |out| == |sel| && forall k :: 0 <= k < |sel| ==> sel[k] < |s| && out[k] == s[sel[k]]
  }

  /** `out` holds exactly the marked elements of `s`, place by place, in their order. */
  ghost predicate Filtered<T(!new)>(s: seq<T>, marks: seq<bool>, out: seq<T>) {
    |marks| == |s| && exists sel: seq<nat> :: Picks(sel, marks) && StandsAt(s, sel, out)
  }

  lemma {:induction false} PicksLast(sel: seq<nat>, marks: seq<bool>, k: nat, sel': seq<nat>)
    requires |marks| == k + 1 && Picks(sel, marks[..k])
    requires sel' == if marks[k] then sel + [k] else sel
    ensures Picks(sel', marks)
  {
    assert forall i :: 0 <= i < |sel| ==> sel[i] in sel;
    forall i: nat
      ensures i in sel' <==> i < |marks| && marks[i]
    {
      assert i in sel' <==> i in sel || (marks[k] && i == k);
      assert i < k ==> marks[..k][i] == marks[i];
    }
  }

  lemma {:induction false} StandsLast<T(!new)>(s: seq<T>, k: nat, sel: seq<nat>, out: seq<T>, last: bool,
                                               sel': seq<nat>, all: seq<T>)
    requires |s| == k + 1 && StandsAt(s[..k], sel, out)
    requires sel' == if last then sel + [k] else sel
    requires all == if last then out + [s[k]] else out
    ensures StandsAt(s, sel', all)
  {
  }

  /** What is kept of one element more. */
  lemma {:induction false} FilteredLast<T(!new)>(s: seq<T>, marks: seq<bool>, out: seq<T>, all: seq<T>)
    requires s != [] && |marks| == |s|
    requires Filtered(s[..|s| - 1], marks[..|s| - 1], out)
    requires all == if marks[|s| - 1] then out + [s[|s| - 1]] else out
    ensures Filtered(s, marks, all)
  {
    var k: nat := |s| - 1;
    var sel: seq<nat> :| Picks(sel, marks[..k]) && StandsAt(s[..k], sel, out);
    var sel' := if marks[k] then sel + [k] else sel;
    PicksLast(sel, marks, k, sel');
    StandsLast(s, k, sel, out, marks[k], sel', all);
  }

  lemma {:induction false} FilteredNone<T(!new)>()
    ensures Filtered<T>([], [], [])
  {
    assert Picks([], []) && StandsAt<T>([], [], []);
  }

  lemma FirstIsIn(s: seq<nat>)
    ensures s == [] || s[0] in s
  {
  }

  /** An increasing list is determined by its elements. */
  lemma {:induction false} IncreasingUnique(a: seq<nat>, b: seq<nat>)
    requires forall i, j :: 0 <= i < j < |a| ==> a[i] < a[j]
    requires forall i, j :: 0 <= i < j < |b| ==> b[i] < b[j]
    requires forall x: nat :: x in a <==> x in b
    ensures a == b
  {
    FirstIsIn(a);
    FirstIsIn(b);
    if a != [] && b != [] {
      var x, y := a[|a| - 1], b[|b| - 1];
      var a', b' := a[..|a| - 1], b[..|b| - 1];
      assert x in b && y in a;
      assert x == y;
      assert a == a' + [x] && b == b' + [x];
      forall z: nat
        ensures z in a' <==> z in b'
      {
        assert z in a <==> z in a' || z == x;
        assert z in b <==> z in b' || z == x;
      }
      IncreasingUnique(a', b');
    }
  }

  /** There is only one answer. */
  lemma {:induction false} FilteredUnique<T(!new)>(s: seq<T>, marks: seq<bool>, out: seq<T>, out': seq<T>)
    requires Filtered(s, marks, out) && Filtered(s, marks, out')
    ensures out == out'
  {
    var sel: seq<nat> :| Picks(sel, marks) && StandsAt(s, sel, out);
    var sel': seq<nat> :| Picks(sel', marks) && StandsAt(s, sel', out');
    IncreasingUnique(sel, sel');
  }

  /** If all is marked, all is kept. */
  lemma {:induction false} FilteredAll<T(!new)>(s: seq<T>, marks: seq<bool>, out: seq<T>)
    requires Filtered(s, marks, out) && forall i :: 0 <= i < |s| ==> marks[i]
    ensures out == s
  {
    var sel: seq<nat> := seq(|s|, i requires 0 <= i => i);
    forall i: nat
      ensures i in sel <==> i < |marks| && marks[i]
    {
      assert i < |s| ==> sel[i] == i;
    }
    assert Picks(sel, marks) && StandsAt(s, sel, s);
    FilteredUnique(s, marks, out, s);
  }
}
