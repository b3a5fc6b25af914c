/** Keyed entries of the index tree and ordered insertion into a sequence of them. */
module Entries {

  /** One record of a page index: `count` positions of the page from `pos` on, and the times they span. */
  datatype IndexRecord = IndexRecord(pos: nat, count: nat, minTime: int, maxTime: int)

  /** A key with its value, as stored in a tree node. */
  datatype Entry = Entry(key: int, val: IndexRecord)

  ghost predicate Ascending(s: seq<Entry>) {
    forall i, j :: 0 <= i < j < |s| ==> s[i].key < s[j].key
  }

  ghost predicate HasKey(s: seq<Entry>, key: int) {
    exists i :: 0 <= i < |s| && s[i].key == key
  }

  ghost predicate AllBelow(s: seq<Entry>, key: int) {
    forall i :: 0 <= i < |s| ==> s[i].key < key
  }

  ghost predicate AllAbove(s: seq<Entry>, key: int) {
    forall i :: 0 <= i < |s| ==> key < s[i].key
  }

  /** `e` is the entry with the greatest key that is not above `key`. */
  ghost predicate IsFloor(s: seq<Entry>, key: int, e: Entry) {
    e in s && e.key <= key && forall i :: 0 <= i < |s| && s[i].key <= key ==> s[i].key <= e.key
  }

  /** `e` is the entry with the least key that is not below `key`. */
  ghost predicate IsCeiling(s: seq<Entry>, key: int, e: Entry) {
    e in s && key <= e.key && forall i :: 0 <= i < |s| && key <= s[i].key ==> e.key <= s[i].key
  }

  /** The sequence `s` with `x` placed at index `d`. */
  function InsertAt<T>(s: seq<T>, d: nat, x: T): (r: seq<T>)
    requires d <= |s|
    ensures |r| == |s| + 1
    ensures forall k :: 0 <= k < |r| ==> r[k] == if k < d then s[k] else if k == d then x else s[k - 1]
  {
    s[..d] + [x] + s[d..]
  }

  /** Reference definition of ordered insertion: `e` goes before the first entry whose key is not smaller. */
  function InsertSorted(s: seq<Entry>, e: Entry): seq<Entry> {
    if s == [] then [e]
    else if s[0].key < e.key then [s[0]] + InsertSorted(s[1..], e)
    else [e] + s
  }

  /** Ordered insertion of several entries, in order. */
  function InsertAllSorted(s: seq<Entry>, es: seq<Entry>): seq<Entry> {
    if es == [] then s else InsertSorted(InsertAllSorted(s, es[..|es| - 1]), es[|es| - 1])
  }

  /** Ordered insertion puts the entry exactly at the boundary between smaller and larger keys. */
  lemma {:induction false} InsertSortedIsInsertAt(s: seq<Entry>, d: nat, e: Entry)
    requires d <= |s| && AllBelow(s[..d], e.key) && AllAbove(s[d..], e.key)
    ensures InsertSorted(s, e) == InsertAt(s, d, e)
  {
    if d == 0 {
      assert s != [] ==> s[d..][0] == s[0];
    } else {
      assert s[..d][0] == s[0];
      assert s[1..][..d - 1] == s[..d][1..] && s[1..][d - 1..] == s[d..];
      InsertSortedIsInsertAt(s[1..], d - 1, e);
      assert [s[0]] + InsertAt(s[1..], d - 1, e) == InsertAt(s, d, e);
    }
  }

  /** Insertion into the middle block of a concatenation when the outer blocks lie on either side of the key. */
  lemma {:induction false} InsertSortedMiddle(a: seq<Entry>, b: seq<Entry>, c: seq<Entry>, d: nat, e: Entry)
    requires d <= |b| && AllBelow(a, e.key) && AllAbove(c, e.key)
    requires AllBelow(b[..d], e.key) && AllAbove(b[d..], e.key)
    ensures InsertSorted(a + b + c, e) == a + InsertAt(b, d, e) + c
  {
    var s := a + b + c;
    var k := |a| + d;
    assert s[..k] == a + b[..d];
    assert s[k..] == b[d..] + c;
    InsertSortedIsInsertAt(s, k, e);
    assert InsertAt(s, k, e) == a + InsertAt(b, d, e) + c;
  }

  /** In an ascending sequence without the key, some index separates the smaller from the larger keys. */
  lemma {:induction false} SplitPoint(s: seq<Entry>, key: int) returns (d: nat)
    requires Ascending(s) && !HasKey(s, key)
    ensures d <= |s| && AllBelow(s[..d], key) && AllAbove(s[d..], key)
  {
    if s == [] {
      d := 0;
    } else {
      var l := s[..|s| - 1];
      assert forall i :: 0 <= i < |l| ==> l[i] == s[i];
      if s[|s| - 1].key < key {
        d := |s|;
      } else {
        d := SplitPoint(l, key);
        assert forall i :: d <= i < |l| ==> l[d..][i - d] == s[i];
        assert s[..d] == l[..d];
      }
    }
  }

  /** What ordered insertion means: it keeps the order, adds exactly the one entry and keeps every other. */
  lemma {:induction false} InsertSortedMeaning(s: seq<Entry>, e: Entry)
    requires Ascending(s) && !HasKey(s, e.key)
    ensures Ascending(InsertSorted(s, e))
    ensures multiset(InsertSorted(s, e)) == multiset(s) + multiset{e}
    ensures forall k :: HasKey(InsertSorted(s, e), k) <==> HasKey(s, k) || k == e.key
  {
    var d := SplitPoint(s, e.key);
    InsertSortedIsInsertAt(s, d, e);
    InsertAtAscending(s, d, e);
    assert s == s[..d] + s[d..];
    forall k
      ensures HasKey(InsertAt(s, d, e), k) <==> HasKey(s, k) || k == e.key
    {
      InsertAtKeys(s, d, e, k);
    }
  }

  lemma InsertAtAscending(s: seq<Entry>, d: nat, e: Entry)
    requires Ascending(s)
    requires d <= |s| && AllBelow(s[..d], e.key) && AllAbove(s[d..], e.key)
    ensures Ascending(InsertAt(s, d, e))
  {
    assert forall i :: 0 <= i < d ==> s[..d][i] == s[i];
    assert forall i :: d <= i < |s| ==> s[d..][i - d] == s[i];
  }

  lemma InsertAtKeys(s: seq<Entry>, d: nat, e: Entry, k: int)
    requires d <= |s|
    ensures HasKey(InsertAt(s, d, e), k) <==> HasKey(s, k) || k == e.key
  {
    var r := InsertAt(s, d, e);
    assert r[d].key == e.key;
    forall i | 0 <= i < |s|
      ensures exists i' :: 0 <= i' < |r| && r[i'] == s[i]
    {
      assert r[if i < d then i else i + 1] == s[i];
    }
  }

  /** The entries `es` bring new keys, each once. */
  ghost predicate NewKeys(s: seq<Entry>, es: seq<Entry>) {
    && (forall i :: 0 <= i < |es| ==> !HasKey(s, es[i].key))
    && (forall i, j :: 0 <= i < j < |es| ==> es[i].key != es[j].key)
  }

  lemma {:induction false} LastKey(es: seq<Entry>)
    requires es != []
    ensures forall q :: HasKey(es, q) <==> HasKey(es[..|es| - 1], q) || q == es[|es| - 1].key
  {
    var k := |es| - 1;
    assert forall i :: 0 <= i < k ==> es[..k][i] == es[i];
  }

  lemma {:induction false} NewKeysPrefix(s: seq<Entry>, es: seq<Entry>)
    requires es != [] && NewKeys(s, es)
    ensures NewKeys(s, es[..|es| - 1])
    ensures !HasKey(s, es[|es| - 1].key) && !HasKey(es[..|es| - 1], es[|es| - 1].key)
  {
    var k := |es| - 1;
    assert forall i :: 0 <= i < k ==> es[..k][i] == es[i];
  }

  /** Inserting many new entries: the result is ordered, adds exactly them and has exactly their keys more. */
  lemma {:induction false} InsertAllSortedMeaning(s: seq<Entry>, es: seq<Entry>)
    requires Ascending(s) && NewKeys(s, es)
    ensures Ascending(InsertAllSorted(s, es))
    ensures multiset(InsertAllSorted(s, es)) == multiset(s) + multiset(es)
    ensures forall k :: HasKey(InsertAllSorted(s, es), k) <==> HasKey(s, k) || HasKey(es, k)
  {
    if es == [] {
      assert multiset(es) == multiset{};
    } else {
      var k := |es| - 1;
      NewKeysPrefix(s, es);
      InsertAllSortedMeaning(s, es[..k]);
      assert es == es[..k] + [es[k]];
      InsertSortedMeaning(InsertAllSorted(s, es[..k]), es[k]);
      LastKey(es);
    }
  }

  /** Splitting the entries into two portions changes nothing. */
  lemma {:induction false} InsertAllSortedConcat(s: seq<Entry>, a: seq<Entry>, b: seq<Entry>)
    ensures InsertAllSorted(s, a + b) == InsertAllSorted(InsertAllSorted(s, a), b)
  {
    if b == [] {
      assert a + b == a;
    } else {
      var b' := b[..|b| - 1];
      assert (a + b)[..|a + b| - 1] == a + b';
      InsertAllSortedConcat(s, a, b');
    }
  }
}
