/** The one-word bloom filters of a page header: the OR of everything added. */
module Bloom {
  import opened Measurements

  function Add(fltr: bv64, val: bv64): bv64 { fltr | val }

  predicate Check(fltr: bv64, val: bv64) { fltr & val == val }

  function Word(x: U64): bv64 { x as bv64 }

  // ---- bits ----

  /** The word has one of the bits of `mask`; for a mask of one bit: it has that bit. */
  predicate HasBit(x: bv64, mask: bv64) { x & mask != 0 }

  lemma Missing(fltr: bv64, val: bv64)
    ensures HasBit(val, val & !fltr) <==> !Check(fltr, val)
    ensures !HasBit(fltr, val & !fltr)
  {
  }

  lemma SharedBit(fltr: bv64, val: bv64, mask: bv64)
    requires Check(fltr, val) && HasBit(val, mask)
    ensures HasBit(fltr, mask)
  {
  }

  /** A filter admits a word if and only if it has every bit of it. */
  lemma CheckIff(fltr: bv64, val: bv64)
    ensures Check(fltr, val) <==> forall mask: bv64 :: HasBit(val, mask) ==> HasBit(fltr, mask)
  {
    Missing(fltr, val);
    if Check(fltr, val) {
      forall mask: bv64 | HasBit(val, mask)
        ensures HasBit(fltr, mask)
      {
        SharedBit(fltr, val, mask);
      }
    }
  }

  lemma OldBitStays(fltr: bv64, val: bv64, mask: bv64)
    requires HasBit(fltr, mask)
    ensures HasBit(Add(fltr, val), mask)
  {
  }

  lemma NewBitIsSet(fltr: bv64, val: bv64, mask: bv64)
    requires HasBit(val, mask)
    ensures HasBit(Add(fltr, val), mask)
  {
  }

  lemma NoOtherBit(fltr: bv64, val: bv64, mask: bv64)
    requires !HasBit(fltr, mask) && !HasBit(val, mask)
    ensures !HasBit(Add(fltr, val), mask)
  {
  }

  lemma AddBits(fltr: bv64, val: bv64, sum: bv64, mask: bv64)
    requires sum == Add(fltr, val)
    ensures HasBit(sum, mask) <==> HasBit(fltr, mask) || HasBit(val, mask)
  {
    if HasBit(fltr, mask) {
      OldBitStays(fltr, val, mask);
    } else if HasBit(val, mask) {
      NewBitIsSet(fltr, val, mask);
    } else {
      NoOtherBit(fltr, val, mask);
    }
  }

  lemma ZeroHasNone(x: bv64)
    ensures x == 0 <==> forall mask: bv64 :: !HasBit(x, mask)
  {
    assert x != 0 ==> HasBit(x, x);
  }

  // ---- a filter and the numbers it was fed ----

  /** One of the numbers has a bit of the mask. */
  ghost predicate SomeHas(xs: seq<U64>, mask: bv64) { exists i :: 0 <= i < |xs| && HasBit(Word(xs[i]), mask) }

  lemma {:induction false} SomeHasMore(xs: seq<U64>, x: U64, mask: bv64)
    ensures SomeHas(xs + [x], mask) <==> SomeHas(xs, mask) || HasBit(Word(x), mask)
  {
    assert forall i :: 0 <= i < |xs| ==> (xs + [x])[i] == xs[i];
    assert (xs + [x])[|xs|] == x;
  }

  /** At the bits of the mask the filter is the OR of the numbers. */
  ghost predicate BitOf(fltr: bv64, xs: seq<U64>, mask: bv64) { HasBit(fltr, mask) <==> SomeHas(xs, mask) }

  /** The filter has exactly the bits that occur in one of the numbers. */
  ghost predicate BitsOf(fltr: bv64, xs: seq<U64>) { forall mask: bv64 :: BitOf(fltr, xs, mask) }

  lemma {:induction false} BitsOfMore(fltr: bv64, xs: seq<U64>, x: U64)
    requires BitsOf(fltr, xs)
    ensures BitsOf(Add(fltr, Word(x)), xs + [x])
  {
    forall mask: bv64
      ensures BitOf(Add(fltr, Word(x)), xs + [x], mask)
    {
      assert BitOf(fltr, xs, mask);
      SomeHasMore(xs, x, mask);
      AddBits(fltr, Word(x), Add(fltr, Word(x)), mask);
    }
  }

  /** Every bit of the number occurs in one of the numbers. */
  ghost predicate Covered(x: U64, xs: seq<U64>) {
    forall mask: bv64 :: HasBit(Word(x), mask) ==> SomeHas(xs, mask)
  }

  /** None of the numbers has any bit. */
  ghost predicate NoBits(xs: seq<U64>) { forall mask: bv64 :: !SomeHas(xs, mask) }

  /** A filter admits exactly the numbers whose bits all occur in those it was fed, and is zero if these have none. */
  lemma {:induction false} AdmitsIff(fltr: bv64, xs: seq<U64>, x: U64)
    requires BitsOf(fltr, xs)
    ensures Check(fltr, Word(x)) <==> Covered(x, xs)
    ensures fltr == 0 <==> NoBits(xs)
  {
    forall mask: bv64
      ensures HasBit(fltr, mask) <==> SomeHas(xs, mask)
    {
      assert BitOf(fltr, xs, mask);
    }
    CheckIff(fltr, Word(x));
    ZeroHasNone(fltr);
  }

  // ---- the three filters of a header ----

  datatype Filters = Filters(id: bv64, flag: bv64, source: bv64)

  const NO_FILTERS := Filters(0, 0, 0)

  function AddMeas(f: Filters, m: Meas): Filters {
    Filters(Add(f.id, Word(m.id)), Add(f.flag, Word(m.flag)), Add(f.source, Word(m.source)))
  }

  function Ids(ms: seq<Meas>): (r: seq<U64>)
    ensures |r| == |ms| && forall i :: 0 <= i < |ms| ==> r[i] == ms[i].id
  {
    seq(|ms|, i requires 0 <= i < |ms| => ms[i].id)
  }

  function Flags(ms: seq<Meas>): (r: seq<U64>)
    ensures |r| == |ms| && forall i :: 0 <= i < |ms| ==> r[i] == ms[i].flag
  {
    seq(|ms|, i requires 0 <= i < |ms| => ms[i].flag)
  }

  function Sources(ms: seq<Meas>): (r: seq<U64>)
    ensures |r| == |ms| && forall i :: 0 <= i < |ms| ==> r[i] == ms[i].source
  {
    seq(|ms|, i requires 0 <= i < |ms| => ms[i].source)
  }

  /** The filters of a page that took `ms`: one has the bits of the ids, one of the flags, one of the sources. */
  ghost predicate Fed(f: Filters, ms: seq<Meas>) {
    forall mask: bv64 {:trigger FedAt(f, ms, mask)} :: FedAt(f, ms, mask)
  }

  ghost predicate FedAt(f: Filters, ms: seq<Meas>, mask: bv64) {
    BitOf(f.id, Ids(ms), mask) && BitOf(f.flag, Flags(ms), mask) && BitOf(f.source, Sources(ms), mask)
  }

  lemma {:induction false} FedFields(f: Filters, ms: seq<Meas>)
    ensures Fed(f, ms) <==> BitsOf(f.id, Ids(ms)) && BitsOf(f.flag, Flags(ms)) && BitsOf(f.source, Sources(ms))
  {
    if Fed(f, ms) {
      forall mask: bv64
        ensures BitOf(f.id, Ids(ms), mask) && BitOf(f.flag, Flags(ms), mask) && BitOf(f.source, Sources(ms), mask)
      {
        assert FedAt(f, ms, mask);
      }
    }
  }

  /** A measurement more: whatever was there before, the filters get its bits and no others. */
  lemma {:induction false} FedAfter(f: Filters, ms: seq<Meas>, m: Meas)
    requires Fed(f, ms)
    ensures Fed(AddMeas(f, m), ms + [m])
  {
    FedFields(f, ms);
    BitsOfMore(f.id, Ids(ms), m.id);
    BitsOfMore(f.flag, Flags(ms), m.flag);
    BitsOfMore(f.source, Sources(ms), m.source);
    FieldsMore(ms, m);
    FedFields(AddMeas(f, m), ms + [m]);
  }

  lemma {:induction false} FieldsMore(ms: seq<Meas>, m: Meas)
    ensures Ids(ms + [m]) == Ids(ms) + [m.id]
    ensures Flags(ms + [m]) == Flags(ms) + [m.flag]
    ensures Sources(ms + [m]) == Sources(ms) + [m.source]
  {
  }

  predicate Admits(f: Filters, m: Meas) {
    Check(f.id, Word(m.id)) && Check(f.flag, Word(m.flag)) && Check(f.source, Word(m.source))
  }

  lemma {:induction false} ListedIsAdmitted(fltr: bv64, xs: seq<U64>, i: nat)
    requires BitsOf(fltr, xs) && i < |xs|
    ensures Check(fltr, Word(xs[i]))
  {
    AdmitsIff(fltr, xs, xs[i]);
  }

  /** The filters admit every measurement the page took. */
  lemma {:induction false} AdmitsTaken(f: Filters, ms: seq<Meas>, i: nat)
    requires Fed(f, ms) && i < |ms|
    ensures Admits(f, ms[i])
  {
    FedFields(f, ms);
    ListedIsAdmitted(f.id, Ids(ms), i);
    ListedIsAdmitted(f.flag, Flags(ms), i);
    ListedIsAdmitted(f.source, Sources(ms), i);
  }
}
