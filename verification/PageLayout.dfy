/** The bytes of a page: records grow up from the header, value bytes grow down from the end. */
module PageLayout {
  import opened Measurements

  /** sizeof(Page::Header) */
  const HEADER_SIZE := 224
  /** sizeof(Meas) */
  const MEAS_SIZE := 56
  const VALUE_SIZE := 8

  /** calc_size */
  function CalcSize(n: nat): nat { HEADER_SIZE + MEAS_SIZE * n + VALUE_SIZE * n }

  /** The conversion of a difference to size_t. */
  function ToUnsigned(x: int): U64 { x % 0x1_0000_0000_0000_0000 }

  /** isFull: room for one more measurement is judged by the unsigned gap between the two regions. */
  predicate IsFullAt(writePos: nat, writeValuePos: nat) {
    ToUnsigned(writeValuePos - (HEADER_SIZE + MEAS_SIZE * writePos)) < MEAS_SIZE
  }

  // ---- which page sizes the full test protects ----

  /**
   What the full test measures after `w` eight-byte measurements: it allows sizeof(Meas) for each record,
   although a record takes only the 48 bytes of an InternalMeas.
   */
  function NominalGap(size: nat, w: nat): int { size - HEADER_SIZE - (MEAS_SIZE + VALUE_SIZE) * w }

  predicate FullAfter(size: nat, w: nat)
    requires VALUE_SIZE * w <= size
  {
    IsFullAt(w, size - VALUE_SIZE * w)
  }

  /** A run of appends gets to `w` measurements: none of the full tests before stopped it. */
  ghost predicate Reached(size: nat, w: nat) {
    VALUE_SIZE * w <= size && forall k :: 0 <= k < w ==> !FullAfter(size, k)
  }

  predicate GoodSize(size: nat) {
    HEADER_SIZE <= size < 0x1_0000_0000_0000_0000 && (size - HEADER_SIZE) % (MEAS_SIZE + VALUE_SIZE) < MEAS_SIZE
  }

  function Capacity(size: nat): nat
    requires HEADER_SIZE <= size
  {
    (size - HEADER_SIZE) / (MEAS_SIZE + VALUE_SIZE)
  }

  lemma FullIsSmallGap(size: nat, w: nat)
    requires size < 0x1_0000_0000_0000_0000 && VALUE_SIZE * w <= size && NominalGap(size, w) >= 0
    ensures FullAfter(size, w) <==> NominalGap(size, w) < MEAS_SIZE
  {
  }

  /** On a page of good size a run gets exactly as far as the capacity. */
  lemma {:induction false} ReachedIffCapacity(size: nat, w: nat)
    requires GoodSize(size)
    ensures Reached(size, w) <==> w <= Capacity(size)
  {
    var q := Capacity(size);
    if w <= q {
      forall k | 0 <= k < w
        ensures !FullAfter(size, k)
      {
        FullIsSmallGap(size, k);
      }
    } else {
      FullIsSmallGap(size, q);
      assert VALUE_SIZE * w <= size ==> FullAfter(size, q);
    }
  }

  /** The number the full test measures never gets negative if and only if the size is a good one. */
  lemma {:induction false} NominalGapNeverNegative(size: nat)
    requires HEADER_SIZE <= size < 0x1_0000_0000_0000_0000
    ensures (forall w: nat :: Reached(size, w) ==> NominalGap(size, w) >= 0) <==> GoodSize(size)
  {
    var q := Capacity(size);
    if GoodSize(size) {
      forall w: nat | Reached(size, w)
        ensures NominalGap(size, w) >= 0
      {
        ReachedIffCapacity(size, w);
      }
    } else {
      BadSizeRunsOn(size, q + 1);
      assert Reached(size, q + 1) && NominalGap(size, q + 1) < 0;
    }
  }

  /** The `w` records end no later than the `w` values begin. */
  predicate RegionsApart(size: nat, w: nat) { MetaAt(w) + VALUE_SIZE * w <= size }

  /** The number of measurements after which the regions of a page of bad size overlap. */
  function FirstOverlap(size: nat): nat
    requires HEADER_SIZE <= size
  {
    (size - HEADER_SIZE) / (META_SIZE + VALUE_SIZE) + 1
  }

  lemma {:induction false} BadGap(size: nat, k: nat)
    requires HEADER_SIZE <= size < 0x1_0000_0000_0000_0000 && !GoodSize(size) && NominalGap(size, k) >= 0
    ensures NominalGap(size, k) >= MEAS_SIZE
  {
    var q, r := (size - HEADER_SIZE) / 64, (size - HEADER_SIZE) % 64;
    assert size - HEADER_SIZE == 64 * q + r && r >= MEAS_SIZE;
    assert NominalGap(size, k) == 64 * (q - k) + r;
  }

  /** On a page of bad size the full test stops no run: it steps over the gaps it would have stopped at. */
  lemma {:induction false} BadSizeRunsOn(size: nat, w: nat)
    requires HEADER_SIZE <= size < 0x1_0000_0000_0000_0000 && !GoodSize(size) && w <= FirstOverlap(size)
    ensures Reached(size, w)
  {
    forall k | 0 <= k < w
      ensures !FullAfter(size, k)
    {
      var gap := NominalGap(size, k);
      if gap >= 0 {
        FullIsSmallGap(size, k);
        BadGap(size, k);
      } else {
        assert ToUnsigned(gap) == gap + 0x1_0000_0000_0000_0000;
      }
    }
  }

  /**
   Records and values stay apart in every run of appends if and only if the size is a good one: the
   remainder of the data area must be too small for the full test to admit one more measurement.
   */
  lemma {:induction false} RegionsStayApart(size: nat)
    requires HEADER_SIZE <= size < 0x1_0000_0000_0000_0000
    ensures (forall w: nat :: Reached(size, w) ==> RegionsApart(size, w)) <==> GoodSize(size)
  {
    if GoodSize(size) {
      forall w: nat | Reached(size, w)
        ensures RegionsApart(size, w)
      {
        ReachedIffCapacity(size, w);
      }
    } else {
      var w := FirstOverlap(size);
      BadSizeRunsOn(size, w);
      assert Reached(size, w) && !RegionsApart(size, w);
    }
  }

  /** A page with room for one Meas: two measurements are accepted, and the second record overwrites value bytes. */
  lemma {:induction false} RegionsOverlap()
    ensures var size := HEADER_SIZE + MEAS_SIZE;
            Reached(size, 2) && MetaAt(2) > size - VALUE_SIZE * 2 && !RegionsApart(size, 2)
  {
    BadSizeRunsOn(HEADER_SIZE + MEAS_SIZE, 2);
  }

  /** How it comes about: after the first measurement the unsigned gap has wrapped around. */
  lemma FullTestWrapsAround()
    ensures var size := HEADER_SIZE + MEAS_SIZE;
            RegionsApart(size, 1) && NominalGap(size, 1) == -8 && !FullAfter(size, 1)
  {
  }

  /** A page of `calc_size(n)` has a good size and takes exactly n eight-byte measurements. */
  lemma {:induction false} CalcSizeFits(n: nat, w: nat)
    requires CalcSize(n) < 0x1_0000_0000_0000_0000
    ensures GoodSize(CalcSize(n)) && Capacity(CalcSize(n)) == n
    ensures Reached(CalcSize(n), w) <==> w <= n
  {
    assert CalcSize(n) - HEADER_SIZE == 64 * n;
    ReachedIffCapacity(CalcSize(n), w);
  }

  // ---- memory ----

  /** The memory after `bytes` were copied to position `at`. */
  function Blit(mem: seq<Byte>, at: nat, bytes: seq<Byte>): (r: seq<Byte>)
    requires at + |bytes| <= |mem|
    ensures |r| == |mem|
  {
    mem[..at] + bytes + mem[at + |bytes|..]
  }

  lemma BlitReads(mem: seq<Byte>, at: nat, bytes: seq<Byte>)
    requires at + |bytes| <= |mem|
    ensures Blit(mem, at, bytes)[at..at + |bytes|] == bytes
  {
  }

  lemma BlitKeeps(mem: seq<Byte>, at: nat, bytes: seq<Byte>, lo: nat, hi: nat)
    requires at + |bytes| <= |mem| && lo <= hi <= |mem| && (hi <= at || at + |bytes| <= lo)
    ensures Blit(mem, at, bytes)[lo..hi] == mem[lo..hi]
  {
  }

  function MetaAt(i: nat): nat { HEADER_SIZE + META_SIZE * i }

  function ValueAt(size: nat, i: nat): nat
    requires VALUE_SIZE * (i + 1) <= size
  {
    size - VALUE_SIZE * (i + 1)
  }

  function Internal(m: Meas, valuePos: U64): InternalMeas {
    InternalMeas(m.id, m.time, m.source, m.flag, m.size, valuePos)
  }

  /** Both regions leave room for measurement number `i`. */
  predicate Fits(size: nat, i: nat) {
    VALUE_SIZE * (i + 1) <= size < 0x1_0000_0000_0000_0000 && MetaAt(i + 1) <= size - VALUE_SIZE * (i + 1)
  }

  /** Measurement number `i` is in the page, fields and value bytes. */
  ghost predicate Stored(mem: seq<Byte>, i: nat, m: Meas) {
    && EightBytes(m) && Fits(|mem|, i)
    && mem[MetaAt(i)..MetaAt(i + 1)] == Encode(Internal(m, ValueAt(|mem|, i)))
    && mem[ValueAt(|mem|, i)..ValueAt(|mem|, i) + VALUE_SIZE] == m.value[..VALUE_SIZE]
  }

  /** The memory after measurement number `i` was written. */
  function Put(mem: seq<Byte>, i: nat, m: Meas): (r: seq<Byte>)
    requires EightBytes(m) && Fits(|mem|, i)
    ensures |r| == |mem|
  {
    var v := ValueAt(|mem|, i);
    Blit(Blit(mem, v, m.value[..VALUE_SIZE]), MetaAt(i), Encode(Internal(m, v)))
  }

  lemma {:induction false} PutStores(mem: seq<Byte>, i: nat, m: Meas)
    requires EightBytes(m) && Fits(|mem|, i)
    ensures Stored(Put(mem, i, m), i, m)
  {
    var v := ValueAt(|mem|, i);
    var mem1 := Blit(mem, v, m.value[..VALUE_SIZE]);
    BlitReads(mem, v, m.value[..VALUE_SIZE]);
    BlitReads(mem1, MetaAt(i), Encode(Internal(m, v)));
    BlitKeeps(mem1, MetaAt(i), Encode(Internal(m, v)), v, v + VALUE_SIZE);
  }

  lemma {:induction false} PutKeepsBytes(mem: seq<Byte>, i: nat, m: Meas, lo: nat, hi: nat)
    requires EightBytes(m) && Fits(|mem|, i) && lo <= hi <= |mem|
    requires hi <= MetaAt(i) || ValueAt(|mem|, i) + VALUE_SIZE <= lo
    ensures Put(mem, i, m)[lo..hi] == mem[lo..hi]
  {
    var v := ValueAt(|mem|, i);
    var mem1 := Blit(mem, v, m.value[..VALUE_SIZE]);
    BlitKeeps(mem, v, m.value[..VALUE_SIZE], lo, hi);
    BlitKeeps(mem1, MetaAt(i), Encode(Internal(m, v)), lo, hi);
  }

  /** Writing a later measurement leaves an earlier one as it is. */
  lemma {:induction false} PutKeeps(mem: seq<Byte>, i: nat, m: Meas, k: nat, old_m: Meas)
    requires EightBytes(m) && Fits(|mem|, i) && k < i && Stored(mem, k, old_m)
    ensures Stored(Put(mem, i, m), k, old_m)
  {
    var w := ValueAt(|mem|, k);
    PutKeepsBytes(mem, i, m, MetaAt(k), MetaAt(k + 1));
    PutKeepsBytes(mem, i, m, w, w + VALUE_SIZE);
  }
}
