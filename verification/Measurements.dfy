/** Measurements, and how a page stores the numbers of one as bytes. */
module Measurements {

  type Byte = x: nat | x < 256

  type U64 = x: nat | x < 0x1_0000_0000_0000_0000

  /** A measurement; `size` bytes of the sixteen in `value` are meaningful. */
  datatype Meas = Meas(id: U64, time: U64, source: U64, flag: U64, value: seq<Byte>, size: U64)

  const EMPTY := Meas(0, 0, 0, 0, [0, 0, 0, 0, 0, 0, 0, 0, 0, 0, 0, 0, 0, 0, 0, 0], 0)

  /** A measurement that carries an eight-byte value. */
  predicate EightBytes(m: Meas) { |m.value| == 16 && m.size == 8 }

  // ---- little-endian numbers ----

  /** The lowest `k` bytes of a number, least significant first. */
  function LittleEndian(x: nat, k: nat): (r: seq<Byte>)
    ensures |r| == k
  {
    if k == 0 then [] else [x % 256] + LittleEndian(x / 256, k - 1)
  }

  function FromLittleEndian(bytes: seq<Byte>): nat {
    if bytes == [] then 0 else bytes[0] + 256 * FromLittleEndian(bytes[1..])
  }

  function Pow256(k: nat): nat { if k == 0 then 1 else 256 * Pow256(k - 1) }

  lemma {:induction false} LittleEndianRoundTrip(x: nat, k: nat)
    requires x < Pow256(k)
    ensures FromLittleEndian(LittleEndian(x, k)) == x
  {
    if k > 0 {
      LittleEndianRoundTrip(x / 256, k - 1);
      assert LittleEndian(x, k)[1..] == LittleEndian(x / 256, k - 1);
    }
  }

  function EncodeU64(x: U64): (r: seq<Byte>)
    ensures |r| == 8
  {
    LittleEndian(x, 8)
  }

  lemma {:induction false} U64RoundTrip(x: U64)
    ensures FromLittleEndian(EncodeU64(x)) == x
  {
    assert Pow256(8) == 256 * Pow256(7);
    assert Pow256(6) == 256 * Pow256(5) && Pow256(7) == 256 * Pow256(6);
    assert Pow256(4) == 256 * Pow256(3) && Pow256(5) == 256 * Pow256(4);
    assert Pow256(2) == 256 * Pow256(1) && Pow256(3) == 256 * Pow256(2);
    LittleEndianRoundTrip(x, 8);
  }

  // ---- the stored form of a measurement's fields ----

  /** InternalMeas: the fields of a measurement and where its value bytes are. */
  datatype InternalMeas = InternalMeas(id: U64, time: U64, source: U64, flag: U64, size: U64, valuePos: U64)

  const META_SIZE := 48

  function Encode(im: InternalMeas): (r: seq<Byte>)
    ensures |r| == META_SIZE
  {
    EncodeU64(im.id) + EncodeU64(im.time) + EncodeU64(im.source) + EncodeU64(im.flag) + EncodeU64(im.size) +
    EncodeU64(im.valuePos)
  }

  function Clip(x: nat): U64 { x % 0x1_0000_0000_0000_0000 }

  /** Eight bytes read as a number. */
  function DecodeU64(bytes: seq<Byte>): U64
    requires |bytes| == 8
  {
    Clip(FromLittleEndian(bytes))
  }

  function Decode(bytes: seq<Byte>): InternalMeas
    requires |bytes| == META_SIZE
  {
    InternalMeas(DecodeU64(bytes[0..8]), DecodeU64(bytes[8..16]), DecodeU64(bytes[16..24]),
                 DecodeU64(bytes[24..32]), DecodeU64(bytes[32..40]), DecodeU64(bytes[40..48]))
  }

  lemma {:induction false} DecodeEncodeU64(x: U64)
    ensures DecodeU64(EncodeU64(x)) == x
  {
    U64RoundTrip(x);
  }

  lemma {:induction false} SixSlices(a: seq<Byte>, b: seq<Byte>, c: seq<Byte>, d: seq<Byte>, e: seq<Byte>, f: seq<Byte>)
    requires |a| == |b| == |c| == |d| == |e| == |f| == 8
    ensures var s := a + b + c + d + e + f;
            && s[0..8] == a && s[8..16] == b && s[16..24] == c && s[24..32] == d && s[32..40] == e && s[40..48] == f
  {
  }

  /** Reading a stored record back gives the same record. */
  lemma {:induction false} RoundTrip(im: InternalMeas)
    ensures Decode(Encode(im)) == im
  {
    SixSlices(EncodeU64(im.id), EncodeU64(im.time), EncodeU64(im.source), EncodeU64(im.flag), EncodeU64(im.size),
              EncodeU64(im.valuePos));
    DecodeEncodeU64(im.id);
    DecodeEncodeU64(im.time);
    DecodeEncodeU64(im.source);
    DecodeEncodeU64(im.flag);
    DecodeEncodeU64(im.size);
    DecodeEncodeU64(im.valuePos);
  }

  /** Where the fields of a stored record are: eight bytes each, the least significant first. */
  lemma {:induction false} FieldPlaces(im: InternalMeas)
    ensures var b := Encode(im);
            && FromLittleEndian(b[0..8]) == im.id && FromLittleEndian(b[8..16]) == im.time
            && FromLittleEndian(b[16..24]) == im.source && FromLittleEndian(b[24..32]) == im.flag
            && FromLittleEndian(b[32..40]) == im.size && FromLittleEndian(b[40..48]) == im.valuePos
  {
    SixSlices(EncodeU64(im.id), EncodeU64(im.time), EncodeU64(im.source), EncodeU64(im.flag), EncodeU64(im.size),
              EncodeU64(im.valuePos));
    U64RoundTrip(im.id);
    U64RoundTrip(im.time);
    U64RoundTrip(im.source);
    U64RoundTrip(im.flag);
    U64RoundTrip(im.size);
    U64RoundTrip(im.valuePos);
  }

  // ---- time order ----

  ghost predicate SortedByTime(ms: seq<Meas>) {
    forall i, j :: 0 <= i < j < |ms| ==> ms[i].time <= ms[j].time
  }
}
