/** A page: appending single measurements and batches, and reading them back. */
module PageAppend {
  import opened Wrappers
  import opened Measurements
  import opened PageLayout
  import opened Entries
  import opened Bloom
  import WriteWindow

  // ---- the bytes ----

  /** memcpy into the page. */
  method CopyBytes(dst: array<Byte>, at: nat, src: seq<Byte>)
    requires at + |src| <= dst.Length
    modifies dst
    ensures dst[..] == Blit(old(dst[..]), at, src)
  {
    for i := 0 to |src|
      invariant forall k :: 0 <= k < i ==> dst[at + k] == src[k]
      invariant forall k :: 0 <= k < dst.Length && (k < at || at + i <= k) ==> dst[k] == old(dst[k])
    {
      dst[at + i] := src[i];
    }
  }

  /** All measurements are in the page. */
  ghost predicate AllStored(mem: seq<Byte>, ms: seq<Meas>) {
    forall i {:trigger Stored(mem, i, ms[i])} :: 0 <= i < |ms| ==> Stored(mem, i, ms[i])
  }

  lemma {:induction false} PutAllStored(mem: seq<Byte>, ms: seq<Meas>, m: Meas)
    requires AllStored(mem, ms) && EightBytes(m) && Fits(|mem|, |ms|)
    ensures AllStored(Put(mem, |ms|, m), ms + [m])
  {
    PutStores(mem, |ms|, m);
    forall k | 0 <= k < |ms|
      ensures Stored(Put(mem, |ms|, m), k, ms[k])
    {
      PutKeeps(mem, |ms|, m, k, ms[k]);
    }
  }

  /** The two copies of an append: the value bytes to the end of the free area, the record to its start. */
  method PutBytes(raw: array<Byte>, i: nat, m: Meas, valuePos: nat)
    requires EightBytes(m) && Fits(raw.Length, i) && valuePos == ValueAt(raw.Length, i)
    modifies raw
    ensures raw[..] == Put(old(raw[..]), i, m)
  {
    CopyBytes(raw, valuePos, m.value[..m.size]);
    CopyBytes(raw, HEADER_SIZE + META_SIZE * i, Encode(Internal(m, valuePos)));
  }

  // ---- the index records ----

  /** The records cover the positions 0 .. n - 1 without gap or overlap, each at least one. */
  ghost predicate Tiles(recs: seq<IndexRecord>, n: nat) {
    if recs == [] then n == 0
    else
      var r := recs[|recs| - 1];
      r.count >= 1 && r.pos + r.count == n && Tiles(recs[..|recs| - 1], r.pos)
  }

  lemma TilesAppend(recs: seq<IndexRecord>, n: nat, rec: IndexRecord)
    requires Tiles(recs, n) && rec.pos == n && rec.count >= 1
    ensures Tiles(recs + [rec], n + rec.count)
  {
    assert (recs + [rec])[..|recs|] == recs;
  }

  /** Tiling in terms of single positions: each lies in exactly one record. */
  lemma {:induction false} TilesMeansOnce(recs: seq<IndexRecord>, n: nat, p: nat) returns (k: nat)
    requires Tiles(recs, n) && p < n
    ensures k < |recs| && recs[k].pos <= p < recs[k].pos + recs[k].count
    ensures forall j :: 0 <= j < |recs| && recs[j].pos <= p < recs[j].pos + recs[j].count ==> j == k
  {
    var last := |recs| - 1;
    TilesBelow(recs[..last], recs[last].pos);
    assert forall j :: 0 <= j < last ==> recs[..last][j] == recs[j];
    if p >= recs[last].pos {
      k := last;
    } else {
      k := TilesMeansOnce(recs[..last], recs[last].pos, p);
    }
  }

  lemma {:induction false} TilesBelow(recs: seq<IndexRecord>, n: nat)
    requires Tiles(recs, n)
    ensures forall j :: 0 <= j < |recs| ==> recs[j].pos + recs[j].count <= n && recs[j].count >= 1
  {
    if recs != [] {
      var last := |recs| - 1;
      TilesBelow(recs[..last], recs[last].pos);
      assert forall j :: 0 <= j < last ==> recs[..last][j] == recs[j];
    }
  }

  /** The record's time span bounds every measurement it covers. */
  ghost predicate Spans(rec: IndexRecord, ms: seq<Meas>) {
    forall p :: rec.pos <= p < rec.pos + rec.count && p < |ms| ==> rec.minTime <= ms[p].time <= rec.maxTime
  }

  ghost predicate AllSpan(recs: seq<IndexRecord>, ms: seq<Meas>) {
    forall i :: 0 <= i < |recs| ==> recs[i].pos + recs[i].count <= |ms| && Spans(recs[i], ms)
  }

  lemma AllSpanAppend(recs: seq<IndexRecord>, ms: seq<Meas>, rec: IndexRecord)
    requires AllSpan(recs, ms) && rec.pos + rec.count <= |ms| && Spans(rec, ms)
    ensures AllSpan(recs + [rec], ms)
  {
  }

  lemma AllSpanGrow(recs: seq<IndexRecord>, ms: seq<Meas>, more: seq<Meas>)
    requires AllSpan(recs, ms)
    ensures AllSpan(recs, ms + more)
  {
    forall i | 0 <= i < |recs|
      ensures recs[i].pos + recs[i].count <= |ms + more| && Spans(recs[i], ms + more)
    {
      assert Spans(recs[i], ms);
    }
  }

  // ---- minimum and maximum ----

  /** The header's times: unset, or a range. */
  datatype MinMax = Unset | Range(min: U64, max: U64)

  function UpdateMinMax(r: MinMax, t: U64): MinMax {
    match r
    case Unset => Range(t, t)
    case Range(lo, hi) => Range(if t < lo then t else lo, if t > hi then t else hi)
  }

  /** The header's times after a batch: the first and the last of what was stored count, whatever is between them. */
  function BatchRange(r: MinMax, ms: seq<Meas>): MinMax {
    if ms == [] then r else UpdateMinMax(UpdateMinMax(r, ms[0].time), ms[|ms| - 1].time)
  }

  ghost predicate HasTime(ms: seq<Meas>, t: U64) { exists i :: 0 <= i < |ms| && ms[i].time == t }

  /** The range is that of the times of `ms`: it holds them all, and both ends occur. */
  ghost predicate Bounds(r: MinMax, ms: seq<Meas>) {
    && (r.Unset? <==> ms == [])
    && (r.Range? ==> HasTime(ms, r.min) && HasTime(ms, r.max))
    && (r.Range? ==> forall i :: 0 <= i < |ms| ==> r.min <= ms[i].time <= r.max)
  }

  lemma {:induction false} HasTimeGrow(ms: seq<Meas>, more: seq<Meas>, t: U64)
    requires HasTime(ms, t) || HasTime(more, t)
    ensures HasTime(ms + more, t)
  {
    if HasTime(ms, t) {
      var i :| 0 <= i < |ms| && ms[i].time == t;
      assert (ms + more)[i].time == t;
    } else {
      var i :| 0 <= i < |more| && more[i].time == t;
      assert (ms + more)[|ms| + i].time == t;
    }
  }

  /** The ends of a range come from what was there before or from what was added. */
  lemma {:induction false} EndsOccur(r: MinMax, r': MinMax, ms: seq<Meas>, more: seq<Meas>)
    requires Bounds(r, ms) && r'.Range?
    requires (r.Range? && r'.min == r.min) || HasTime(more, r'.min)
    requires (r.Range? && r'.max == r.max) || HasTime(more, r'.max)
    ensures HasTime(ms + more, r'.min) && HasTime(ms + more, r'.max)
  {
    HasTimeGrow(ms, more, r'.min);
    HasTimeGrow(ms, more, r'.max);
  }

  lemma {:induction false} SingleTimes(r: MinMax, recs: seq<IndexRecord>, ms: seq<Meas>, m: Meas)
    requires Bounds(r, ms) && AllSpan(recs, ms)
    ensures Bounds(UpdateMinMax(r, m.time), ms + [m])
    ensures AllSpan(recs + [IndexRecord(|ms|, 1, m.time, m.time)], ms + [m])
  {
    assert [m][0].time == m.time;
    EndsOccur(r, UpdateMinMax(r, m.time), ms, [m]);
    AllSpanGrow(recs, ms, [m]);
    AllSpanAppend(recs, ms + [m], IndexRecord(|ms|, 1, m.time, m.time));
  }

  /** For a batch in time order its first and its last time suffice. */
  lemma SortedBatchBounds(r: MinMax, ms: seq<Meas>, batch: seq<Meas>)
    requires Bounds(r, ms) && SortedByTime(batch) && batch != []
    ensures Bounds(UpdateMinMax(UpdateMinMax(r, batch[0].time), batch[|batch| - 1].time), ms + batch)
  {
    var r' := UpdateMinMax(UpdateMinMax(r, batch[0].time), batch[|batch| - 1].time);
    var all := ms + batch;
    assert HasTime(batch, batch[0].time) && HasTime(batch, batch[|batch| - 1].time);
    EndsOccur(r, r', ms, batch);
    forall i | 0 <= i < |all|
      ensures r'.min <= all[i].time <= r'.max
    {
      if i >= |ms| {
        var k := i - |ms|;
        assert batch[0].time <= batch[k].time <= batch[|batch| - 1].time;
      }
    }
  }

  lemma {:induction false} RoomForNext(size: nat, w: nat)
    requires GoodSize(size) && w <= Capacity(size)
    ensures VALUE_SIZE * w <= size
    ensures IsFullAt(w, size - VALUE_SIZE * w) <==> w == Capacity(size)
    ensures w < Capacity(size) ==> Fits(size, w)
  {
    FullIsSmallGap(size, w);
  }

  class Page {
    const raw: array<Byte>
    var writePos: nat
    var writeValuePos: nat
    var times: MinMax
    var filters: Filters
    var window: seq<Meas>
    var index: seq<IndexRecord>
    ghost var contents: seq<Meas>

    /** Page::Create: an empty page; its window is set by the page manager. */
    constructor (size: nat, window: seq<Meas>)
      requires GoodSize(size)
      ensures Valid() && TimesOk() && contents == [] && this.window == window && index == [] && raw.Length == size
      ensures fresh(raw)
    {
      raw := new Byte[size](_ => 0);
      writePos, writeValuePos, times, filters := 0, size, Unset, NO_FILTERS;
      this.window, index, contents := window, [], [];
    }

    /** Bytes, positions and filters agree with what was appended. */
    ghost predicate Sound()
      reads this`writePos, this`writeValuePos, this`filters, this`contents, raw
    {
      && GoodSize(raw.Length)
      && writePos == |contents| <= Capacity(raw.Length)
      && VALUE_SIZE * writePos <= raw.Length && writeValuePos == raw.Length - VALUE_SIZE * writePos
      && AllStored(raw[..], contents)
      && Fed(filters, contents)
    }

    ghost predicate Valid()
      reads this`writePos, this`writeValuePos, this`filters, this`contents, this`index, raw
    {
      Sound() && Tiles(index, |contents|)
    }

    /** The header's times and those of every index record bound what they cover. */
    ghost predicate TimesOk()
      reads this`times, this`contents, this`index
    {
      Bounds(times, contents) && AllSpan(index, contents)
    }

    /** isFull: true exactly when the capacity is reached. */
    method IsFull() returns (b: bool)
      requires Sound()
      ensures b == (|contents| == Capacity(raw.Length))
    {
      RoomForNext(raw.Length, writePos);
      b := IsFullAt(writePos, writeValuePos);
    }

    /** What both appends do with one measurement: value bytes, record, filters, window. */
    method PutMeas(m: Meas)
      requires Sound() && |contents| < Capacity(raw.Length) && EightBytes(m)
      modifies raw, this`writePos, this`writeValuePos, this`filters, this`window, this`contents
      ensures Sound() && contents == old(contents) + [m]
      ensures window == WriteWindow.Updated(old(window), m)
    {
      RoomForNext(raw.Length, writePos);
      window := WriteWindow.Updated(window, m);
      filters := AddMeas(filters, m);
      var newValuePos := writeValuePos - m.size;
      PutBytes(raw, writePos, m, newValuePos);
      writeValuePos := newValuePos;
      writePos := writePos + 1;
      PutAllStored(old(raw[..]), contents, m);
      FedAfter(old(filters), contents, m);
      contents := contents + [m];
    }

    /** writeIndexRec of the page's index, seen as the record of what was emitted. */
    method Emit(rec: IndexRecord)
      requires Tiles(index, rec.pos) && rec.count >= 1
      modifies this`index
      ensures index == old(index) + [rec] && Tiles(index, rec.pos + rec.count)
    {
      TilesAppend(index, rec.pos, rec);
      index := index + [rec];
    }

    /** append of one measurement; `writed` tells whether the page took it. */
    method Append(m: Meas) returns (writed: nat)
      requires Valid() && EightBytes(m)
      modifies this, raw
      ensures Valid() && (old(TimesOk()) ==> TimesOk())
      ensures writed == if |old(contents)| == Capacity(raw.Length) then 0 else 1
      ensures writed == 0 ==> contents == old(contents) && window == old(window) && index == old(index)
      ensures writed == 1 ==> contents == old(contents) + [m] && window == WriteWindow.Updated(old(window), m)
      ensures writed == 1 ==> index == old(index) + [IndexRecord(|old(contents)|, 1, m.time, m.time)]
      ensures times == if writed == 1 then UpdateMinMax(old(times), m.time) else old(times)
    {
      writed := 0;
      var full := IsFull();
      if !full {
        Accept(m);
        writed := writed + 1;
      }
    }

    method Accept(m: Meas)
      requires Valid() && EightBytes(m) && |contents| < Capacity(raw.Length)
      modifies this, raw
      ensures Valid() && (old(TimesOk()) ==> TimesOk())
      ensures contents == old(contents) + [m] && window == WriteWindow.Updated(old(window), m)
      ensures index == old(index) + [IndexRecord(|old(contents)|, 1, m.time, m.time)]
      ensures times == UpdateMinMax(old(times), m.time)
    {
      if TimesOk() {
        SingleTimes(times, index, contents, m);
      }
      ghost var after := contents + [m];
      times := UpdateMinMax(times, m.time);
      PutMeas(m);
      assert contents == after;
      Emit(IndexRecord(writePos - 1, 1, m.time, m.time));
    }

    /** One round of the batch loop: store measurement number `i`, and emit a record at every hundredth. */
    method BatchStep(begin: seq<Meas>, i: nat, start0: nat, base0: nat, ghost p0: nat) returns (start: nat, base: nat)
      requires Sound() && |contents| < Capacity(raw.Length) && i < |begin| && EightBytes(begin[i])
      requires Tiles(index, base0) && base0 == p0 + start0 && |contents| == p0 + i && OnGrid(start0, i)
      modifies raw, this`writePos, this`writeValuePos, this`filters, this`window, this`contents, this`index
      ensures Sound() && contents == old(contents) + [begin[i]]
      ensures window == WriteWindow.Updated(old(window), begin[i])
      ensures Tiles(index, base) && base == p0 + start && OnGrid(start, i + 1)
      ensures index == old(index) + HundredRecord(begin, i, start0, base0)
    {
      start, base := start0, base0;
      PutMeas(begin[i]);
      if i != 0 && i % 100 == 0 {
        Emit(IndexRecord(base, 100, begin[start].time, begin[i - 1].time));
        base := base + 100;
        start := i;
      }
    }

    /** A round of the batch loop that found room, as seen from the beginning of the batch. */
    method BatchRound(begin: seq<Meas>, i: nat, start0: nat, base0: nat,
                      ghost c0: seq<Meas>, ghost w0: seq<Meas>, ghost x0: seq<IndexRecord>)
      returns (start: nat, base: nat)
      requires Sound() && |contents| < Capacity(raw.Length) && i < |begin| && EightBytes(begin[i])
      requires Tiles(index, base0) && base0 == |c0| + start0 && start0 == StartOf(i)
      requires contents == c0 + begin[..i] && window == WriteWindow.UpdatedAll(w0, begin[..i])
      requires index == x0 + LoopRecords(begin, i, |c0|)
      modifies raw, this`writePos, this`writeValuePos, this`filters, this`window, this`contents, this`index
      ensures Sound() && contents == c0 + begin[..i + 1]
      ensures window == WriteWindow.UpdatedAll(w0, begin[..i + 1])
      ensures Tiles(index, base) && base == |c0| + start && start == StartOf(i + 1)
      ensures index == x0 + LoopRecords(begin, i + 1, |c0|)
    {
      ghost var c1, w1 := c0 + begin[..i + 1], WriteWindow.UpdatedAll(w0, begin[..i + 1]);
      ghost var x1 := x0 + LoopRecords(begin, i + 1, |c0|);
      LoopStep(begin, i, c0, w0, x0);
      start, base := BatchStep(begin, i, start0, base0, |c0|);
      assert contents == c1 && window == w1 && index == x1;
      GridStart(start, i + 1);
    }

    /** The loop of the batch append: it stops when the batch is stored or the page is full. */
    method BatchLoop(begin: seq<Meas>, ghost c0: seq<Meas>, ghost w0: seq<Meas>, ghost x0: seq<IndexRecord>)
      returns (i: nat, start: nat, base: nat)
      requires Valid() && AllEightBytes(begin) && contents == c0 && window == w0 && index == x0
      modifies raw, this`writePos, this`writeValuePos, this`filters, this`window, this`contents, this`index
      ensures Sound() && i <= |begin| && contents == c0 + begin[..i]
      ensures i < |begin| ==> |contents| == Capacity(raw.Length)
      ensures window == WriteWindow.UpdatedAll(w0, begin[..i])
      ensures Tiles(index, base) && start == StartOf(i) && base == |c0| + start
      ensures index == x0 + LoopRecords(begin, i, |c0|)
    {
      i, start, base := 0, 0, writePos;
      while i < |begin|
        invariant Sound() && i <= |begin| && contents == c0 + begin[..i]
        invariant window == WriteWindow.UpdatedAll(w0, begin[..i])
        invariant Tiles(index, base) && base == |c0| + start && start == StartOf(i)
        invariant index == x0 + LoopRecords(begin, i, |c0|)
      {
        var full := IsFull();
        if full {
          return;
        }
        start, base := BatchRound(begin, i, start, base, c0, w0, x0);
        i := i + 1;
      }
    }

    /** What follows the loop: the record for the rest of the batch. */
    method BatchTail(begin: seq<Meas>, i: nat, start: nat, base: nat, ghost p0: nat)
      requires i <= |begin| && Tiles(index, base) && start == StartOf(i) && base == p0 + start
      modifies this`index
      ensures Tiles(index, p0 + i) && index == old(index) + LastRecord(begin, i, p0)
    {
      if start != i {
        Emit(IndexRecord(base, i - start, begin[start].time, begin[i - 1].time));
      }
    }

    /** The update of the header's times at the end of a batch. */
    method BatchTimes(begin: seq<Meas>, writed: nat, ghost c0: seq<Meas>)
      requires writed <= |begin|
      modifies this`times
      ensures old(Bounds(times, c0)) && SortedByTime(begin) ==> Bounds(times, c0 + begin[..writed])
      ensures times == BatchRange(old(times), begin[..writed])
    {
      if old(Bounds(times, c0)) && SortedByTime(begin) {
        if writed != 0 {
          SortedBatchBounds(times, c0, begin[..writed]);
        } else {
          assert c0 + begin[..writed] == c0;
        }
      }
      if writed != 0 {
        times := UpdateMinMax(times, begin[0].time);
        times := UpdateMinMax(times, begin[writed - 1].time);
      }
    }

    /** The batch without the header's times. */
    method BatchStore(begin: seq<Meas>, ghost c0: seq<Meas>, ghost w0: seq<Meas>, ghost x0: seq<IndexRecord>)
      returns (writed: nat)
      requires Valid() && AllEightBytes(begin) && contents == c0 && window == w0 && index == x0
      modifies raw, this`writePos, this`writeValuePos, this`filters, this`window, this`contents, this`index
      ensures Valid() && writed <= |begin| && contents == c0 + begin[..writed]
      ensures writed < |begin| ==> |contents| == Capacity(raw.Length)
      ensures window == WriteWindow.UpdatedAll(w0, begin[..writed])
      ensures index == x0 + BatchRecords(begin, writed, |c0|)
    {
      var start, base;
      writed, start, base := BatchLoop(begin, c0, w0, x0);
      BatchTail(begin, writed, start, base, |c0|);
      assert index == x0 + BatchRecords(begin, writed, |c0|);
    }

    /** append of a batch: as many measurements as fit, in order; `writed` says how many. */
    method AppendBatch(begin: seq<Meas>) returns (writed: nat)
      requires Valid() && AllEightBytes(begin)
      modifies this, raw
      ensures Valid() && (old(TimesOk()) && SortedByTime(begin) ==> TimesOk())
      ensures writed == if |begin| <= Capacity(raw.Length) - |old(contents)| then |begin|
                        else Capacity(raw.Length) - |old(contents)|
      ensures contents == old(contents) + begin[..writed]
      ensures window == WriteWindow.UpdatedAll(old(window), begin[..writed])
      ensures index == old(index) + BatchRecords(begin, writed, |old(contents)|)
      ensures times == BatchRange(old(times), begin[..writed])
    {
      ghost var c0, x0 := contents, index;
      writed := BatchStore(begin, contents, window, index);
      BatchTimes(begin, writed, c0);
      BatchRecordsSpan(x0, c0, begin, writed);
    }

    /** read: measurement number `position`, fields and value bytes as they were appended. */
    method Read(position: nat) returns (result: Option<Meas>)
      requires Sound()
      ensures position >= |contents| ==> result == None
      ensures position < |contents| ==> result.Some? && ReadsAs(result.value, contents[position])
      ensures position < |contents| ==> EightBytes(contents[position]) && result == Some(AsRead(contents[position]))
    {
      if writePos == 0 || writePos <= position {
        return None;
      }
      assert Stored(raw[..], position, contents[position]);
      ReadStored(raw[..], position, contents[position]);
      AsReadReads(contents[position]);
      var im := Decode(raw[HEADER_SIZE + META_SIZE * position..HEADER_SIZE + META_SIZE * (position + 1)]);
      var value := raw[im.valuePos..im.valuePos + im.size];
      result := Some(Meas(im.id, im.time, im.source, im.flag, value + EMPTY.value[im.size..], im.size));
    }
  }

  /** `r` has the fields and the eight value bytes of `m`; the rest of its sixteen value bytes is zero. */
  predicate ReadsAs(r: Meas, m: Meas) {
    && r.id == m.id && r.time == m.time && r.source == m.source && r.flag == m.flag && r.size == m.size == 8
    && |r.value| == |m.value| == 16
    && (forall i :: 0 <= i < 8 ==> r.value[i] == m.value[i]) && (forall i :: 8 <= i < 16 ==> r.value[i] == 0)
  }

  /** A measurement as `read` delivers it: the eight value bytes, the rest of the sixteen zero. */
  function AsRead(m: Meas): Meas
    requires EightBytes(m)
  {
    m.(value := m.value[..8] + EMPTY.value[8..])
  }

  lemma AsReadReads(m: Meas)
    requires EightBytes(m)
    ensures ReadsAs(AsRead(m), m)
  {
  }

  ghost predicate AllEightBytes(ms: seq<Meas>) { forall i :: 0 <= i < |ms| ==> EightBytes(ms[i]) }

  /** Where the batch loop stands before measurement `i`: the current record starts at the last full hundred. */
  predicate OnGrid(start: nat, i: nat) {
    start % 100 == 0 && (if i == 0 then start == 0 else start < i <= start + 100)
  }

  /** First position, within the batch, of the record under way before measurement `i`. */
  function StartOf(i: nat): nat { if i == 0 then 0 else (i - 1) / 100 * 100 }

  lemma GridStart(start: nat, i: nat)
    ensures OnGrid(start, i) <==> start == StartOf(i)
  {
  }

  /** What one round of the batch loop emits. */
  function HundredRecord(begin: seq<Meas>, i: nat, start: nat, base: nat): seq<IndexRecord>
    requires i < |begin| && start <= i
  {
    if i != 0 && i % 100 == 0 then
      [IndexRecord(base, 100, begin[start].time, begin[if i == 0 then 0 else i - 1].time)]
    else []
  }

  /** What the batch loop emits for the first `k` measurements of a batch that goes to position `p0`. */
  function LoopRecords(begin: seq<Meas>, k: nat, p0: nat): seq<IndexRecord>
    requires k <= |begin|
  {
    if k == 0 then []
    else LoopRecords(begin, k - 1, p0) + HundredRecord(begin, k - 1, StartOf(k - 1), p0 + StartOf(k - 1))
  }

  /** What is emitted after the loop. */
  function LastRecord(begin: seq<Meas>, k: nat, p0: nat): seq<IndexRecord>
    requires k <= |begin|
  {
    if k == 0 then []
    else [IndexRecord(p0 + StartOf(k), k - StartOf(k), begin[StartOf(k)].time, begin[k - 1].time)]
  }

  /** All a batch of which `k` measurements are stored adds to the index. */
  function BatchRecords(begin: seq<Meas>, k: nat, p0: nat): seq<IndexRecord>
    requires k <= |begin|
  {
    LoopRecords(begin, k, p0) + LastRecord(begin, k, p0)
  }

  lemma {:induction false} LoopStep(begin: seq<Meas>, i: nat, c0: seq<Meas>, w0: seq<Meas>, x0: seq<IndexRecord>)
    requires i < |begin|
    ensures c0 + begin[..i + 1] == c0 + begin[..i] + [begin[i]]
    ensures WriteWindow.UpdatedAll(w0, begin[..i + 1]) ==
            WriteWindow.Updated(WriteWindow.UpdatedAll(w0, begin[..i]), begin[i])
    ensures x0 + LoopRecords(begin, i + 1, |c0|) ==
            x0 + LoopRecords(begin, i, |c0|) + HundredRecord(begin, i, StartOf(i), |c0| + StartOf(i))
    ensures OnGrid(StartOf(i), i)
  {
    assert begin[..i + 1][..i] == begin[..i];
    GridStart(StartOf(i), i);
  }

  /** Measurements `p0` .. of the page are the first `k` of the batch. */
  ghost predicate Holds(ms: seq<Meas>, p0: nat, begin: seq<Meas>, k: nat) {
    k <= |begin| && p0 + k <= |ms| && forall j :: 0 <= j < k ==> ms[p0 + j] == begin[j]
  }

  /** A record over positions of a batch in time order spans their times. */
  lemma BatchSpan(ms: seq<Meas>, p0: nat, batch: seq<Meas>, start: nat, i: nat, rec: IndexRecord)
    requires start < i && Holds(ms, p0, batch, i) && SortedByTime(batch)
    requires rec == IndexRecord(p0 + start, i - start, batch[start].time, batch[i - 1].time)
    ensures Spans(rec, ms)
  {
    forall p | rec.pos <= p < rec.pos + rec.count
      ensures rec.minTime <= ms[p].time <= rec.maxTime
    {
      var k := p - p0;
      assert ms[p0 + k] == batch[k];
    }
  }

  /** The records of a batch: one to a hundred positions each, spanning the times of a batch in time order. */
  lemma {:induction false} LoopRecordsSpan(ms: seq<Meas>, p0: nat, begin: seq<Meas>, k: nat)
    requires Holds(ms, p0, begin, k)
    ensures forall r :: 0 <= r < |LoopRecords(begin, k, p0)| ==> LoopRecords(begin, k, p0)[r].count == 100
    ensures SortedByTime(begin) ==> AllSpan(LoopRecords(begin, k, p0), ms)
  {
    if k > 0 {
      LoopRecordsSpan(ms, p0, begin, k - 1);
      var s, i := StartOf(k - 1), k - 1;
      if SortedByTime(begin) && i != 0 && i % 100 == 0 {
        var rec := IndexRecord(p0 + s, 100, begin[s].time, begin[i - 1].time);
        BatchSpan(ms, p0, begin, s, i, rec);
        AllSpanAppend(LoopRecords(begin, k - 1, p0), ms, rec);
      }
    }
  }

  lemma {:induction false} BatchRecordsSpan(recs: seq<IndexRecord>, ms: seq<Meas>, begin: seq<Meas>, k: nat)
    requires k <= |begin|
    ensures forall r | r in BatchRecords(begin, k, |ms|) :: 1 <= r.count <= 100
    ensures var recs' := BatchRecords(begin, k, |ms|); forall i :: 0 <= i < |recs'| - 1 ==> recs'[i].count == 100
    ensures AllSpan(recs, ms) && SortedByTime(begin) ==>
              AllSpan(recs + BatchRecords(begin, k, |ms|), ms + begin[..k])
  {
    var all := ms + begin[..k];
    assert Holds(all, |ms|, begin, k);
    LoopRecordsSpan(all, |ms|, begin, k);
    var loop, last := LoopRecords(begin, k, |ms|), LastRecord(begin, k, |ms|);
    if AllSpan(recs, ms) && SortedByTime(begin) {
      AllSpanGrow(recs, ms, begin[..k]);
      if k > 0 {
        BatchSpan(all, |ms|, begin, StartOf(k), k, last[0]);
      }
      AllSpanConcat(recs, loop, last, all);
    }
  }

  lemma {:induction false} AllSpanConcat(a: seq<IndexRecord>, b: seq<IndexRecord>, c: seq<IndexRecord>, ms: seq<Meas>)
    requires AllSpan(a, ms) && AllSpan(b, ms) && AllSpan(c, ms)
    ensures AllSpan(a + (b + c), ms)
  {
  }

  lemma {:induction false} ReadStored(mem: seq<Byte>, i: nat, m: Meas)
    requires Stored(mem, i, m)
    ensures Decode(mem[MetaAt(i)..MetaAt(i + 1)]) == Internal(m, ValueAt(|mem|, i))
  {
    RoundTrip(Internal(m, ValueAt(|mem|, i)));
  }
}
