/** The write window of a page: for every id its latest measurement, over the whole history. */
module WriteWindow {
  import opened Measurements

  /** vector::resize: new places hold empty measurements. */
  function Resized(w: seq<Meas>, n: nat): (r: seq<Meas>)
    requires |w| <= n
    ensures |r| == n && r[..|w|] == w && forall i :: |w| <= i < n ==> r[i] == EMPTY
  {
    w + seq(n - |w|, _ => EMPTY)
  }

  /** updateWriteWindow */
  function Updated(w: seq<Meas>, m: Meas): seq<Meas> {
    if |w| <= m.id then Resized(w, m.id + 1)[m.id := m]
    else if w[m.id].time < m.time then w[m.id := m]
    else w
  }

  /** The window after all measurements of `ms` in order. */
  function UpdatedAll(w: seq<Meas>, ms: seq<Meas>): seq<Meas> {
    if ms == [] then w else Updated(UpdatedAll(w, ms[..|ms| - 1]), ms[|ms| - 1])
  }

  lemma {:induction false} UpdatedAllConcat(w: seq<Meas>, a: seq<Meas>, b: seq<Meas>)
    ensures UpdatedAll(w, a + b) == UpdatedAll(UpdatedAll(w, a), b)
  {
    if b == [] {
      assert a + b == a;
    } else {
      var b' := b[..|b| - 1];
      assert (a + b)[..|a + b| - 1] == a + b';
      UpdatedAllConcat(w, a, b');
    }
  }

  // ---- what the window holds ----

  /** Measurement number `k` is the first one of greatest time among those with its id. */
  ghost predicate IsLatest(h: seq<Meas>, k: nat) {
    && k < |h|
    && (forall j :: 0 <= j < |h| && h[j].id == h[k].id ==> h[j].time <= h[k].time)
    && (forall j :: 0 <= j < k && h[j].id == h[k].id ==> h[j].time < h[k].time)
  }

  ghost predicate Occurs(h: seq<Meas>, id: nat) {
    exists j :: 0 <= j < |h| && h[j].id == id
  }

  /** Place `id` of the window holds the latest measurement of that id, or nothing if there is none. */
  ghost predicate PlaceOk(w: seq<Meas>, h: seq<Meas>, id: nat) {
    if Occurs(h, id) then id < |w| && w[id].id == id && exists k: nat :: IsLatest(h, k) && w[id] == h[k]
    else id < |w| ==> w[id] == EMPTY
  }

  /** The window is that of the history `h`, and no longer than needed. */
  ghost predicate WindowOf(w: seq<Meas>, h: seq<Meas>) {
    && (forall id: nat :: PlaceOk(w, h, id))
    && (w != [] ==> Occurs(h, |w| - 1))
  }

  ghost predicate PositiveTimes(h: seq<Meas>) { forall i :: 0 <= i < |h| ==> h[i].time > 0 }

  lemma {:induction false} OccursAfter(h: seq<Meas>, m: Meas, id: nat)
    ensures Occurs(h + [m], id) <==> Occurs(h, id) || m.id == id
  {
    var h' := h + [m];
    assert h'[|h|] == m;
    assert forall j :: 0 <= j < |h| ==> h'[j] == h[j];
  }

  /** A measurement is the latest of its id after another was added, unless that one is later. */
  lemma {:induction false} LatestAfter(h: seq<Meas>, m: Meas, k: nat)
    requires IsLatest(h, k) && (m.id != h[k].id || m.time <= h[k].time)
    ensures IsLatest(h + [m], k) && (h + [m])[k] == h[k]
  {
    assert forall j :: 0 <= j < |h| ==> (h + [m])[j] == h[j];
  }

  lemma {:induction false} NewIsLatest(h: seq<Meas>, m: Meas)
    requires forall j :: 0 <= j < |h| && h[j].id == m.id ==> h[j].time < m.time
    ensures IsLatest(h + [m], |h|) && (h + [m])[|h|] == m
  {
    assert forall j :: 0 <= j < |h| ==> (h + [m])[j] == h[j];
  }

  lemma {:induction false} UpdatedPlace(w: seq<Meas>, h: seq<Meas>, m: Meas, id: nat)
    requires WindowOf(w, h) && PositiveTimes(h) && m.time > 0
    ensures PlaceOk(Updated(w, m), h + [m], id)
  {
    var w', h' := Updated(w, m), h + [m];
    assert PlaceOk(w, h, id);
    OccursAfter(h, m, id);
    if id != m.id {
      assert id < |w| ==> w'[id] == w[id];
      if Occurs(h, id) {
        var k: nat :| IsLatest(h, k) && w[id] == h[k];
        LatestAfter(h, m, k);
      }
    } else if Occurs(h, id) {
      var k: nat :| IsLatest(h, k) && w[id] == h[k];
      if w[id].time < m.time {
        NewIsLatest(h, m);
      } else {
        LatestAfter(h, m, k);
      }
    } else {
      NewIsLatest(h, m);
    }
  }

  lemma {:induction false} UpdatedWindow(w: seq<Meas>, h: seq<Meas>, m: Meas)
    requires WindowOf(w, h) && PositiveTimes(h) && m.time > 0
    ensures WindowOf(Updated(w, m), h + [m])
  {
    forall id: nat
      ensures PlaceOk(Updated(w, m), h + [m], id)
    {
      UpdatedPlace(w, h, m, id);
    }
    OccursAfter(h, m, |Updated(w, m)| - 1);
  }

  /** Whatever was appended before, the window continues to hold every id's latest measurement. */
  lemma {:induction false} WindowOfHistory(w: seq<Meas>, h: seq<Meas>, ms: seq<Meas>)
    requires WindowOf(w, h) && PositiveTimes(h + ms)
    ensures WindowOf(UpdatedAll(w, ms), h + ms)
  {
    if ms == [] {
      assert h + ms == h;
    } else {
      var k := |ms| - 1;
      assert h + ms == (h + ms[..k]) + [ms[k]];
      assert forall i :: 0 <= i < |h + ms[..k]| ==> (h + ms[..k])[i] == (h + ms)[i];
      assert (h + ms)[|h| + k] == ms[k];
      WindowOfHistory(w, h, ms[..k]);
      UpdatedWindow(UpdatedAll(w, ms[..k]), h + ms[..k], ms[k]);
    }
  }

  lemma {:induction false} EmptyWindow()
    ensures WindowOf([], [])
  {
  }

  // ---- saving and loading ----

  datatype File = Missing | Present(values: seq<Meas>)

  /** flushWriteWindow: an empty window leaves the file as it is. */
  method Flush(w: seq<Meas>, before: File) returns (file: File)
    ensures file == if w == [] then before else Present(w)
  {
    file := before;
    if |w| != 0 {
      var values: seq<Meas> := [];
      for i := 0 to |w|
        invariant values == w[..i]
      {
        values := values + [w[i]];
      }
      file := Present(values);
    }
  }

  /** loadWriteWindow: the read that hits the end of the file still delivers one empty measurement. */
  method Load(file: File) returns (w: seq<Meas>)
    ensures w == match file case Missing => [] case Present(values) => UpdatedAll([], values + [EMPTY])
  {
    w := [];
    if file.Missing? {
      return;
    }
    var values := file.values;
    var pos := 0;
    var eof := false;
    while !eof
      invariant 0 <= pos <= |values|
      invariant w == if eof then UpdatedAll([], values + [EMPTY]) else UpdatedAll([], values[..pos])
      decreases |values| - pos, !eof
    {
      if pos == |values| {
        assert values[..pos] == values && (values + [EMPTY])[..|values|] == values;
        w := Updated(w, EMPTY);
        eof := true;
      } else {
        assert values[..pos + 1][..pos] == values[..pos];
        w := Updated(w, values[pos]);
        pos := pos + 1;
      }
    }
  }

  /** Every place of a window is empty or holds a measurement of its own id; the last one was asked for by its id. */
  ghost predicate WellFormed(w: seq<Meas>) {
    && (forall i :: 0 <= i < |w| ==> w[i] == EMPTY || w[i].id == i)
    && (w != [] ==> w[|w| - 1].id == |w| - 1)
  }

  lemma {:induction false} UpdatedWellFormed(w: seq<Meas>, m: Meas)
    requires WellFormed(w)
    ensures WellFormed(Updated(w, m))
  {
    var w' := Updated(w, m);
    if |w| <= m.id {
      var r := Resized(w, m.id + 1);
      assert forall i :: 0 <= i < |w| ==> r[..|w|][i] == w[i];
      assert forall i :: 0 <= i < m.id ==> w'[i] == r[i];
    }
  }

  /** Whatever was appended, at whatever times, the window is well-formed. */
  lemma {:induction false} WindowIsWellFormed(h: seq<Meas>)
    ensures WellFormed(UpdatedAll([], h))
  {
    if h != [] {
      WindowIsWellFormed(h[..|h| - 1]);
      UpdatedWellFormed(UpdatedAll([], h[..|h| - 1]), h[|h| - 1]);
    }
  }

  /** One more saved place: an empty one changes nothing, another one extends the window up to it. */
  lemma {:induction false} LoadOne(w: seq<Meas>, n: nat, k: nat) returns (n': nat)
    requires WellFormed(w) && 1 <= n <= k < |w| && forall j :: n <= j < k ==> w[j] == EMPTY
    ensures 1 <= n' <= k + 1 && Updated(w[..n], w[k]) == w[..n'] && forall j :: n' <= j <= k ==> w[j] == EMPTY
  {
    if w[k] == EMPTY {
      n' := n;
    } else {
      n' := k + 1;
      var r := Resized(w[..n], k + 1)[k := w[k]];
      assert forall j :: 0 <= j < n ==> Resized(w[..n], k + 1)[..n][j] == w[j];
      assert forall j :: 0 <= j <= k ==> r[j] == w[j];
    }
  }

  lemma {:induction false} LoadFirst(w: seq<Meas>)
    requires WellFormed(w) && w != []
    ensures UpdatedAll([], w[..1]) == w[..1]
  {
    assert w[..1][..0] == [];
    assert UpdatedAll([], w[..1][..0]) == [];
    assert w[0].id == 0;
    assert Updated([], w[0]) == [w[0]];
    assert w[..1] == [w[0]];
  }

  lemma {:induction false} LoadNext(w: seq<Meas>, k: nat)
    requires 1 <= k <= |w|
    ensures UpdatedAll([], w[..k]) == Updated(UpdatedAll([], w[..k - 1]), w[k - 1])
  {
    assert w[..k][..k - 1] == w[..k - 1];
  }

  /** The window rebuilt from the first `k` saved places is a beginning of the window; what is missing is empty. */
  lemma {:induction false} LoadedPrefix(w: seq<Meas>, k: nat) returns (n: nat)
    requires WellFormed(w) && 1 <= k <= |w|
    ensures 1 <= n <= k && UpdatedAll([], w[..k]) == w[..n]
    ensures forall j :: n <= j < k ==> w[j] == EMPTY
  {
    if k == 1 {
      n := 1;
      LoadFirst(w);
    } else {
      n := LoadedPrefix(w, k - 1);
      LoadNext(w, k);
      n := LoadOne(w, n, k - 1);
    }
  }

  /** Saving and loading reproduces the window exactly. */
  lemma {:induction false} LoadedIsSaved(w: seq<Meas>)
    requires WellFormed(w) && w != []
    ensures UpdatedAll([], w + [EMPTY]) == w
  {
    var n := LoadedPrefix(w, |w|);
    assert w[..|w|] == w && (w + [EMPTY])[..|w|] == w;
    assert w[..n] == w;
  }

  /** A page closed and opened again has the window it had, whatever was appended. */
  method SaveAndLoad(w: seq<Meas>, ghost h: seq<Meas>) returns (r: seq<Meas>)
    requires w == UpdatedAll([], h)
    ensures r == w
  {
    var file := Flush(w, Missing);
    r := Load(file);
    if w != [] {
      WindowIsWellFormed(h);
      LoadedIsSaved(w);
    }
  }
}
