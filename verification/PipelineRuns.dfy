/** Whole runs of the write path: what holds in every state reached, and what a reader finds. */
module PipelineRuns {
  import opened Wrappers
  import opened Measurements
  import opened CacheWriter
  import opened WritePipeline

  /** The invariant holds in every state any interleaving reaches. */
  lemma {:induction false} EveryRun(poolSize: nat, c: Config, events: seq<Event>)
    requires poolSize >= 1 && Run(Start(poolSize), c, events).Some?
    ensures Inv(Run(Start(poolSize), c, events).value, c)
  {
    if events != [] {
      var before := events[..|events| - 1];
      EveryRun(poolSize, c, before);
      NextKeeps(Run(Start(poolSize), c, before).value, c, events[|events| - 1]);
    }
  }

  // ---- the scan of the pool ----

  function Scans(n: nat): seq<Event> { seq(n, _ => ScanNext) }

  /** The last cache before `n` that is not marked. */
  function LastFree(pool: seq<CacheState>, n: nat): Option<nat>
    requires n <= |pool|
  {
    if n == 0 then None else if pool[n - 1].sync then LastFree(pool, n - 1) else Some(n - 1)
  }

  lemma {:induction false} LastFreeIs(pool: seq<CacheState>, n: nat, i: nat)
    requires i < n <= |pool| && !pool[i].sync && forall j :: i < j < n ==> pool[j].sync
    ensures LastFree(pool, n) == Some(i)
    decreases n
  {
    if i < n - 1 {
      LastFreeIs(pool, n - 1, i);
    }
  }

  lemma {:induction false} NoneFree(pool: seq<CacheState>, n: nat)
    requires n <= |pool| && forall j :: 0 <= j < n ==> pool[j].sync
    ensures LastFree(pool, n) == None
  {
    if n > 0 {
      NoneFree(pool, n - 1);
    }
  }

  lemma {:induction false} ScanSteps(s: State, c: Config, back: Resume, n: nat)
    requires s.client == Scan(0, None, back) && n <= |s.pool|
    ensures Run(s, c, Scans(n)) == Some(s.(client := Scan(n, LastFree(s.pool, n), back)))
  {
    if n > 0 {
      ScanSteps(s, c, back, n - 1);
      assert Scans(n)[..n - 1] == Scans(n - 1);
    }
  }

  lemma {:induction false} ScanRound(s: State, c: Config, back: Resume)
    requires s.client == Scan(0, None, back)
    ensures var free := LastFree(s.pool, |s.pool|);
            Run(s, c, Scans(|s.pool| + 1)) ==
            Some(if free.Some? then s.(cur := free, client := Resumed(back)) else s)
  {
    var n := |s.pool|;
    ScanSteps(s, c, back, n);
    assert Scans(n + 1)[..n] == Scans(n);
  }

  /**
   A scan nobody disturbs gives what getCache gives on the pool: the last cache that is not marked; without one
   it starts over.
   */
  lemma {:induction false} ScanAlone(s: State, c: Config, back: Resume)
    requires s.client == Scan(0, None, back)
    ensures forall i :: 0 <= i < |s.pool| && !s.pool[i].sync && (forall j :: i < j < |s.pool| ==> s.pool[j].sync) ==>
              Run(s, c, Scans(|s.pool| + 1)) == Some(s.(cur := Some(i), client := Resumed(back)))
    ensures (forall j :: 0 <= j < |s.pool| ==> s.pool[j].sync) ==> Run(s, c, Scans(|s.pool| + 1)) == Some(s)
  {
    ScanRound(s, c, back);
    forall i | 0 <= i < |s.pool| && !s.pool[i].sync && (forall j :: i < j < |s.pool| ==> s.pool[j].sync)
      ensures LastFree(s.pool, |s.pool|) == Some(i)
    {
      LastFreeIs(s.pool, |s.pool|, i);
    }
    if forall j :: 0 <= j < |s.pool| ==> s.pool[j].sync {
      NoneFree(s.pool, |s.pool|);
    }
  }

  // ---- the reader's barrier ----

  /**
   A reader that ran writeCache, saw the queue empty and then got the worker's lock finds every
   accepted measurement in the pages.
   */
  lemma {:induction false} ReaderSeesAll(poolSize: nat, c: Config, events: seq<Event>)
    requires poolSize >= 1 && Run(Start(poolSize), c, events).Some?
    requires Run(Start(poolSize), c, events).value.client.Reading?
    ensures var s := Run(Start(poolSize), c, events).value; multiset(Flatten(s.pages)) == s.accepted
  {
    EveryRun(poolSize, c, events);
  }

  /** Until it gives the lock back, no step of anyone changes the pages or the caches. */
  lemma {:induction false} ReaderUndisturbed(s: State, c: Config, e: Event)
    requires Inv(s, c) && s.client.Reading? && Next(s, c, e).Some?
    ensures Next(s, c, e).value.pages == s.pages && Next(s, c, e).value.pool == s.pool
    ensures e.EndRead? || Next(s, c, e).value == s
  {
  }

  // ---- the empty queue alone is no barrier ----

  /** A reader that saw the queue empty finds everything in the pages if and only if the worker has no more to write. */
  lemma {:induction false} EmptyQueueIff(s: State, c: Config)
    requires Inv(s, c) && s.client.TakeLock?
    ensures multiset(Flatten(s.pages)) == s.accepted <==> Todo(s.worker) == []
  {
    var todo, written := multiset(Todo(s.worker)), multiset(Flatten(s.pages));
    assert s.accepted == todo + written;
    assert |todo + written| == |todo| + |written|;
    assert |todo| == |Todo(s.worker)|;
  }

  /** A run from two empty caches, extended by one step. */
  lemma {:induction false} Do(c: Config, events: seq<Event>, s: State, e: Event)
    returns (events': seq<Event>, s': State)
    ensures Run(Start(2), c, events) == Some(s) && Next(s, c, e).Some? ==>
              Run(Start(2), c, events') == Some(s') && s' == Next(s, c, e).value
  {
    events', s' := events + [e], if Next(s, c, e).Some? then Next(s, c, e).value else s;
    assert events'[..|events|] == events;
  }

  /** One measurement appended with a pool of two caches; then a reader hands the cache over. */
  lemma {:induction false} ReaderHandsOver(c: Config, m: Meas) returns (events: seq<Event>, s: State)
    requires c.cacheSize >= 1
    ensures Run(Start(2), c, events) == Some(s)
    ensures s == State([CacheState([], false), CacheState([m], true)], None, [1], Scan(0, None, ToWait), Waiting,
                       NoOne, [[]], multiset{m}, [[m]], [])
  {
    events, s := OneAppended(c, m);
    events, s := Do(c, events, s, CallRead);
    events, s := Do(c, events, s, BeginSync);
    assert s.pool == [CacheState([], false), CacheState([m], true)];
    events, s := Do(c, events, s, Enqueue);
    assert s.queue == [1] && s.handed == [[m]];
  }

  lemma {:induction false} OneAppended(c: Config, m: Meas) returns (events: seq<Event>, s: State)
    requires c.cacheSize >= 1
    ensures Run(Start(2), c, events) == Some(s)
    ensures s == State([CacheState([], false), CacheState([m], false)], Some(1), [], Idle, Waiting, NoOne, [[]],
                       multiset{m}, [], [])
  {
    events, s := [], Start(2);
    assert s.pool == [CacheState([], false), CacheState([], false)];
    events, s := Do(c, events, s, CallOne(m));
    assert CurMs(s) + [m] == [m];
    events, s := Do(c, events, s, TryOne(true));
    assert s.pool == [CacheState([], false), CacheState([m], false)];
    assert s.accepted == multiset{m};
  }

  /** The reader sees the queue empty while the measurement is in no page yet: the worker has just taken it. */
  lemma {:induction false} EmptyQueueIsNotEnough(c: Config, m: Meas) returns (events: seq<Event>, s: State)
    requires c.cacheSize >= 1
    ensures Run(Start(2), c, events) == Some(s)
    ensures s == State([CacheState([], false), CacheState([m], true)], Some(0), [], TakeLock, Writing(1, [m]),
                       TheWorker, [[]], multiset{m}, [[m]], [[m]])
    ensures multiset(Flatten(s.pages)) != s.accepted
  {
    events, s := WorkerTakesIt(c, m);
    events, s := Do(c, events, s, LookBusy);
    FlattenPush([], []);
  }

  lemma {:induction false} WorkerTakesIt(c: Config, m: Meas) returns (events: seq<Event>, s: State)
    requires c.cacheSize >= 1
    ensures Run(Start(2), c, events) == Some(s)
    ensures s == State([CacheState([], false), CacheState([m], true)], Some(0), [], WaitEmpty, Writing(1, [m]),
                       TheWorker, [[]], multiset{m}, [[m]], [[m]])
  {
    events, s := ReaderGetsCache(c, m);
    events, s := Do(c, events, s, WakeUp);
    assert IsSorted(s.pool[1].ms, [m]);
    events, s := Do(c, events, s, Pop([m]));
    assert s.pool == [CacheState([], false), CacheState([m], true)];
    assert s.queue == [] && s.batches == [[m]];
  }

  lemma {:induction false} ReaderGetsCache(c: Config, m: Meas) returns (events: seq<Event>, s: State)
    requires c.cacheSize >= 1
    ensures Run(Start(2), c, events) == Some(s)
    ensures s == State([CacheState([], false), CacheState([m], true)], Some(0), [1], WaitEmpty, Waiting,
                       NoOne, [[]], multiset{m}, [[m]], [])
  {
    events, s := ReaderHandsOver(c, m);
    events, s := Do(c, events, s, ScanNext);
    events, s := Do(c, events, s, ScanNext);
    events, s := Do(c, events, s, ScanNext);
  }

  lemma {:induction false} FirstWrite(m: Meas, capacity: nat)
    requires capacity >= 1
    ensures PagesAfter([[]], [m], capacity) == [[m]] && [m][Taken([[]], [m], capacity)..] == []
  {
    var before: seq<seq<Meas>> := [[]];
    assert [m][..1] == [m] && before[0] + [m][..1] == [m];
    assert before[..0] == [];
  }

  lemma {:induction false} PageWritten(c: Config, m: Meas) returns (events: seq<Event>, s: State)
    requires c.cacheSize >= 1 && c.pageCapacity >= 1
    ensures Run(Start(2), c, events) == Some(s) && s.pages == [[m]] && s.queue == []
    ensures s.client.TakeLock? && s.worker == Writing(1, []) && s.lock == TheWorker && |s.pool| == 2
  {
    events, s := EmptyQueueIsNotEnough(c, m);
    FirstWrite(m, c.pageCapacity);
    ghost var after := StepWritePages(s, c);
    assert after.Some? && after.value.pages == [[m]] && after.value.worker == Writing(1, []);
    events, s := Do(c, events, s, WritePages);
  }

  lemma {:induction false} CacheWritten(c: Config, m: Meas) returns (events: seq<Event>, s: State)
    requires c.cacheSize >= 1 && c.pageCapacity >= 1
    ensures Run(Start(2), c, events) == Some(s) && s.pages == [[m]] && s.queue == []
    ensures s.client.TakeLock? && s.worker.Checking? && s.lock == TheWorker
  {
    events, s := CacheCleared(c, m);
    events, s := Do(c, events, s, EndSync);
  }

  lemma {:induction false} CacheCleared(c: Config, m: Meas) returns (events: seq<Event>, s: State)
    requires c.cacheSize >= 1 && c.pageCapacity >= 1
    ensures Run(Start(2), c, events) == Some(s) && s.pages == [[m]] && s.queue == []
    ensures s.client.TakeLock? && s.worker == Cleared(1) && s.lock == TheWorker && |s.pool| == 2
  {
    events, s := PageWritten(c, m);
    assert StepClear(s).Some?;
    events, s := Do(c, events, s, ClearCache);
  }

  /** From there the reader does get through, and finds the measurement. */
  lemma {:induction false} ReaderGetsThrough(c: Config, m: Meas) returns (events: seq<Event>, s: State)
    requires c.cacheSize >= 1 && c.pageCapacity >= 1
    ensures Run(Start(2), c, events) == Some(s) && s.client.Reading? && s.pages == [[m]]
  {
    events, s := CacheWritten(c, m);
    events, s := Do(c, events, s, GoWait);
    events, s := Do(c, events, s, LockWorker);
  }
}
