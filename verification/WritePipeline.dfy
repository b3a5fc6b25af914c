/**
 The write path as a protocol: whoever holds the write mutex (a producer or a reader), and the
 worker thread, each step by step, in any interleaving.
 */
module WritePipeline {
  import opened Wrappers
  import opened Measurements
  import opened Caches
  import opened CacheWriter

  datatype CacheState = CacheState(ms: seq<Meas>, sync: bool)

  /** Where the caller of writeCache goes on. */
  datatype Resume = ToOne(m: Meas) | ToLoop(rest: seq<Meas>) | ToWait

  /** The thread that holds the write mutex. */
  datatype Client =
    | Idle
    | One(m: Meas)                                          // append of one: before the next attempt
    | Batch(begin: seq<Meas>)                               // append of a batch: before the full test
    | Loop(rest: seq<Meas>)                                 // append of a batch: before the next chunk
    | WriteCache(back: Resume)                              // writeCache entered
    | Marked(back: Resume)                                  // the current cache is marked, not yet queued
    | Scan(next: nat, best: Option<nat>, back: Resume)      // getCache under way; there is no current cache
    | WaitEmpty                                             // reader: before looking at the queue
    | TakeLock                                              // reader: saw the queue empty
    | Reading                                               // reader: has the worker's lock

  datatype Worker = Waiting | Checking | Writing(cache: nat, todo: seq<Meas>) | Cleared(cache: nat)

  datatype Owner = NoOne | TheWorker | TheReader

  /** `accepted`, `handed` and `batches` record the past: what caches took, what was queued, what the worker sorted. */
  datatype State = State(pool: seq<CacheState>, cur: Option<nat>, queue: seq<nat>, client: Client, worker: Worker,
                         lock: Owner, pages: seq<seq<Meas>>,
                         accepted: multiset<Meas>, handed: seq<seq<Meas>>, batches: seq<seq<Meas>>)

  datatype Config = Config(cacheSize: nat, pageCapacity: nat)

  datatype Event =
    | CallOne(m: Meas) | CallBatch(begin: seq<Meas>) | CallRead
    | TryOne(young: bool) | EnterBatch | Chunk(verdicts: seq<bool>)
    | BeginSync | Enqueue | ScanNext
    | LookBusy | LockWorker | EndRead
    | WakeUp | GoWait | Pop(sorted: seq<Meas>) | WritePages | ClearCache | EndSync

  // ---- the steps ----

  function Resumed(back: Resume): Client {
    match back
    case ToOne(m) => One(m)
    case ToLoop(rest) => Loop(rest)
    case ToWait => WaitEmpty
  }

  predicate HasCur(s: State) { s.cur.Some? && s.cur.value < |s.pool| }

  function CurMs(s: State): seq<Meas> { if HasCur(s) then s.pool[s.cur.value].ms else [] }

  function WithCur(s: State, ms: seq<Meas>): State
    requires HasCur(s)
  {
    s.(pool := s.pool[s.cur.value := s.pool[s.cur.value].(ms := ms)])
  }

  /** Storage::append of one measurement: a round of its loop. */
  function StepOne(s: State, c: Config, young: bool): Option<State> {
    if !s.client.One? || !HasCur(s) then None
    else if !young then Some(s.(client := Idle))
    else if |CurMs(s)| < c.cacheSize then
      Some(WithCur(s, CurMs(s) + [s.client.m]).(client := Idle, accepted := s.accepted + multiset{s.client.m}))
    else Some(s.(client := WriteCache(ToOne(s.client.m))))
  }

  /** Storage::append of a batch: the test before its loop. */
  function StepEnterBatch(s: State, c: Config): Option<State> {
    if !s.client.Batch? || !HasCur(s) then None
    else if |CurMs(s)| == c.cacheSize then Some(s.(client := WriteCache(ToLoop(s.client.begin))))
    else Some(s.(client := Loop(s.client.begin)))
  }

  /** Storage::append of a batch: a round of its loop, or its end. */
  function StepChunk(s: State, c: Config, young: seq<bool>): Option<State> {
    if !s.client.Loop? || !HasCur(s) || |CurMs(s)| > c.cacheSize then None
    else if s.client.rest == [] then Some(s.(client := Idle))
    else if |young| < |s.client.rest| then None
    else
      var rest := s.client.rest;
      var k := Min(c.cacheSize - |CurMs(s)|, |rest|);
      var kept := Kept(rest[..k], young);
      Some(WithCur(s, CurMs(s) + kept).(
           client := if k != |rest| then WriteCache(ToLoop(rest[k..])) else Loop(rest[k..]),
           accepted := s.accepted + multiset(kept)))
  }

  /** writeCache: nothing to do for an empty cache; otherwise sync_begin. */
  function StepBeginSync(s: State): Option<State> {
    if !s.client.WriteCache? || !HasCur(s) then None
    else if |CurMs(s)| == 0 then Some(s.(client := Resumed(s.client.back)))
    else
      var i := s.cur.value;
      Some(s.(pool := s.pool[i := s.pool[i].(sync := true)], client := Marked(s.client.back)))
  }

  /** writeCache: add the cache to the worker's queue and give it up. */
  function StepEnqueue(s: State): Option<State> {
    if !s.client.Marked? || !HasCur(s) then None
    else Some(s.(queue := s.queue + [s.cur.value], cur := None, client := Scan(0, None, s.client.back),
                 handed := s.handed + [CurMs(s)]))
  }

  /** getCache: look at one more cache; after the last one take the best, or start over. */
  function StepScan(s: State): Option<State> {
    if !s.client.Scan? then None
    else
      var Scan(i, best, back) := s.client;
      if i < |s.pool| then
        Some(s.(client := Scan(i + 1, if s.pool[i].sync then best else Some(i), back)))
      else if best.Some? then Some(s.(cur := best, client := Resumed(back)))
      else Some(s.(client := Scan(0, None, back)))
  }

  /** flush_and_stop: a look at the queue. */
  function StepLookBusy(s: State): Option<State> {
    if !s.client.WaitEmpty? then None
    else if s.queue == [] then Some(s.(client := TakeLock))
    else Some(s)
  }

  function StepLockWorker(s: State): Option<State> {
    if s.client.TakeLock? && s.lock == NoOne then Some(s.(client := Reading, lock := TheReader)) else None
  }

  function StepEndRead(s: State): Option<State> {
    if s.client.Reading? then Some(s.(client := Idle, lock := NoOne)) else None
  }

  /** The worker gets its lock back, notified or not. */
  function StepWakeUp(s: State): Option<State> {
    if s.worker.Waiting? && s.lock == NoOne then Some(s.(worker := Checking, lock := TheWorker)) else None
  }

  function StepGoWait(s: State): Option<State> {
    if s.worker.Checking? && s.queue == [] then Some(s.(worker := Waiting, lock := NoOne)) else None
  }

  ghost predicate IsSorted(ms: seq<Meas>, sorted: seq<Meas>) {
    multiset(sorted) == multiset(ms) && SortedByTime(sorted)
  }

  /** The worker takes the first cache of the queue and sorts it. */
  ghost function StepPop(s: State, sorted: seq<Meas>): Option<State> {
    if !s.worker.Checking? || s.queue == [] || s.queue[0] >= |s.pool| then None
    else
      var i := s.queue[0];
      if !IsSorted(s.pool[i].ms, sorted) then None
      else Some(s.(queue := s.queue[1..], worker := Writing(i, sorted), pool := s.pool[i := s.pool[i].(ms := sorted)],
                   batches := s.batches + [sorted]))
  }

  /** The worker's loop: a round of writing to the current page. */
  function StepWritePages(s: State, c: Config): Option<State> {
    if !s.worker.Writing? || s.worker.todo == [] || !Writable(s.pages, c.pageCapacity) then None
    else
      var todo := s.worker.todo;
      Some(s.(pages := PagesAfter(s.pages, todo, c.pageCapacity),
              worker := Writing(s.worker.cache, todo[Taken(s.pages, todo, c.pageCapacity)..])))
  }

  function StepClear(s: State): Option<State> {
    if !s.worker.Writing? || s.worker.todo != [] || s.worker.cache >= |s.pool| then None
    else
      var i := s.worker.cache;
      Some(s.(pool := s.pool[i := s.pool[i].(ms := [])], worker := Cleared(i)))
  }

  function StepEndSync(s: State): Option<State> {
    if !s.worker.Cleared? || s.worker.cache >= |s.pool| then None
    else
      var i := s.worker.cache;
      Some(s.(pool := s.pool[i := s.pool[i].(sync := false)], worker := Checking))
  }

  ghost function Next(s: State, c: Config, e: Event): Option<State> {
    match e
    case CallOne(m) => if s.client.Idle? then Some(s.(client := One(m))) else None
    case CallBatch(begin) => if s.client.Idle? then Some(s.(client := Batch(begin))) else None
    case CallRead => if s.client.Idle? then Some(s.(client := WriteCache(ToWait))) else None
    case TryOne(young) => StepOne(s, c, young)
    case EnterBatch => StepEnterBatch(s, c)
    case Chunk(young) => StepChunk(s, c, young)
    case BeginSync => StepBeginSync(s)
    case Enqueue => StepEnqueue(s)
    case ScanNext => StepScan(s)
    case LookBusy => StepLookBusy(s)
    case LockWorker => StepLockWorker(s)
    case EndRead => StepEndRead(s)
    case WakeUp => StepWakeUp(s)
    case GoWait => StepGoWait(s)
    case Pop(sorted) => StepPop(s, sorted)
    case WritePages => StepWritePages(s, c)
    case ClearCache => StepClear(s)
    case EndSync => StepEndSync(s)
  }

  /** Storage and its worker just created: a fixed number of empty caches, one empty page. */
  function Start(poolSize: nat): State
    requires poolSize >= 1
  {
    State(seq(poolSize, _ => CacheState([], false)), Some(poolSize - 1), [], Idle, Waiting, NoOne, [[]],
          multiset{}, [], [])
  }

  ghost function Run(s: State, c: Config, events: seq<Event>): Option<State> {
    if events == [] then Some(s)
    else
      match Run(s, c, events[..|events| - 1])
      case None => None
      case Some(s') => Next(s', c, events[|events| - 1])
  }

  // ---- what every reachable state keeps ----

  /** The cache the worker is at. */
  function InFlight(w: Worker): Option<nat> {
    match w
    case Writing(i, _) => Some(i)
    case Cleared(i) => Some(i)
    case _ => None
  }

  /** The cache the worker still writes from. */
  function Source(w: Worker): Option<nat> { if w.Writing? then Some(w.cache) else None }

  function Todo(w: Worker): seq<Meas> { if w.Writing? then w.todo else [] }

  /** Between sync_begin and add the current cache is marked and not queued. */
  function BeingMarked(client: Client, cur: Option<nat>): Option<nat> { if client.Marked? then cur else None }

  ghost predicate CurOk(s: State) {
    if s.client.Scan? then s.cur == None
    else HasCur(s) && (s.pool[s.cur.value].sync <==> s.client.Marked?)
  }

  ghost predicate Distinct(queue: seq<nat>, n: nat) {
    && (forall k :: 0 <= k < |queue| ==> queue[k] < n)
    && (forall k, l :: 0 <= k < l < |queue| ==> queue[k] != queue[l])
  }

  /** The queued caches are exactly the marked ones that are not in flight and not just being marked. */
  ghost predicate QueueOk(pool: seq<CacheState>, queue: seq<nat>, flight: Option<nat>, marked: Option<nat>) {
    forall i :: 0 <= i < |pool| ==> (i in queue <==> pool[i].sync && flight != Some(i) && marked != Some(i))
  }

  ghost predicate FlightOk(pool: seq<CacheState>, flight: Option<nat>, cur: Option<nat>) {
    flight.Some? ==> flight.value < |pool| && pool[flight.value].sync && cur != flight
  }

  /** Every cache but the current one, the queued ones and the one being written is empty. */
  ghost predicate RestEmpty(pool: seq<CacheState>, cur: Option<nat>, queue: seq<nat>, source: Option<nat>) {
    forall i :: 0 <= i < |pool| && i !in queue && cur != Some(i) && source != Some(i) ==> pool[i].ms == []
  }

  ghost predicate SizesOk(pool: seq<CacheState>, size: nat) {
    forall i :: 0 <= i < |pool| ==> |pool[i].ms| <= size
  }

  ghost predicate ScanOk(pool: seq<CacheState>, client: Client) {
    client.Scan? && client.best.Some? ==> client.best.value < |pool| && !pool[client.best.value].sync
  }

  ghost predicate LockOk(s: State) {
    && (s.lock == TheWorker <==> !s.worker.Waiting?)
    && (s.lock == TheReader <==> s.client.Reading?)
  }

  /** What a reader knows once writeCache is done, and once it saw the queue empty. */
  ghost predicate ReaderOk(s: State) {
    && (s.client.WaitEmpty? || s.client.TakeLock? || s.client.Reading? ==> CurMs(s) == [])
    && (s.client.TakeLock? || s.client.Reading? ==> s.queue == [])
  }

  /** What the queued caches hold together. */
  function QueueSum(pool: seq<CacheState>, queue: seq<nat>): multiset<Meas> {
    if queue == [] then multiset{}
    else (if queue[0] < |pool| then multiset(pool[queue[0]].ms) else multiset{}) + QueueSum(pool, queue[1..])
  }

  /** Caches are written in the order they were queued, each in time order. */
  ghost predicate InOrder(handed: seq<seq<Meas>>, batches: seq<seq<Meas>>) {
    |batches| <= |handed| && forall k :: 0 <= k < |batches| ==> IsSorted(handed[k], batches[k])
  }

  /** The queued caches hold what was handed over last, in that order. */
  ghost predicate Pending(pool: seq<CacheState>, queue: seq<nat>, handed: seq<seq<Meas>>, done: nat) {
    && |handed| == done + |queue|
    && forall k :: 0 <= k < |queue| && queue[k] < |pool| ==> pool[queue[k]].ms == handed[done + k]
  }

  /** Who holds which cache. */
  ghost predicate PoolOk(s: State, c: Config) {
    && CurOk(s) && Distinct(s.queue, |s.pool|)
    && QueueOk(s.pool, s.queue, InFlight(s.worker), BeingMarked(s.client, s.cur))
    && FlightOk(s.pool, InFlight(s.worker), s.cur)
    && RestEmpty(s.pool, s.cur, s.queue, Source(s.worker))
    && SizesOk(s.pool, c.cacheSize)
    && ScanOk(s.pool, s.client)
  }

  ghost predicate ThreadsOk(s: State) { LockOk(s) && ReaderOk(s) }

  /** Nothing accepted is lost or doubled, wherever it is on its way. */
  ghost predicate Conserved(s: State) {
    s.accepted ==
    multiset(CurMs(s)) + QueueSum(s.pool, s.queue) + multiset(Todo(s.worker)) + multiset(Flatten(s.pages))
  }

  /**
   The pages are what the worker sorted so far, less what it has still to write. Every page but the last is full, and
   a new page is empty only while there is something to write to it.
   */
  ghost predicate PagesOk(s: State, c: Config) {
    && Writable(s.pages, c.pageCapacity) && FullBefore(s.pages, c.pageCapacity)
    && (Todo(s.worker) == [] ==> Packed(s.pages, c.pageCapacity))
    && Flatten(s.pages) + Todo(s.worker) == Flatten(s.batches)
  }

  /** The caches are written in the order they were queued. */
  ghost predicate OrderOk(s: State) {
    InOrder(s.handed, s.batches) && Pending(s.pool, s.queue, s.handed, |s.batches|)
  }

  ghost predicate FlowOk(s: State, c: Config) { PagesOk(s, c) && OrderOk(s) }

  ghost predicate Inv(s: State, c: Config) {
    PoolOk(s, c) && ThreadsOk(s) && Conserved(s) && FlowOk(s, c)
  }

  // ---- sums over the queue ----

  lemma {:induction false} QueueSumSame(pool: seq<CacheState>, pool': seq<CacheState>, queue: seq<nat>)
    requires |pool| == |pool'|
    requires forall k :: 0 <= k < |queue| && queue[k] < |pool| ==> pool'[queue[k]].ms == pool[queue[k]].ms
    ensures QueueSum(pool', queue) == QueueSum(pool, queue)
  {
    if queue != [] {
      assert forall k :: 0 <= k < |queue[1..]| ==> queue[1..][k] == queue[k + 1];
      QueueSumSame(pool, pool', queue[1..]);
    }
  }

  lemma {:induction false} QueueSumPush(pool: seq<CacheState>, queue: seq<nat>, i: nat)
    requires i < |pool|
    ensures QueueSum(pool, queue + [i]) == QueueSum(pool, queue) + multiset(pool[i].ms)
  {
    if queue == [] {
      assert queue + [i] == [i];
      assert QueueSum(pool, [i][1..]) == multiset{};
    } else {
      assert (queue + [i])[1..] == queue[1..] + [i];
      QueueSumPush(pool, queue[1..], i);
    }
  }

  /** A cache outside the queue may change without the queue noticing. */
  lemma {:induction false} OutsideQueue(pool: seq<CacheState>, queue: seq<nat>, handed: seq<seq<Meas>>, done: nat,
                                        i: nat, cache: CacheState)
    requires Pending(pool, queue, handed, done) && i < |pool| && i !in queue
    ensures QueueSum(pool[i := cache], queue) == QueueSum(pool, queue)
    ensures Pending(pool[i := cache], queue, handed, done)
  {
    QueueSumSame(pool, pool[i := cache], queue);
  }

  // ---- every step keeps the invariant ----

  /** The current cache grows by what is accepted. */
  lemma {:induction false} AppendKeeps(s: State, c: Config, more: seq<Meas>, client: Client)
    requires Inv(s, c) && (s.client.One? || s.client.Loop?) && HasCur(s)
    requires client.Idle? || client.Loop? || client.WriteCache?
    requires |CurMs(s) + more| <= c.cacheSize
    ensures Inv(WithCur(s, CurMs(s) + more).(client := client, accepted := s.accepted + multiset(more)), c)
  {
    var i := s.cur.value;
    AppendPool(s, c, more, client);
    OutsideQueue(s.pool, s.queue, s.handed, |s.batches|, i, s.pool[i].(ms := CurMs(s) + more));
  }

  lemma {:induction false} AppendPool(s: State, c: Config, more: seq<Meas>, client: Client)
    requires PoolOk(s, c) && (s.client.One? || s.client.Loop?) && HasCur(s)
    requires client.Idle? || client.Loop? || client.WriteCache?
    requires |CurMs(s) + more| <= c.cacheSize
    ensures PoolOk(WithCur(s, CurMs(s) + more).(client := client, accepted := s.accepted + multiset(more)), c)
  {
  }

  lemma {:induction false} OneKeeps(s: State, c: Config, young: bool)
    requires Inv(s, c) && StepOne(s, c, young).Some?
    ensures Inv(StepOne(s, c, young).value, c)
  {
    if young && |CurMs(s)| < c.cacheSize {
      AppendKeeps(s, c, [s.client.m], Idle);
    }
  }

  lemma {:induction false} ChunkKeeps(s: State, c: Config, young: seq<bool>)
    requires Inv(s, c) && StepChunk(s, c, young).Some?
    ensures Inv(StepChunk(s, c, young).value, c)
  {
    if s.client.rest != [] {
      var rest := s.client.rest;
      var k := Min(c.cacheSize - |CurMs(s)|, |rest|);
      var kept := Kept(rest[..k], young);
      var client := if k != |rest| then WriteCache(ToLoop(rest[k..])) else Loop(rest[k..]);
      assert StepChunk(s, c, young).value ==
             WithCur(s, CurMs(s) + kept).(client := client, accepted := s.accepted + multiset(kept));
      AppendKeeps(s, c, kept, client);
    }
  }

  lemma {:induction false} BeginSyncKeeps(s: State, c: Config)
    requires Inv(s, c) && StepBeginSync(s).Some?
    ensures Inv(StepBeginSync(s).value, c)
  {
    var i := s.cur.value;
    BeginSyncPool(s, c);
    if |CurMs(s)| != 0 {
      OutsideQueue(s.pool, s.queue, s.handed, |s.batches|, i, s.pool[i].(sync := true));
    }
  }

  lemma {:induction false} BeginSyncPool(s: State, c: Config)
    requires PoolOk(s, c) && StepBeginSync(s).Some?
    ensures PoolOk(StepBeginSync(s).value, c)
  {
  }

  lemma {:induction false} EnqueuePool(s: State, c: Config)
    requires PoolOk(s, c) && StepEnqueue(s).Some?
    ensures PoolOk(StepEnqueue(s).value, c)
  {
    var queue, i := s.queue, s.cur.value;
    assert forall j :: j in queue + [i] <==> j in queue || j == i;
  }

  lemma {:induction false} EnqueueKeeps(s: State, c: Config)
    requires Inv(s, c) && StepEnqueue(s).Some?
    ensures Inv(StepEnqueue(s).value, c)
  {
    EnqueuePool(s, c);
    EnqueueFlow(s, c);
    EnqueueConserves(s);
  }

  lemma {:induction false} EnqueueFlow(s: State, c: Config)
    requires FlowOk(s, c) && StepEnqueue(s).Some?
    ensures FlowOk(StepEnqueue(s).value, c)
  {
  }

  lemma {:induction false} EnqueueConserves(s: State)
    requires Conserved(s) && StepEnqueue(s).Some?
    ensures Conserved(StepEnqueue(s).value)
  {
    QueueSumPush(s.pool, s.queue, s.cur.value);
    var s' := StepEnqueue(s).value;
    assert s'.accepted == QueueSum(s'.pool, s'.queue) + multiset(Todo(s.worker)) + multiset(Flatten(s.pages));
    assert CurMs(s') == [];
  }

  /** The scan found a cache that is not marked: nobody else has it, and it is empty. */
  lemma {:induction false} ScanTakes(s: State, c: Config, i: nat, client: Client)
    requires Inv(s, c) && s.client.Scan? && i < |s.pool| && !s.pool[i].sync
    requires client.One? || client.Loop? || client.WaitEmpty?
    ensures Inv(s.(cur := Some(i), client := client), c) && s.pool[i].ms == []
  {
    assert i !in s.queue && InFlight(s.worker) != Some(i);
    assert s.pool[i].ms == [];
  }

  lemma {:induction false} ScanKeeps(s: State, c: Config)
    requires Inv(s, c) && StepScan(s).Some?
    ensures Inv(StepScan(s).value, c)
  {
    var Scan(i, best, back) := s.client;
    if i >= |s.pool| && best.Some? {
      ScanTakes(s, c, best.value, Resumed(back));
    }
  }

  lemma {:induction false} PopPool(s: State, c: Config, sorted: seq<Meas>)
    requires PoolOk(s, c) && StepPop(s, sorted).Some?
    ensures PoolOk(StepPop(s, sorted).value, c)
  {
    var i, rest := s.queue[0], s.queue[1..];
    assert s.queue == [i] + rest;
    assert forall j :: j in s.queue <==> j in rest || j == i;
    assert |sorted| == |multiset(sorted)| == |multiset(s.pool[i].ms)| == |s.pool[i].ms|;
  }

  lemma {:induction false} PopPending(pool: seq<CacheState>, queue: seq<nat>, handed: seq<seq<Meas>>, done: nat,
                                      sorted: seq<Meas>)
    requires Pending(pool, queue, handed, done) && Distinct(queue, |pool|) && queue != []
    requires IsSorted(pool[queue[0]].ms, sorted)
    ensures var pool' := pool[queue[0] := pool[queue[0]].(ms := sorted)];
            && Pending(pool', queue[1..], handed, done + 1) && IsSorted(handed[done], sorted)
            && QueueSum(pool, queue) == multiset(sorted) + QueueSum(pool', queue[1..])
  {
    var pool' := pool[queue[0] := pool[queue[0]].(ms := sorted)];
    assert forall k :: 0 <= k < |queue| - 1 ==> queue[1..][k] == queue[k + 1];
    QueueSumSame(pool, pool', queue[1..]);
  }

  lemma {:induction false} PopFlow(s: State, c: Config, sorted: seq<Meas>)
    requires FlowOk(s, c) && Distinct(s.queue, |s.pool|) && StepPop(s, sorted).Some?
    ensures FlowOk(StepPop(s, sorted).value, c)
  {
    PopPages(s, c, sorted);
    PopOrder(s, sorted);
  }

  lemma {:induction false} PopPages(s: State, c: Config, sorted: seq<Meas>)
    requires PagesOk(s, c) && StepPop(s, sorted).Some?
    ensures PagesOk(StepPop(s, sorted).value, c)
  {
    FlattenPush(s.batches, sorted);
  }

  lemma {:induction false} PopOrder(s: State, sorted: seq<Meas>)
    requires OrderOk(s) && Distinct(s.queue, |s.pool|) && StepPop(s, sorted).Some?
    ensures OrderOk(StepPop(s, sorted).value)
  {
    PopPending(s.pool, s.queue, s.handed, |s.batches|, sorted);
  }

  lemma {:induction false} PopConserves(s: State, c: Config, sorted: seq<Meas>)
    requires Conserved(s) && PoolOk(s, c) && FlowOk(s, c) && StepPop(s, sorted).Some?
    ensures Conserved(StepPop(s, sorted).value)
  {
    assert s.queue[0] in s.queue;
    assert s.cur != Some(s.queue[0]);
    PopPending(s.pool, s.queue, s.handed, |s.batches|, sorted);
  }

  lemma {:induction false} PopKeeps(s: State, c: Config, sorted: seq<Meas>)
    requires Inv(s, c) && StepPop(s, sorted).Some?
    ensures Inv(StepPop(s, sorted).value, c)
  {
    PopPool(s, c, sorted);
    PopFlow(s, c, sorted);
    PopConserves(s, c, sorted);
  }

  lemma {:induction false} WritePagesPool(s: State, c: Config)
    requires PoolOk(s, c) && StepWritePages(s, c).Some?
    ensures PoolOk(StepWritePages(s, c).value, c)
  {
  }

  lemma {:induction false} WritePagesKeeps(s: State, c: Config)
    requires Inv(s, c) && StepWritePages(s, c).Some?
    ensures Inv(StepWritePages(s, c).value, c)
  {
    WritePagesPool(s, c);
    WritePagesConserves(s, c);
    RoundConserves(s.pages, s.worker.todo, c.pageCapacity);
    RoundFills(s.pages, s.worker.todo, c.pageCapacity);
  }

  lemma {:induction false} WritePagesConserves(s: State, c: Config)
    requires Conserved(s) && StepWritePages(s, c).Some?
    ensures Conserved(StepWritePages(s, c).value)
  {
    var s' := StepWritePages(s, c).value;
    RoundConserves(s.pages, s.worker.todo, c.pageCapacity);
    var x, y, x', y' := Flatten(s.pages), s.worker.todo, Flatten(s'.pages), s'.worker.todo;
    assert multiset(x + y) == multiset(y) + multiset(x);
    assert multiset(x' + y') == multiset(y') + multiset(x');
    var others := multiset(CurMs(s)) + QueueSum(s.pool, s.queue);
    assert s.accepted == others + (multiset(y) + multiset(x));
  }

  lemma {:induction false} ClearPool(s: State, c: Config)
    requires PoolOk(s, c) && StepClear(s).Some?
    ensures PoolOk(StepClear(s).value, c)
  {
  }

  lemma {:induction false} ClearKeeps(s: State, c: Config)
    requires Inv(s, c) && StepClear(s).Some?
    ensures Inv(StepClear(s).value, c)
  {
    var i := s.worker.cache;
    ClearPool(s, c);
    OutsideQueue(s.pool, s.queue, s.handed, |s.batches|, i, s.pool[i].(ms := []));
  }

  lemma {:induction false} EndSyncPool(s: State, c: Config)
    requires PoolOk(s, c) && StepEndSync(s).Some?
    ensures PoolOk(StepEndSync(s).value, c)
  {
  }

  lemma {:induction false} EndSyncKeeps(s: State, c: Config)
    requires Inv(s, c) && StepEndSync(s).Some?
    ensures Inv(StepEndSync(s).value, c)
  {
    var i := s.worker.cache;
    EndSyncPool(s, c);
    OutsideQueue(s.pool, s.queue, s.handed, |s.batches|, i, s.pool[i].(sync := false));
  }

  /** Only the threads moved, and none of them started or ended its hold on a cache. */
  ghost predicate OnlyMoved(s: State, s': State) {
    && s' == s.(client := s'.client, worker := s'.worker, lock := s'.lock)
    && InFlight(s'.worker) == InFlight(s.worker) && Source(s'.worker) == Source(s.worker)
    && Todo(s'.worker) == Todo(s.worker)
    && !s.client.Marked? && !s'.client.Marked? && !s.client.Scan? && !s'.client.Scan?
  }

  lemma {:induction false} MovedKeeps(s: State, c: Config, s': State)
    requires Inv(s, c) && OnlyMoved(s, s') && ThreadsOk(s')
    ensures Inv(s', c)
  {
  }

  lemma {:induction false} ClientMoves(s: State, c: Config, e: Event)
    requires Inv(s, c) && Next(s, c, e).Some?
    requires e.CallOne? || e.CallBatch? || e.CallRead? || e.EnterBatch? || e.LookBusy? || e.LockWorker? || e.EndRead?
    ensures Inv(Next(s, c, e).value, c)
  {
    ClientOnlyMoves(s, c, e);
    ClientThreads(s, c, e);
    MovedKeeps(s, c, Next(s, c, e).value);
  }

  lemma {:induction false} ClientOnlyMoves(s: State, c: Config, e: Event)
    requires Next(s, c, e).Some?
    requires e.CallOne? || e.CallBatch? || e.CallRead? || e.EnterBatch? || e.LookBusy? || e.LockWorker? || e.EndRead?
    ensures OnlyMoved(s, Next(s, c, e).value)
  {
  }

  lemma {:induction false} ClientThreads(s: State, c: Config, e: Event)
    requires ThreadsOk(s) && Next(s, c, e).Some?
    requires e.CallOne? || e.CallBatch? || e.CallRead? || e.EnterBatch? || e.LookBusy? || e.LockWorker? || e.EndRead?
    ensures ThreadsOk(Next(s, c, e).value)
  {
  }

  lemma {:induction false} WorkerMoves(s: State, c: Config, e: Event)
    requires Inv(s, c) && Next(s, c, e).Some? && (e.WakeUp? || e.GoWait?)
    ensures Inv(Next(s, c, e).value, c)
  {
    WorkerPool(s, c, e);
    WorkerFlow(s, c, e);
    WorkerConserves(s, c, e);
    WorkerThreads(s, c, e);
  }

  lemma {:induction false} WorkerThreads(s: State, c: Config, e: Event)
    requires ThreadsOk(s) && Next(s, c, e).Some? && (e.WakeUp? || e.GoWait?)
    ensures ThreadsOk(Next(s, c, e).value)
  {
  }

  lemma {:induction false} WorkerFlow(s: State, c: Config, e: Event)
    requires FlowOk(s, c) && Next(s, c, e).Some? && (e.WakeUp? || e.GoWait?)
    ensures FlowOk(Next(s, c, e).value, c)
  {
  }

  lemma {:induction false} WorkerConserves(s: State, c: Config, e: Event)
    requires Conserved(s) && Next(s, c, e).Some? && (e.WakeUp? || e.GoWait?)
    ensures Conserved(Next(s, c, e).value)
  {
  }

  lemma {:induction false} WorkerPool(s: State, c: Config, e: Event)
    requires PoolOk(s, c) && Next(s, c, e).Some? && (e.WakeUp? || e.GoWait?)
    ensures PoolOk(Next(s, c, e).value, c)
  {
  }

  lemma {:induction false} NextKeeps(s: State, c: Config, e: Event)
    requires Inv(s, c) && Next(s, c, e).Some?
    ensures Inv(Next(s, c, e).value, c)
  {
    match e
    case TryOne(young) => OneKeeps(s, c, young);
    case Chunk(young) => ChunkKeeps(s, c, young);
    case BeginSync => BeginSyncKeeps(s, c);
    case Enqueue => EnqueueKeeps(s, c);
    case ScanNext => ScanKeeps(s, c);
    case Pop(sorted) => PopKeeps(s, c, sorted);
    case WritePages => WritePagesKeeps(s, c);
    case ClearCache => ClearKeeps(s, c);
    case EndSync => EndSyncKeeps(s, c);
    case WakeUp => WorkerMoves(s, c, e);
    case GoWait => WorkerMoves(s, c, e);
    case _ => ClientMoves(s, c, e);
  }
}
