/** The write path seen by its callers: what happens to each measurement they bring. */
module PipelineLedger {
  import opened Wrappers
  import opened Measurements
  import opened Picking
  import opened Caches
  import opened CacheWriter
  import opened WritePipeline
  import opened PipelineRuns

  // ---- what the calls bring ----

  function Brought(e: Event): seq<Meas> {
    match e
    case CallOne(m) => [m]
    case CallBatch(begin) => begin
    case _ => []
  }

  /** All measurements the calls of a run brought, in the order they brought them. */
  function Submitted(events: seq<Event>): seq<Meas> {
    if events == [] then [] else Submitted(events[..|events| - 1]) + Brought(events[|events| - 1])
  }

  function HeldBack(back: Resume): seq<Meas> {
    match back
    case ToOne(m) => [m]
    case ToLoop(rest) => rest
    case ToWait => []
  }

  /** What the client still has to put into a cache. */
  function InHand(client: Client): seq<Meas> {
    match client
    case One(m) => [m]
    case Batch(begin) => begin
    case Loop(rest) => rest
    case WriteCache(back) => HeldBack(back)
    case Marked(back) => HeldBack(back)
    case Scan(_, _, back) => HeldBack(back)
    case _ => []
  }

  // ---- the verdicts of the age test ----

  /** The age test's last word on a measurement. */
  datatype Verdict = Verdict(m: Meas, young: bool)

  function Verdicts(ms: seq<Meas>, young: seq<bool>): (r: seq<Verdict>)
    requires |ms| <= |young|
    ensures |r| == |ms|
  {
    seq(|ms|, i requires 0 <= i < |ms| => Verdict(ms[i], young[i]))
  }

  /** A step passes its verdict on what it consumes: a young measurement that finds the cache full is tried again. */
  function Judged(s: State, c: Config, e: Event): seq<Verdict> {
    match e
    case TryOne(young) =>
      if s.client.One? && (young ==> |CurMs(s)| < c.cacheSize) then [Verdict(s.client.m, young)] else []
    case Chunk(young) =>
      if s.client.Loop? && |CurMs(s)| <= c.cacheSize && |s.client.rest| <= |young| then
        Verdicts(s.client.rest[..Min(c.cacheSize - |CurMs(s)|, |s.client.rest|)], young)
      else []
    case _ => []
  }

  ghost function AllJudged(s: State, c: Config, events: seq<Event>): seq<Verdict> {
    if events == [] then []
    else
      match Run(s, c, events[..|events| - 1])
      case None => []
      case Some(s') => AllJudged(s, c, events[..|events| - 1]) + Judged(s', c, events[|events| - 1])
  }

  function Subjects(vs: seq<Verdict>): (r: seq<Meas>)
    ensures |r| == |vs|
  {
    seq(|vs|, i requires 0 <= i < |vs| => vs[i].m)
  }

  function Marks(vs: seq<Verdict>): (r: seq<bool>)
    ensures |r| == |vs|
  {
    seq(|vs|, i requires 0 <= i < |vs| => vs[i].young)
  }

  /** What a cache takes of measurements the age test has judged. */
  function Taking(vs: seq<Verdict>): seq<Meas> { Kept(Subjects(vs), Marks(vs)) }

  lemma {:induction false} TakingConcat(a: seq<Verdict>, b: seq<Verdict>)
    ensures Subjects(a + b) == Subjects(a) + Subjects(b)
    ensures Taking(a + b) == Taking(a) + Taking(b)
  {
    KeptConcat(Subjects(a), Marks(a), Subjects(b), Marks(b));
    assert Marks(a + b) == Marks(a) + Marks(b);
    assert Subjects(a + b) == Subjects(a) + Subjects(b);
  }

  lemma {:induction false} TakingOfVerdicts(ms: seq<Meas>, young: seq<bool>)
    requires |ms| <= |young|
    ensures Subjects(Verdicts(ms, young)) == ms && Taking(Verdicts(ms, young)) == Kept(ms, young)
  {
    assert Subjects(Verdicts(ms, young)) == ms;
    assert Marks(Verdicts(ms, young)) == young[..|ms|];
    KeptPrefix(ms, young, young[..|ms|]);
  }

  // ---- the books balance ----

  /**
   Every measurement brought has been judged, or is still in hand, in the order brought; what was queued and what is
   in the current cache are the young ones among the judged, in that order.
   */
  ghost predicate Balance(hand: seq<Meas>, queued: seq<Meas>, cur: seq<Meas>, accepted: multiset<Meas>,
                          vs: seq<Verdict>, submitted: seq<Meas>) {
    submitted == Subjects(vs) + hand && queued + cur == Taking(vs) && accepted == multiset(Taking(vs))
  }

  ghost predicate Balanced(s: State, vs: seq<Verdict>, submitted: seq<Meas>) {
    Balance(InHand(s.client), Flatten(s.handed), CurMs(s), s.accepted, vs, submitted)
  }

  /** Some of what is in hand is judged, and the young ones go to the current cache. */
  lemma {:induction false} BalanceOn(hand: seq<Meas>, queued: seq<Meas>, cur: seq<Meas>, accepted: multiset<Meas>,
                                     vs: seq<Verdict>, submitted: seq<Meas>, now: seq<Verdict>, hand': seq<Meas>)
    requires Balance(hand, queued, cur, accepted, vs, submitted) && hand == Subjects(now) + hand'
    ensures Balance(hand', queued, cur + Taking(now), accepted + multiset(Taking(now)), vs + now, submitted)
  {
    TakingConcat(vs, now);
    assert Subjects(vs) + (Subjects(now) + hand') == (Subjects(vs) + Subjects(now)) + hand';
    assert queued + (cur + Taking(now)) == (queued + cur) + Taking(now);
  }

  lemma {:induction false} JudgeOne(m: Meas, young: bool)
    ensures Subjects([Verdict(m, young)]) == [m] && Taking([Verdict(m, young)]) == if young then [m] else []
  {
    TakingOfVerdicts([m], [young]);
    assert Verdicts([m], [young]) == [Verdict(m, young)];
    KeptOne(m, young);
  }

  /** A step that judges `now`. */
  ghost predicate Judges(s: State, s': State, now: seq<Verdict>) {
    && s'.handed == s.handed && InHand(s.client) == Subjects(now) + InHand(s'.client)
    && CurMs(s') == CurMs(s) + Taking(now) && s'.accepted == s.accepted + multiset(Taking(now))
  }

  lemma {:induction false} JudgesBalances(s: State, s': State, now: seq<Verdict>, vs: seq<Verdict>,
                                          submitted: seq<Meas>)
    requires Balanced(s, vs, submitted) && Judges(s, s', now)
    ensures Balanced(s', vs + now, submitted)
  {
    BalanceOn(InHand(s.client), Flatten(s.handed), CurMs(s), s.accepted, vs, submitted, now, InHand(s'.client));
  }

  lemma {:induction false} CurWith(s: State, ms: seq<Meas>, s': State)
    requires HasCur(s) && s'.cur == s.cur && s'.pool == WithCur(s, ms).pool
    ensures CurMs(s') == ms
  {
  }

  lemma {:induction false} OneJudges(s: State, c: Config, young: bool)
    requires StepOne(s, c, young).Some?
    ensures Judges(s, StepOne(s, c, young).value, Judged(s, c, TryOne(young)))
  {
    JudgeOne(s.client.m, young);
  }

  lemma {:induction false} ChunkJudges(s: State, c: Config, young: seq<bool>)
    requires StepChunk(s, c, young).Some?
    ensures Judges(s, StepChunk(s, c, young).value, Judged(s, c, Chunk(young)))
  {
    var rest, s' := s.client.rest, StepChunk(s, c, young).value;
    if rest == [] {
      assert s' == s.(client := Idle) && Judged(s, c, Chunk(young)) == [];
    } else {
      var k := Min(c.cacheSize - |CurMs(s)|, |rest|);
      var kept := Kept(rest[..k], young);
      CurWith(s, CurMs(s) + kept, s');
      assert s'.accepted == s.accepted + multiset(kept) && InHand(s'.client) == rest[k..];
      JudgesKept(s, s', rest, k, young);
    }
  }

  lemma {:induction false} JudgesKept(s: State, s': State, rest: seq<Meas>, k: nat, young: seq<bool>)
    requires k <= |rest| <= |young| && s'.handed == s.handed
    requires InHand(s.client) == rest && InHand(s'.client) == rest[k..]
    requires CurMs(s') == CurMs(s) + Kept(rest[..k], young)
    requires s'.accepted == s.accepted + multiset(Kept(rest[..k], young))
    ensures Judges(s, s', Verdicts(rest[..k], young))
  {
    TakingOfVerdicts(rest[..k], young);
    assert rest == rest[..k] + rest[k..];
  }

  /** A step that judges nothing: what it brings is in hand, and what the caches took stays there. */
  ghost predicate Passes(s: State, s': State, brought: seq<Meas>) {
    && InHand(s'.client) == InHand(s.client) + brought && s'.accepted == s.accepted
    && Flatten(s'.handed) + CurMs(s') == Flatten(s.handed) + CurMs(s)
  }

  lemma {:induction false} BalanceSame(hand: seq<Meas>, queued: seq<Meas>, cur: seq<Meas>, accepted: multiset<Meas>,
                                       vs: seq<Verdict>, submitted: seq<Meas>, brought: seq<Meas>,
                                       queued': seq<Meas>, cur': seq<Meas>)
    requires Balance(hand, queued, cur, accepted, vs, submitted) && queued' + cur' == queued + cur
    ensures Balance(hand + brought, queued', cur', accepted, vs, submitted + brought)
  {
    assert (Subjects(vs) + hand) + brought == Subjects(vs) + (hand + brought);
  }

  lemma {:induction false} PassesBalances(s: State, s': State, brought: seq<Meas>, vs: seq<Verdict>,
                                          submitted: seq<Meas>)
    requires Balanced(s, vs, submitted) && Passes(s, s', brought)
    ensures Balanced(s', vs, submitted + brought)
  {
    BalanceSame(InHand(s.client), Flatten(s.handed), CurMs(s), s.accepted, vs, submitted, brought, Flatten(s'.handed),
                CurMs(s'));
  }

  lemma {:induction false} CallPasses(s: State, c: Config, e: Event)
    requires Next(s, c, e).Some? && (e.CallOne? || e.CallBatch? || e.CallRead?)
    ensures Passes(s, Next(s, c, e).value, Brought(e))
  {
  }

  lemma {:induction false} ClientPasses(s: State, c: Config, e: Event)
    requires Next(s, c, e).Some? && (e.EnterBatch? || e.BeginSync? || e.LookBusy? || e.LockWorker? || e.EndRead?)
    ensures Passes(s, Next(s, c, e).value, [])
  {
  }

  lemma {:induction false} EnqueuePasses(s: State)
    requires StepEnqueue(s).Some?
    ensures Passes(s, StepEnqueue(s).value, [])
  {
    FlattenPush(s.handed, CurMs(s));
  }

  /** The cache the scan takes is empty. */
  lemma {:induction false} ScanPasses(s: State, c: Config)
    requires Inv(s, c) && StepScan(s).Some?
    ensures Passes(s, StepScan(s).value, [])
  {
    var Scan(i, best, back) := s.client;
    if i >= |s.pool| && best.Some? {
      ScanTakes(s, c, best.value, Resumed(back));
    }
  }

  /** Neither the cache the worker is at nor the first of the queue is the current one. */
  lemma {:induction false} CurIsApart(s: State, c: Config)
    requires PoolOk(s, c)
    ensures InFlight(s.worker).Some? ==> s.cur != InFlight(s.worker)
    ensures s.queue != [] ==> s.cur != Some(s.queue[0])
  {
    if s.queue != [] {
      assert s.queue[0] in s.queue;
    }
  }

  /** The worker does not touch the current cache. */
  lemma {:induction false} WorkerStepPasses(s: State, c: Config, e: Event)
    requires Next(s, c, e).Some?
    requires e.WakeUp? || e.GoWait? || e.Pop? || e.WritePages? || e.ClearCache? || e.EndSync?
    requires InFlight(s.worker).Some? ==> s.cur != InFlight(s.worker)
    requires s.queue != [] ==> s.cur != Some(s.queue[0])
    ensures Passes(s, Next(s, c, e).value, [])
  {
  }

  lemma {:induction false} WorkerPasses(s: State, c: Config, e: Event)
    requires Inv(s, c) && Next(s, c, e).Some?
    requires e.WakeUp? || e.GoWait? || e.Pop? || e.WritePages? || e.ClearCache? || e.EndSync?
    ensures Passes(s, Next(s, c, e).value, [])
  {
    CurIsApart(s, c);
    WorkerStepPasses(s, c, e);
  }

  lemma {:induction false} OtherPasses(s: State, c: Config, e: Event)
    requires Inv(s, c) && Next(s, c, e).Some? && !e.TryOne? && !e.Chunk?
    ensures Passes(s, Next(s, c, e).value, Brought(e))
  {
    match e
    case CallOne(_) => CallPasses(s, c, e);
    case CallBatch(_) => CallPasses(s, c, e);
    case CallRead => CallPasses(s, c, e);
    case Enqueue => EnqueuePasses(s);
    case ScanNext => ScanPasses(s, c);
    case EnterBatch => ClientPasses(s, c, e);
    case BeginSync => ClientPasses(s, c, e);
    case LookBusy => ClientPasses(s, c, e);
    case LockWorker => ClientPasses(s, c, e);
    case EndRead => ClientPasses(s, c, e);
    case _ => WorkerPasses(s, c, e);
  }

  lemma {:induction false} JudgingBalances(s: State, c: Config, e: Event, vs: seq<Verdict>, submitted: seq<Meas>)
    requires Next(s, c, e).Some? && Balanced(s, vs, submitted) && (e.TryOne? || e.Chunk?)
    ensures Balanced(Next(s, c, e).value, vs + Judged(s, c, e), submitted + Brought(e))
  {
    if e.TryOne? {
      OneJudges(s, c, e.young);
    } else {
      ChunkJudges(s, c, e.verdicts);
    }
    assert submitted + Brought(e) == submitted;
    JudgesBalances(s, Next(s, c, e).value, Judged(s, c, e), vs, submitted);
  }

  lemma {:induction false} PassingBalances(s: State, c: Config, e: Event, vs: seq<Verdict>, submitted: seq<Meas>)
    requires Next(s, c, e).Some? && Balanced(s, vs, submitted) && !e.TryOne? && !e.Chunk?
    requires Passes(s, Next(s, c, e).value, Brought(e))
    ensures Balanced(Next(s, c, e).value, vs + Judged(s, c, e), submitted + Brought(e))
  {
    assert vs + Judged(s, c, e) == vs;
    PassesBalances(s, Next(s, c, e).value, Brought(e), vs, submitted);
  }

  lemma {:induction false} StepBalances(s: State, c: Config, e: Event, vs: seq<Verdict>, submitted: seq<Meas>)
    requires Next(s, c, e).Some? && Balanced(s, vs, submitted)
    requires !e.TryOne? && !e.Chunk? ==> Passes(s, Next(s, c, e).value, Brought(e))
    ensures Balanced(Next(s, c, e).value, vs + Judged(s, c, e), submitted + Brought(e))
  {
    if e.TryOne? || e.Chunk? {
      JudgingBalances(s, c, e, vs, submitted);
    } else {
      PassingBalances(s, c, e, vs, submitted);
    }
  }

  /** Every step of anyone keeps the books balanced. */
  lemma {:induction false} NextBalances(s: State, c: Config, e: Event, vs: seq<Verdict>, submitted: seq<Meas>)
    requires Inv(s, c) && Next(s, c, e).Some? && Balanced(s, vs, submitted)
    ensures Balanced(Next(s, c, e).value, vs + Judged(s, c, e), submitted + Brought(e))
  {
    if !e.TryOne? && !e.Chunk? {
      OtherPasses(s, c, e);
    }
    StepBalances(s, c, e, vs, submitted);
  }

  /**
   In every state any interleaving reaches: the measurements brought by the calls are those judged and, behind them,
   those in hand, in the order brought; the young ones among the judged are in the queued caches, in the order
   these were queued, and in the current one.
   */
  lemma {:induction false} EveryRunBalances(poolSize: nat, c: Config, events: seq<Event>)
    requires poolSize >= 1 && Run(Start(poolSize), c, events).Some?
    ensures Balanced(Run(Start(poolSize), c, events).value, AllJudged(Start(poolSize), c, events), Submitted(events))
  {
    if events == [] {
      FlattenPush([], []);
    } else {
      var k := |events| - 1;
      var before := events[..k];
      EveryRun(poolSize, c, before);
      EveryRunBalances(poolSize, c, before);
      NextBalances(Run(Start(poolSize), c, before).value, c, events[k], AllJudged(Start(poolSize), c, before),
                   Submitted(before));
    }
  }

  // ---- in terms of the events alone ----

  function Flipped(marks: seq<bool>): (r: seq<bool>)
    ensures |r| == |marks|
  {
    seq(|marks|, i requires 0 <= i < |marks| => !marks[i])
  }

  /** The measurements whose last verdict was false. */
  function Refused(vs: seq<Verdict>): seq<Meas> { Kept(Subjects(vs), Flipped(Marks(vs))) }

  lemma {:induction false} KeptOrNot(ms: seq<Meas>, marks: seq<bool>, others: seq<bool>)
    requires |ms| <= |marks| == |others| && forall i :: 0 <= i < |marks| ==> others[i] == !marks[i]
    ensures multiset(ms) == multiset(Kept(ms, marks)) + multiset(Kept(ms, others))
  {
    if ms != [] {
      var k := |ms| - 1;
      KeptOrNot(ms[..k], marks, others);
      assert ms == ms[..k] + [ms[k]];
    }
  }

  /** In every reachable state: what was brought is what was accepted, what is in hand and what was refused. */
  lemma {:induction false} NothingLost(poolSize: nat, c: Config, events: seq<Event>)
    requires poolSize >= 1 && Run(Start(poolSize), c, events).Some?
    ensures var s := Run(Start(poolSize), c, events).value;
            multiset(Submitted(events)) ==
            s.accepted + multiset(InHand(s.client)) + multiset(Refused(AllJudged(Start(poolSize), c, events)))
  {
    EveryRunBalances(poolSize, c, events);
    var vs := AllJudged(Start(poolSize), c, events);
    KeptOrNot(Subjects(vs), Marks(vs), Flipped(Marks(vs)));
  }

  predicate AllTrue(young: seq<bool>) { forall i :: 0 <= i < |young| ==> young[i] }

  /** The age test lets everything pass. */
  predicate YoungAt(e: Event) {
    match e
    case TryOne(young) => young
    case Chunk(verdicts) => AllTrue(verdicts)
    case _ => true
  }

  ghost predicate AllYoung(events: seq<Event>) { forall i :: 0 <= i < |events| ==> YoungAt(events[i]) }

  lemma {:induction false} JudgedYoung(s: State, c: Config, e: Event)
    requires YoungAt(e)
    ensures AllTrue(Marks(Judged(s, c, e)))
  {
  }

  lemma {:induction false} AllJudgedYoung(s: State, c: Config, events: seq<Event>)
    requires AllYoung(events)
    ensures AllTrue(Marks(AllJudged(s, c, events)))
  {
    if events != [] {
      var k := |events| - 1;
      var before := events[..k];
      AllJudgedYoung(s, c, before);
      match Run(s, c, before) {
        case None =>
        case Some(s') =>
          JudgedYoung(s', c, events[k]);
          assert Marks(AllJudged(s, c, events)) == Marks(AllJudged(s, c, before)) + Marks(Judged(s', c, events[k]));
      }
    }
  }

  /**
   When the age test lets everything pass, the measurements brought by the calls are, in the order brought, those of the
   caches queued, in the order these were queued, those of the current cache and those still in hand.
   */
  lemma {:induction false} TakenInOrder(poolSize: nat, c: Config, events: seq<Event>)
    requires poolSize >= 1 && Run(Start(poolSize), c, events).Some? && AllYoung(events)
    ensures var s := Run(Start(poolSize), c, events).value;
            && Submitted(events) == Flatten(s.handed) + CurMs(s) + InHand(s.client)
            && s.accepted == multiset(Flatten(s.handed) + CurMs(s))
  {
    EveryRunBalances(poolSize, c, events);
    var vs := AllJudged(Start(poolSize), c, events);
    AllJudgedYoung(Start(poolSize), c, events);
    KeptAll(Subjects(vs), Marks(vs));
  }

  /** Behind its barrier a reader finds in the pages exactly what the calls before it brought, less what was refused. */
  lemma {:induction false} ReaderFindsBrought(poolSize: nat, c: Config, events: seq<Event>)
    requires poolSize >= 1 && Run(Start(poolSize), c, events).Some?
    requires Run(Start(poolSize), c, events).value.client.Reading?
    ensures var s := Run(Start(poolSize), c, events).value;
            && multiset(Submitted(events)) ==
               multiset(Flatten(s.pages)) + multiset(Refused(AllJudged(Start(poolSize), c, events)))
            && (AllYoung(events) ==> multiset(Submitted(events)) == multiset(Flatten(s.pages)))
            && Packed(s.pages, c.pageCapacity)
  {
    NothingLost(poolSize, c, events);
    ReaderSeesAll(poolSize, c, events);
    EveryRun(poolSize, c, events);
    var s := Run(Start(poolSize), c, events).value;
    assert s.accepted + multiset([]) == s.accepted;
    if AllYoung(events) {
      TakenInOrder(poolSize, c, events);
      assert Flatten(s.handed) + CurMs(s) + [] == Flatten(s.handed) + CurMs(s);
    }
  }

  // ---- how full the queued caches are ----

  /** The caches queued are full, and so is the current one when it is about to be given up. */
  ghost predicate HandsOverFull(s: State, c: Config) {
    && AllFull(s.handed, c.cacheSize)
    && (s.client.WriteCache? || s.client.Marked? ==> |CurMs(s)| == c.cacheSize)
  }

  /** The current cache is not over-full. */
  ghost predicate CurFits(s: State, c: Config) { |CurMs(s)| <= c.cacheSize }

  lemma {:induction false} OneFull(s: State, c: Config, young: bool)
    requires CurFits(s, c) && HandsOverFull(s, c) && StepOne(s, c, young).Some?
    ensures HandsOverFull(StepOne(s, c, young).value, c)
  {
  }

  lemma {:induction false} ChunkFull(s: State, c: Config, young: seq<bool>)
    requires CurFits(s, c) && HandsOverFull(s, c) && StepChunk(s, c, young).Some? && AllTrue(young)
    ensures HandsOverFull(StepChunk(s, c, young).value, c)
  {
    if s.client.rest != [] {
      var rest := s.client.rest;
      var k := Min(c.cacheSize - |CurMs(s)|, |rest|);
      KeptAll(rest[..k], young);
      CurWith(s, CurMs(s) + rest[..k], StepChunk(s, c, young).value);
    }
  }

  lemma {:induction false} ClientFull(s: State, c: Config, e: Event)
    requires HandsOverFull(s, c) && Next(s, c, e).Some?
    requires e.CallOne? || e.CallBatch? || e.EnterBatch? || e.BeginSync? || e.Enqueue? || e.ScanNext? || e.LookBusy?
             || e.LockWorker? || e.EndRead?
    ensures HandsOverFull(Next(s, c, e).value, c)
  {
  }

  lemma {:induction false} WorkerFull(s: State, c: Config, e: Event)
    requires HandsOverFull(s, c) && Next(s, c, e).Some?
    requires e.WakeUp? || e.GoWait? || e.Pop? || e.WritePages? || e.ClearCache? || e.EndSync?
    requires InFlight(s.worker).Some? ==> s.cur != InFlight(s.worker)
    requires s.queue != [] ==> s.cur != Some(s.queue[0])
    ensures HandsOverFull(Next(s, c, e).value, c)
  {
  }

  lemma {:induction false} FullNext(s: State, c: Config, e: Event)
    requires Inv(s, c) && HandsOverFull(s, c) && Next(s, c, e).Some? && YoungAt(e) && !e.CallRead?
    ensures HandsOverFull(Next(s, c, e).value, c)
  {
    if e.TryOne? {
      OneFull(s, c, e.young);
    } else if e.Chunk? {
      ChunkFull(s, c, e.verdicts);
    } else if e.WakeUp? || e.GoWait? || e.Pop? || e.WritePages? || e.ClearCache? || e.EndSync? {
      CurIsApart(s, c);
      WorkerFull(s, c, e);
    } else {
      ClientFull(s, c, e);
    }
  }

  ghost predicate NoReads(events: seq<Event>) { forall i :: 0 <= i < |events| ==> !events[i].CallRead? }

  /**
   Without readers, and when nothing is refused, only full caches are queued.
   */
  lemma {:induction false} QueuedAreFull(poolSize: nat, c: Config, events: seq<Event>)
    requires poolSize >= 1 && Run(Start(poolSize), c, events).Some? && AllYoung(events) && NoReads(events)
    ensures HandsOverFull(Run(Start(poolSize), c, events).value, c)
  {
    if events != [] {
      var k := |events| - 1;
      QueuedAreFull(poolSize, c, events[..k]);
      EveryRun(poolSize, c, events[..k]);
      FullNext(Run(Start(poolSize), c, events[..k]).value, c, events[k]);
    }
  }
}
