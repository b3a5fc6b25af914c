/** The worker thread and its queue, step by step: who takes which item, and what `stop` and `kill` guarantee. */
module AsyncWorker {
  import opened Wrappers

  /** The worker thread, between two steps of its loop; all but NotStarted, Asleep and Ended hold the thread lock. */
  datatype Thread<T> =
    | NotStarted
    | TestEmpty         // the inner loop's condition
    | Asleep            // in the wait
    | TestStop          // woken: the test inside the inner loop
    | TestStopAgain     // the test after the inner loop
    | TakeItem          // before the pop
    | Calling(item: T)
    | Leaving           // out of the loop; the working flag is still set
    | Ended

  /** The thread that calls stop or kill. */
  datatype Stopper = Outside | TestBusy | SetFlag | AwaitExit | Join | Returned

  /**
   `added`, `called` record the items added and passed to `call`, in order; `early` are those added
   before the last stop saw the queue empty (or, finding the worker stopped, was entered), and `drained`
   tells whether that stop found the worker running.
   */
  datatype State<T> = State(queue: seq<T>, thread: Thread<T>, paused: bool, stopFlag: bool, working: bool,
                            stopper: Stopper, added: seq<T>, called: seq<T>, early: seq<T>, drained: bool)

  datatype Event<T> =
    | Add(item: T) | Pause | Continue
    | EnterStop | EnterKill | LookBusy | RaiseFlag | LookWorking | JoinThread
    | Launch | LookEmpty | Wake | LookStop | LookStopAgain | Pop | EndCall | Leave

  /** The worker has the thread lock. */
  predicate HoldsLock<T>(t: Thread<T>) { !t.NotStarted? && !t.Asleep? && !t.Ended? }

  function StepStopper<T>(s: State<T>, e: Event<T>): Option<State<T>> {
    match e
    case EnterStop =>
      if !s.stopper.Outside? && !s.stopper.Returned? then None
      else if s.stopFlag then Some(s.(stopper := Returned, early := s.added, drained := false))
      else Some(s.(stopper := TestBusy, drained := true))
    case EnterKill => if s.stopper.Outside? then Some(s.(stopper := SetFlag)) else None
    case LookBusy =>
      if !s.stopper.TestBusy? then None else if s.queue != [] then Some(s)
      else Some(s.(stopper := SetFlag, early := s.added))
    case RaiseFlag => if s.stopper.SetFlag? then Some(s.(stopper := AwaitExit, stopFlag := true)) else None
    case LookWorking =>
      if !s.stopper.AwaitExit? then None else if s.working then Some(s) else Some(s.(stopper := Join))
    case JoinThread => if s.stopper.Join? && s.thread.Ended? then Some(s.(stopper := Returned)) else None
    case _ => None
  }

  function StepThread<T>(s: State<T>, e: Event<T>): Option<State<T>> {
    match e
    case Launch =>
      if s.thread.NotStarted? && !s.paused then Some(s.(thread := TestEmpty, working := true)) else None
    case LookEmpty =>
      if !s.thread.TestEmpty? then None
      else Some(s.(thread := if s.queue == [] then Asleep else TestStopAgain))
    case Wake => if s.thread.Asleep? && !s.paused then Some(s.(thread := TestStop)) else None
    case LookStop =>
      if !s.thread.TestStop? then None else Some(s.(thread := if s.stopFlag then TestStopAgain else TestEmpty))
    case LookStopAgain =>
      if !s.thread.TestStopAgain? then None else Some(s.(thread := if s.stopFlag then Leaving else TakeItem))
    case Pop =>
      if s.thread.TakeItem? && s.queue != [] then Some(s.(thread := Calling(s.queue[0]), queue := s.queue[1..]))
      else None
    case EndCall =>
      if s.thread.Calling? then Some(s.(thread := TestEmpty, called := s.called + [s.thread.item])) else None
    case Leave => if s.thread.Leaving? then Some(s.(thread := Ended, working := false)) else None
    case _ => None
  }

  function Next<T>(s: State<T>, e: Event<T>): Option<State<T>> {
    match e
    case Add(item) => Some(s.(queue := s.queue + [item], added := s.added + [item]))
    case Pause => if !s.paused && !HoldsLock(s.thread) then Some(s.(paused := true)) else None
    case Continue => if s.paused then Some(s.(paused := false)) else None
    case EnterStop => StepStopper(s, e)
    case EnterKill => StepStopper(s, e)
    case LookBusy => StepStopper(s, e)
    case RaiseFlag => StepStopper(s, e)
    case LookWorking => StepStopper(s, e)
    case JoinThread => StepStopper(s, e)
    case _ => StepThread(s, e)
  }

  /** start has returned; the thread may not have run yet. */
  function Start<T>(): State<T> { State([], NotStarted, false, false, false, Outside, [], [], [], false) }

  function Run<T>(s: State<T>, events: seq<Event<T>>): Option<State<T>> {
    if events == [] then Some(s)
    else
      match Run(s, events[..|events| - 1])
      case None => None
      case Some(s') => Next(s', events[|events| - 1])
  }

  // ---- what every reachable state keeps ----

  function InHand<T>(t: Thread<T>): seq<T> { if t.Calling? then [t.item] else [] }

  ghost predicate Before<T>(a: seq<T>, b: seq<T>) { |a| <= |b| && b[..|a|] == a }

  /** Every item added was called, is being called, or waits: in the order they were added. */
  ghost predicate Fifo<T>(s: State<T>) { s.added == s.called + InHand(s.thread) + s.queue }

  /** Once the stopper of a `stop` is past the busy test, all early items have left the queue. */
  ghost predicate StopOk<T>(s: State<T>) {
    && Before(s.early, s.added)
    && (s.drained && (s.stopper.SetFlag? || s.stopper.AwaitExit? || s.stopper.Join? || s.stopper.Returned?) ==>
          |s.early| <= |s.called + InHand(s.thread)|)
    && (s.stopper.Outside? ==> !s.drained)
    && (s.stopFlag <==> s.stopper.AwaitExit? || s.stopper.Join? || s.stopper.Returned?)
    && (s.stopper.Returned? ==> s.thread.Ended?)
  }

  ghost predicate Inv<T>(s: State<T>) {
    && Fifo(s) && StopOk(s)
    && (s.thread.Leaving? || s.thread.Ended? ==> s.stopFlag)
    && (s.working <==> HoldsLock(s.thread) || s.thread.Asleep?)
    && (s.paused ==> !HoldsLock(s.thread))
    && (s.thread.TakeItem? || (s.thread.TestStopAgain? && !s.stopFlag) ==> s.queue != [])
  }

  lemma {:induction false} StopperKeeps<T>(s: State<T>, e: Event<T>)
    requires Inv(s) && StepStopper(s, e).Some?
    ensures Inv(StepStopper(s, e).value)
  {
  }

  lemma {:induction false} ThreadKeeps<T>(s: State<T>, e: Event<T>)
    requires Inv(s) && StepThread(s, e).Some?
    ensures Inv(StepThread(s, e).value)
  {
    if e.Pop? && s.thread.TakeItem? {
      assert s.queue == [s.queue[0]] + s.queue[1..];
    }
  }

  lemma {:induction false} NextKeeps<T>(s: State<T>, e: Event<T>)
    requires Inv(s) && Next(s, e).Some?
    ensures Inv(Next(s, e).value)
  {
    if StepStopper(s, e).Some? {
      StopperKeeps(s, e);
    } else if StepThread(s, e).Some? {
      ThreadKeeps(s, e);
    }
  }

  /** The invariant holds in every state any interleaving reaches. */
  lemma {:induction false} EveryRun<T>(events: seq<Event<T>>)
    requires Run(Start(), events).Some?
    ensures Inv(Run(Start(), events).value)
  {
    if events != [] {
      var before := events[..|events| - 1];
      EveryRun(before);
      NextKeeps(Run(Start(), before).value, events[|events| - 1]);
    }
  }

  // ---- what stop guarantees ----

  /**
   When a stop that found the worker running returns, every item added before it saw the queue empty has
   been passed to `call`, once and in order; with no add after that this is all there is.
   */
  lemma {:induction false} StopDrains<T>(events: seq<Event<T>>)
    requires Run(Start<T>(), events).Some?
    requires var s := Run(Start<T>(), events).value; s.stopper.Returned? && s.drained
    ensures var s := Run(Start<T>(), events).value;
            && Before(s.early, s.called) && s.called + s.queue == s.added
            && (s.added == s.early ==> s.called == s.added && s.queue == [])
  {
    EveryRun(events);
    var s := Run(Start<T>(), events).value;
    assert s.called + InHand(s.thread) == s.called;
  }

  /**
   A stop that finds the flag already set returns at once: every item added before has been called if and
   only if the queue was empty.
   */
  lemma {:induction false} StopWhenStopped<T>(events: seq<Event<T>>)
    requires Run(Start<T>(), events).Some?
    requires var s := Run(Start<T>(), events).value; s.stopFlag && s.stopper.Returned?
    ensures var s := Run(Start<T>(), events).value;
            && Next(s, EnterStop).Some?
            && var s' := Next(s, EnterStop).value;
               && s'.stopper.Returned? && s'.early == s.added
               && (Before(s'.early, s'.called) <==> s.queue == [])
  {
    EveryRun(events);
    var s := Run(Start<T>(), events).value;
    assert s.called + InHand(s.thread) == s.called;
    assert s.queue == [] ==> s.called == s.added && s.called[..|s.added|] == s.added;
  }

  /** While another thread has paused the worker, no item is taken and no call is under way. */
  lemma {:induction false} PausedIsQuiet<T>(events: seq<Event<T>>, e: Event<T>)
    requires Run(Start<T>(), events).Some? && Run(Start<T>(), events).value.paused
    requires Next(Run(Start<T>(), events).value, e).Some?
    ensures var s := Run(Start<T>(), events).value;
            var s' := Next(s, e).value;
            InHand(s.thread) == [] && s'.called == s.called && Before(s.queue, s'.queue)
  {
    EveryRun(events);
  }

  /** A run extended by one step. */
  lemma {:induction false} Do<T>(events: seq<Event<T>>, s: State<T>, e: Event<T>)
    returns (events': seq<Event<T>>, s': State<T>)
    requires Run(Start(), events) == Some(s) && Next(s, e).Some?
    ensures Run(Start(), events') == Some(s') && s' == Next(s, e).value
  {
    events', s' := events + [e], Next(s, e).value;
    assert events'[..|events|] == events;
  }

  lemma {:induction false} AddAfterBusyTest<T>(x: T) returns (events: seq<Event<T>>, s: State<T>)
    ensures Run(Start(), events) == Some(s)
    ensures s == State([x], Asleep, false, false, true, SetFlag, [x], [], [], true)
  {
    events, s := [], Start();
    events, s := Do(events, s, Launch);
    events, s := Do(events, s, LookEmpty);
    events, s := Do(events, s, EnterStop);
    events, s := Do(events, s, LookBusy);
    events, s := Do(events, s, Add(x));
  }

  // ---- which items a stop under way still serves ----

  /** A stop, or a kill, has begun and not returned. */
  predicate UnderWay(stopper: Stopper) {
    stopper.TestBusy? || stopper.SetFlag? || stopper.AwaitExit? || stopper.Join?
  }

  lemma {:induction false} RunConcat<T>(s: State<T>, a: seq<Event<T>>, b: seq<Event<T>>)
    requires Run(s, a).Some?
    ensures Run(s, a + b) == Run(Run(s, a).value, b)
  {
    if b == [] {
      assert a + b == a;
    } else {
      assert (a + b)[..|a + b| - 1] == a + b[..|b| - 1];
      RunConcat(s, a, b[..|b| - 1]);
    }
  }

  /** `n` items have left the queue, or the stop still waits for it to be empty. */
  ghost predicate Served<T>(s: State<T>, n: nat) {
    n <= |s.added| && (s.stopper.TestBusy? || n <= |s.called + InHand(s.thread)|)
  }

  lemma {:induction false} ServedStays<T>(s: State<T>, n: nat, e: Event<T>)
    requires Inv(s) && (UnderWay(s.stopper) || s.stopper.Returned?)
    requires Served(s, n) && Next(s, e).Some?
    ensures Served(Next(s, e).value, n) && (UnderWay(Next(s, e).value.stopper) || Next(s, e).value.stopper.Returned?)
  {
  }

  lemma {:induction false} ServedToTheEnd<T>(s: State<T>, n: nat, more: seq<Event<T>>)
    requires Inv(s) && UnderWay(s.stopper) && Served(s, n) && Run(s, more).Some?
    ensures var s' := Run(s, more).value;
            && Inv(s') && Served(s', n) && (UnderWay(s'.stopper) || s'.stopper.Returned?)
            && (s'.stopper.Returned? ==> n <= |s'.called|)
  {
    if more != [] {
      var last := |more| - 1;
      ServedToTheEnd(s, n, more[..last]);
      var before := Run(s, more[..last]).value;
      NextKeeps(before, more[last]);
      ServedStays(before, n, more[last]);
    }
  }

  /** The thread has not taken the item after the first `m`, and is not about to. */
  ghost predicate Away<T>(s: State<T>, m: nat) {
    && |s.called + InHand(s.thread)| <= m < |s.added|
    && (s.thread.TakeItem? ==> |s.called + InHand(s.thread)| < m)
  }

  /** How far the thread is from its end once the flag is set. */
  function ThreadRank<T>(t: Thread<T>): nat {
    match t
    case NotStarted => 4
    case TestEmpty => 3
    case Asleep => 4
    case TestStop => 3
    case TestStopAgain => 2
    case TakeItem => 5
    case Calling(_) => 4
    case Leaving => 1
    case Ended => 0
  }

  /** How far a stop past its busy test is from its return. */
  function Rank<T>(s: State<T>): nat {
    var stopper := match s.stopper case SetFlag => 3 case AwaitExit => 2 case Join => 1 case _ => 0;
    10 * stopper + ThreadRank(s.thread) + if s.paused then 1 else 0
  }

  /** The step to take next: raise the flag, let the thread run to its end, return. */
  function NextDown<T>(s: State<T>): Event<T> {
    if s.stopper.SetFlag? then RaiseFlag
    else match s.thread
      case NotStarted => if s.paused then Continue else Launch
      case TestEmpty => LookEmpty
      case Asleep => if s.paused then Continue else Wake
      case TestStop => LookStop
      case TestStopAgain => LookStopAgain
      case TakeItem => Pop
      case Calling(_) => EndCall
      case Leaving => Leave
      case Ended => if s.stopper.AwaitExit? then LookWorking else JoinThread
  }

  lemma {:induction false} StepDown<T>(s: State<T>, m: nat)
    requires Inv(s) && Away(s, m) && (s.stopper.SetFlag? || s.stopper.AwaitExit? || s.stopper.Join?)
    ensures Next(s, NextDown(s)).Some?
    ensures var s' := Next(s, NextDown(s)).value;
            && Away(s', m) && Rank(s') < Rank(s)
            && (s'.stopper.SetFlag? || s'.stopper.AwaitExit? || s'.stopper.Join? || s'.stopper.Returned?)
  {
  }

  /** From there the stop can return without that item having been called. */
  lemma {:induction false} ReturnWithout<T>(s: State<T>, m: nat) returns (more: seq<Event<T>>)
    requires Inv(s) && Away(s, m)
    requires s.stopper.SetFlag? || s.stopper.AwaitExit? || s.stopper.Join? || s.stopper.Returned?
    ensures Run(s, more).Some? && Run(s, more).value.stopper.Returned? && |Run(s, more).value.called| <= m
    decreases Rank(s)
  {
    if s.stopper.Returned? {
      more := [];
    } else {
      var e := NextDown(s);
      StepDown(s, m);
      NextKeeps(s, e);
      more := ReturnWithout(Next(s, e).value, m);
      assert [e][..0] == [];
      assert Run(s, [e][..0]) == Some(s);
      assert Run(s, [e]) == Next(s, e);
      RunConcat(s, [e], more);
      more := [e] + more;
    }
  }

  /** However the run goes on after item `x` was added, `x` has been called when the stop returns. */
  ghost predicate AlwaysCalled<T(!new)>(s: State<T>, x: T) {
    var s' := Next(s, Add(x)).value;
    forall more :: Run(s', more).Some? && Run(s', more).value.stopper.Returned? ==>
      |s.added| < |Run(s', more).value.called|
  }

  /** An item added while a stop is under way is sure to be called if and only if the stop still waits for the queue. */
  lemma {:induction false} CalledIff<T(!new)>(events: seq<Event<T>>, x: T)
    requires Run(Start<T>(), events).Some? && UnderWay(Run(Start<T>(), events).value.stopper)
    ensures var s := Run(Start<T>(), events).value; AlwaysCalled(s, x) <==> s.stopper.TestBusy?
  {
    EveryRun(events);
    var s := Run(Start<T>(), events).value;
    var s', n := Next(s, Add(x)).value, |s.added| + 1;
    NextKeeps(s, Add(x));
    if s.stopper.TestBusy? {
      forall more | Run(s', more).Some? && Run(s', more).value.stopper.Returned?
        ensures |s.added| < |Run(s', more).value.called|
      {
        ServedToTheEnd(s', n, more);
      }
    } else {
      assert |s.added| == |s.called + InHand(s.thread)| + |s.queue|;
      var more := ReturnWithout(s', |s.added|);
    }
  }

  /** An item added after the busy test, that is never called. */
  lemma {:induction false} LateItemIsLost<T>(x: T) returns (events: seq<Event<T>>, s: State<T>)
    ensures Run(Start(), events) == Some(s) && s.stopper.Returned? && s.drained
    ensures s.early == [] && s.added == [x] && s.called == [] && s.queue == [x]
  {
    events, s := AddAfterBusyTest(x);
    events, s := Do(events, s, RaiseFlag);
    events, s := Do(events, s, Wake);
    events, s := Do(events, s, LookStop);
    events, s := Do(events, s, LookStopAgain);
    events, s := Do(events, s, Leave);
    events, s := Do(events, s, LookWorking);
    events, s := Do(events, s, JoinThread);
  }

  /** A second stop does not call it either. */
  lemma {:induction false} SecondStopLeavesIt<T>(x: T) returns (events: seq<Event<T>>, s: State<T>)
    ensures Run(Start(), events) == Some(s) && s.stopper.Returned?
    ensures s.early == [x] && s.called == [] && s.queue == [x]
  {
    events, s := LateItemIsLost(x);
    EveryRun(events);
    events, s := Do(events, s, EnterStop);
  }
}
