/**
 The functor queue and the wakeup of an event loop (net/EventLoop.cc) as a step relation: other threads push and
 wake, the loop thread polls, handles events and runs the queued functors, in any interleaving.
 A critical section of the mutex, a read and a write of the eventfd are one step each.
 */
module EventLoop {

  type Functor = nat
  type ThreadId = nat

  /** Largest value an eventfd counter takes; a further write fails and leaves it readable. */
  const COUNTER_MAX: nat := 0xffff_ffff_ffff_fffe

  /** Where the loop thread is. */
  datatype Phase =
    | Outside                    // not inside loop()
    | Checking                   // at the while condition
    | Polling                    // inside poll
    | Handling(wakeActive: bool) // running event callbacks; is the wakeup channel still to be handled?
    | Swapping                   // in doPendingFunctors, before the swap
    | Running                    // in doPendingFunctors, after the swap

  /**
   `owing` are the other threads between their push (or quit) and their wakeup, `loopOwes` says the same of the
   loop thread, `early` that it has queued outside loop() since the last swap. `pushed` and `ran` are the history.
   */
  datatype State = State(
    phase: Phase,
    calling: bool,
    quit: bool,
    pending: seq<Functor>,
    batch: seq<Functor>,
    counter: nat,
    owing: set<ThreadId>,
    loopOwes: bool,
    early: bool,
    pushed: seq<Functor>,
    ran: seq<Functor>)

  datatype Step =
    | Push(thread: ThreadId, f: Functor)  // queueInLoop of another thread, first half
    | Quit(thread: ThreadId)              // quit() of another thread, first half
    | Wake(thread: ThreadId)              // wakeup() of that thread
    | LoopPush(g: Functor)                // queueInLoop by the loop thread
    | LoopWake                            // its wakeup()
    | LoopQuit                            // quit() by the loop thread
    | Start                               // loop() is entered
    | Enter                               // quit_ is false: poll is called
    | Leave                               // quit_ is true: loop() returns
    | PollReturns(wake: bool)             // with or without the wakeup channel among the active ones
    | HandleWake                          // handleRead empties the eventfd
    | EndHandling                         // doPendingFunctors sets callingPendingFunctors_
    | Swap
    | RunOne
    | EndRunning

  const Initial := State(Outside, false, false, [], [], 0, {}, false, false, [], [])

  /** The loop thread is executing user code, so it may queue functors or quit. */
  predicate InCallback(s: State) {
    (s.phase.Outside? || s.phase.Handling? || s.phase.Running?) && !s.loopOwes
  }

  predicate Enabled(s: State, step: Step) {
    match step
    case Push(t, _) => t !in s.owing
    case Quit(t) => t !in s.owing
    case Wake(t) => t in s.owing
    case LoopPush(_) => InCallback(s)
    case LoopWake => s.loopOwes
    case LoopQuit => InCallback(s)
    case Start => s.phase.Outside?
    case Enter => s.phase.Checking? && !s.quit
    case Leave => s.phase.Checking? && s.quit
    case PollReturns(wake) => s.phase.Polling? && (wake ==> s.counter > 0)
    case HandleWake => s.phase == Handling(true)
    case EndHandling => s.phase == Handling(false) && !s.loopOwes
    case Swap => s.phase.Swapping?
    case RunOne => s.phase.Running? && s.batch != [] && !s.loopOwes
    case EndRunning => s.phase.Running? && s.batch == [] && !s.loopOwes
  }

  function Signal(counter: nat): (c: nat)
    ensures c > 0
  {
    if counter < COUNTER_MAX then counter + 1 else counter
  }

  function Apply(s: State, step: Step): (r: State)
    requires Enabled(s, step)
  {
    match step
    case Push(t, f) => s.(pending := s.pending + [f], owing := s.owing + {t}, pushed := s.pushed + [f])
    case Quit(t) => s.(quit := true, owing := s.owing + {t})
    case Wake(t) => s.(counter := Signal(s.counter), owing := s.owing - {t})
    case LoopPush(f) =>
      s.(pending := s.pending + [f], pushed := s.pushed + [f], loopOwes := s.calling,
         early := s.early || s.phase.Outside?)
    case LoopWake => s.(counter := Signal(s.counter), loopOwes := false)
    case LoopQuit => s.(quit := true)
    case Start => s.(phase := Checking, quit := false)
    case Enter => s.(phase := Polling)
    case Leave => s.(phase := Outside)
    case PollReturns(wake) => s.(phase := Handling(wake))
    case HandleWake => s.(phase := Handling(false), counter := 0)
    case EndHandling => s.(phase := Swapping, calling := true)
    case Swap => s.(phase := Running, batch := s.pending, pending := [], early := false)
    case RunOne => s.(batch := s.batch[1..], ran := s.ran + [s.batch[0]])
    case EndRunning => s.(phase := Checking, calling := false)
  }

  // ---- the invariant ---------------------------------------------------------------------

  /** Queued work the loop would not be told about: no signal, and nobody about to give one. */
  predicate Unannounced(s: State) {
    s.pending != [] && s.counter == 0 && s.owing == {} && !s.loopOwes
  }

  predicate Inv(s: State) {
    && s.pushed == s.ran + s.batch + s.pending
    && (s.batch != [] ==> s.phase.Running?)
    && (s.calling <==> s.phase.Swapping? || s.phase.Running?)
    && (s.loopOwes ==> s.phase.Running?)
    && (s.phase.Handling? || s.phase.Swapping? || s.early || !Unannounced(s))
    && (s.phase.Polling? && s.quit ==> s.counter > 0 || s.owing != {})
  }

  lemma InvStep(s: State, step: Step)
    requires Inv(s) && Enabled(s, step)
    ensures Inv(Apply(s, step))
  {
    match step
    case Push(t, f) => assert s.ran + s.batch + (s.pending + [f]) == s.ran + s.batch + s.pending + [f];
    case LoopPush(f) => assert s.ran + s.batch + (s.pending + [f]) == s.ran + s.batch + s.pending + [f];
    case Swap => assert s.ran + s.pending + [] == s.ran + [] + s.pending;
    case RunOne => assert s.ran + [s.batch[0]] + s.batch[1..] == s.ran + s.batch;
    case _ =>
  }

  // ---- runs -----------------------------------------------------------------------------

  predicate IsRun(s: State, steps: seq<Step>)
    decreases |steps|
  {
    steps == [] || (Enabled(s, steps[0]) && IsRun(Apply(s, steps[0]), steps[1..]))
  }

  function After(s: State, steps: seq<Step>): (r: State)
    requires IsRun(s, steps)
    decreases |steps|
  {
    if steps == [] then s else After(Apply(s, steps[0]), steps[1..])
  }

  lemma {:induction false} InvRun(s: State, steps: seq<Step>)
    requires Inv(s) && IsRun(s, steps)
    ensures Inv(After(s, steps))
    decreases |steps|
  {
    if steps != [] {
      InvStep(s, steps[0]);
      InvRun(Apply(s, steps[0]), steps[1..]);
    }
  }

  function PushedIn(step: Step): (fs: seq<Functor>) {
    match step
    case Push(_, f) => [f]
    case LoopPush(f) => [f]
    case _ => []
  }

  /** The functors the steps of a run queue, in order. */
  function PushedBy(steps: seq<Step>): (fs: seq<Functor>) {
    if steps == [] then [] else PushedIn(steps[0]) + PushedBy(steps[1..])
  }

  lemma PushedStep(s: State, step: Step)
    requires Enabled(s, step)
    ensures Apply(s, step).pushed == s.pushed + PushedIn(step)
  {
  }

  lemma {:induction false} PushedRun(s: State, steps: seq<Step>)
    requires IsRun(s, steps)
    ensures After(s, steps).pushed == s.pushed + PushedBy(steps)
    decreases |steps|
  {
    hide Apply, Enabled, PushedIn;
    if steps != [] {
      PushedStep(s, steps[0]);
      PushedRun(Apply(s, steps[0]), steps[1..]);
      Regroup(s.pushed, PushedIn(steps[0]), PushedBy(steps[1..]));
    }
  }

  lemma Regroup(a: seq<Functor>, b: seq<Functor>, c: seq<Functor>)
    ensures a + b + c == a + (b + c)
  {
  }

  /**
   In every interleaving the functors run are a prefix of those the steps queued: each once, in push order, and the rest
   is in the batch and the queue, none lost.
   */
  lemma RunInPushOrder(steps: seq<Step>)
    requires IsRun(Initial, steps)
    ensures
      var s, all := After(Initial, steps), PushedBy(steps);
      s.ran <= all && all[|s.ran|..] == s.batch + s.pending
  {
    hide IsRun, After, PushedBy;
    InvRun(Initial, steps);
    PushedRun(Initial, steps);
    var s := After(Initial, steps);
    assert [] + PushedBy(steps) == PushedBy(steps);
    Regroup(s.ran, s.batch, s.pending);
  }

  predicate IsWake(step: Step) { step.Wake? || step.LoopWake? }

  predicate NoWake(steps: seq<Step>) {
    forall i :: 0 <= i < |steps| ==> !IsWake(steps[i])
  }

  lemma {:induction false} QuietUntilWake(s: State, steps: seq<Step>)
    requires s.counter == 0 && IsRun(s, steps) && NoWake(steps)
    ensures PollReturns(true) !in steps && After(s, steps).counter == 0
    decreases |steps|
  {
    if steps != [] {
      assert !IsWake(steps[0]);
      assert steps == [steps[0]] + steps[1..];
      assert forall i :: 0 <= i < |steps| - 1 ==> steps[1..][i] == steps[i + 1];
      QuietUntilWake(Apply(s, steps[0]), steps[1..]);
    }
  }

  /** Once handled, a wakeup is not reported again: poll reports one only behind a later wakeup(), and then does. */
  lemma WakeReportedOnce(s: State, steps: seq<Step>)
    requires Enabled(s, HandleWake) && IsRun(Apply(s, HandleWake), steps)
    ensures NoWake(steps) ==> PollReturns(true) !in steps && After(Apply(s, HandleWake), steps).counter == 0
    ensures
      var t := After(Apply(s, HandleWake), steps);
      forall wake :: IsWake(wake) && Enabled(t, wake) && t.phase.Polling? ==> Enabled(Apply(t, wake), PollReturns(true))
  {
    if NoWake(steps) { QuietUntilWake(Apply(s, HandleWake), steps); }
  }

  /**
   The loop never sits in poll with queued work unless the eventfd is readable or a pusher is between its push
   and its wakeup; the one exception is work the loop thread queued itself before entering loop().
   */
  lemma NoLostWakeup(steps: seq<Step>)
    requires IsRun(Initial, steps)
    ensures var s := After(Initial, steps); s.phase.Polling? && s.pending != [] && !s.early ==>
      s.counter > 0 || s.owing != {}
  {
    InvRun(Initial, steps);
  }

  /**
   A quit() of another thread is never slept through: in poll with quit_ set, the eventfd is readable or about to be.
   */
  lemma QuitWakesLoop(steps: seq<Step>)
    requires IsRun(Initial, steps)
    ensures var s := After(Initial, steps); s.phase.Polling? && s.quit ==> s.counter > 0 || s.owing != {}
  {
    InvRun(Initial, steps);
  }

  // ---- when quit() takes effect ----------------------------------------------------------------

  /** A call of quit(), by another thread or by the loop thread. */
  predicate IsQuit(step: Step) { step.Quit? || step.LoopQuit? }

  lemma QuitStays(s: State, step: Step)
    requires s.quit && !s.phase.Outside? && Enabled(s, step) && step != Leave
    ensures step != Enter && Apply(s, step).quit && !Apply(s, step).phase.Outside?
  {
  }

  lemma {:induction false} QuitHolds(s: State, steps: seq<Step>)
    requires s.quit && !s.phase.Outside? && IsRun(s, steps) && Leave !in steps
    ensures Enter !in steps && After(s, steps).quit && !After(s, steps).phase.Outside?
    decreases |steps|
  {
    hide Apply, Enabled;
    if steps != [] {
      assert steps == [steps[0]] + steps[1..];
      QuitStays(s, steps[0]);
      QuitHolds(Apply(s, steps[0]), steps[1..]);
    }
  }

  /** Outside loop() the flag is cleared by the next Start, and the loop goes on to poll. */
  lemma EarlyQuitForgotten(s: State, quit: Step)
    requires Enabled(s, quit) && IsQuit(quit) && s.phase.Outside?
    ensures
      var t := Apply(s, quit);
      IsRun(t, [Start, Enter]) && After(t, [Start, Enter]).phase.Polling? && !After(t, [Start, Enter]).quit
  {
    hide IsRun, After;
    var t := Apply(s, quit);
    var t1 := Apply(t, Start);
    var t2 := Apply(t1, Enter);
    assert [Enter] + [] == [Enter] && [Start] + [Enter] == [Start, Enter];
    NothingMore(t2);
    Prefixed(t1, Enter, []);
    Prefixed(t, Start, [Enter]);
  }

  /**
   In every state and for every quit(): poll is never entered again before loop() returns, whatever all threads do, if
   and only if the call came while the loop thread was inside loop().
   */
  lemma QuitTakesEffectIff(s: State, quit: Step)
    requires Enabled(s, quit) && IsQuit(quit)
    ensures
      (forall steps :: IsRun(Apply(s, quit), steps) && Leave !in steps ==> Enter !in steps) <==> !s.phase.Outside?
  {
    var t := Apply(s, quit);
    if s.phase.Outside? {
      EarlyQuitForgotten(s, quit);
      var steps := [Start, Enter];
      assert IsRun(t, steps) && Leave !in steps && Enter in steps;
    } else {
      assert t.quit && !t.phase.Outside?;
      forall steps | IsRun(t, steps) && Leave !in steps ensures Enter !in steps { QuitHolds(t, steps); }
    }
  }

  /** And loop() can return then: from every state inside it with quit_ set some run leaves without entering poll. */
  lemma QuitLeaves(s: State) returns (steps: seq<Step>)
    requires Inv(s) && s.quit && !s.phase.Outside?
    ensures IsRun(s, steps) && Enter !in steps && After(s, steps).phase.Outside?
    decreases
      match s.phase
      case Outside => 0
      case Checking => 1
      case Running => 3
      case Swapping => 4
      case Handling(wake) => if wake then 6 else 5
      case Polling => 7,
      s.loopOwes
  {
    hide IsRun, After, RunAll;
    if s.phase.Checking? {
      NothingMore(Apply(s, Leave));
      steps := LeaveBy(s, Leave, []);
    } else if s.phase.Running? && !s.loopOwes {
      RunAllRuns(s);
      RunAllNeverEnters(|s.batch|);
      var t := After(s, RunAll(|s.batch|));
      NothingMore(Apply(t, Leave));
      var last := LeaveBy(t, Leave, []);
      Joined(s, RunAll(|s.batch|), last);
      steps := RunAll(|s.batch|) + last;
    } else {
      var step :=
        if s.loopOwes then LoopWake
        else if s.phase.Swapping? then Swap
        else if s.phase.Polling? then PollReturns(false)
        else if s.phase.wakeActive then HandleWake
        else EndHandling;
      InvStep(s, step);
      var rest := QuitLeaves(Apply(s, step));
      steps := LeaveBy(s, step, rest);
    }
  }

  lemma LeaveBy(s: State, step: Step, rest: seq<Step>) returns (steps: seq<Step>)
    requires Enabled(s, step) && step != Enter && IsRun(Apply(s, step), rest) && Enter !in rest
    ensures steps == [step] + rest && IsRun(s, steps) && Enter !in steps
    ensures After(s, steps) == After(Apply(s, step), rest)
  {
    hide Apply;
    Prefixed(s, step, rest);
    steps := [step] + rest;
  }

  lemma {:induction false} Joined(s: State, first: seq<Step>, second: seq<Step>)
    requires IsRun(s, first) && IsRun(After(s, first), second)
    ensures IsRun(s, first + second) && After(s, first + second) == After(After(s, first), second)
    decreases |first|
  {
    hide Apply, Enabled;
    if first == [] {
      assert first + second == second;
    } else {
      assert (first + second)[0] == first[0] && (first + second)[1..] == first[1..] + second;
      Joined(Apply(s, first[0]), first[1..], second);
    }
  }

  lemma {:induction false} RunAllNeverEnters(n: nat)
    ensures Enter !in RunAll(n)
  {
    if n > 0 { RunAllNeverEnters(n - 1); }
  }

  lemma NothingMore(s: State)
    ensures IsRun(s, []) && After(s, []) == s
  {
  }

  predicate LoopQueuesOnlyInside(s: State, steps: seq<Step>)
    requires IsRun(s, steps)
    decreases |steps|
  {
    steps == [] ||
    (!(s.phase.Outside? && steps[0].LoopPush?) && LoopQueuesOnlyInside(Apply(s, steps[0]), steps[1..]))
  }

  lemma {:induction false} NeverEarly(s: State, steps: seq<Step>)
    requires IsRun(s, steps) && !s.early && LoopQueuesOnlyInside(s, steps)
    ensures !After(s, steps).early
    decreases |steps|
  {
    if steps != [] { NeverEarly(Apply(s, steps[0]), steps[1..]); }
  }

  /** Runs in which the loop thread queues nothing outside loop() never leave unannounced work in poll. */
  lemma DisciplinedNeverStuck(steps: seq<Step>)
    requires IsRun(Initial, steps) && LoopQueuesOnlyInside(Initial, steps)
    ensures !(After(Initial, steps).phase.Polling? && Unannounced(After(Initial, steps)))
  {
    InvRun(Initial, steps);
    NeverEarly(Initial, steps);
  }

  /**
   Outside loop(), in every state: after the loop thread queues a functor and enters the loop, it sits in poll with
   unannounced work if and only if the eventfd was not readable and nobody was about to signal it.
   */
  lemma EarlyQueueStuckIff(s: State, f: Functor)
    requires Inv(s) && s.phase.Outside?
    ensures
      var steps := [LoopPush(f), Start, Enter];
      && IsRun(s, steps) && After(s, steps).phase.Polling?
      && (Unannounced(After(s, steps)) <==> s.counter == 0 && s.owing == {})
  {
    hide IsRun, After;
    var s1 := Apply(s, LoopPush(f));
    var s2 := Apply(s1, Start);
    var s3 := Apply(s2, Enter);
    assert [Enter] + [] == [Enter] && [Start] + [Enter] == [Start, Enter];
    assert [LoopPush(f)] + [Start, Enter] == [LoopPush(f), Start, Enter];
    NothingMore(s3);
    Prefixed(s2, Enter, []);
    Prefixed(s1, Start, [Enter]);
    Prefixed(s, LoopPush(f), [Start, Enter]);
  }

  // ---- one iteration serves everything queued ------------------------------------------------

  /** Steps of the loop thread alone: the wakeup is handled, the queue swapped, each functor run. */
  function RunAll(n: nat): (steps: seq<Step>) {
    if n == 0 then [EndRunning] else [RunOne] + RunAll(n - 1)
  }

  lemma {:induction false} RunAllRuns(s: State)
    requires s.phase.Running? && !s.loopOwes
    ensures IsRun(s, RunAll(|s.batch|))
    ensures
      After(s, RunAll(|s.batch|)) ==
      s.(phase := Checking, calling := false, batch := [], ran := s.ran + s.batch)
    decreases |s.batch|
  {
    var steps := RunAll(|s.batch|);
    if s.batch == [] {
      var t := Apply(s, EndRunning);
      assert steps[1..] == [];
      assert IsRun(t, []) && After(t, []) == t;
      assert s.ran + s.batch == s.ran;
    } else {
      var t := Apply(s, RunOne);
      RunAllRuns(t);
      assert steps[1..] == RunAll(|s.batch| - 1);
      assert s.ran + [s.batch[0]] + s.batch[1..] == s.ran + s.batch;
    }
  }

  /** doPendingFunctors without interference. */
  function Serve(s: State): (steps: seq<Step>) {
    [EndHandling] + ([Swap] + RunAll(|s.pending|))
  }

  lemma ServeRuns(s: State)
    requires Inv(s) && Enabled(s, EndHandling)
    ensures IsRun(s, Serve(s))
    ensures After(s, Serve(s)) == s.(phase := Checking, pending := [], early := false, ran := s.ran + s.pending)
  {
    hide IsRun, After, RunAll;
    var s1 := Apply(s, EndHandling);
    var s2 := Apply(s1, Swap);
    RunAllRuns(s2);
    Prefixed(s1, Swap, RunAll(|s.pending|));
    Prefixed(s, EndHandling, [Swap] + RunAll(|s.pending|));
  }

  /**
   From poll with a readable eventfd, the loop thread alone reaches the end of the iteration with everything that
   was queued run, in order, and the queue empty: a signalled functor waits for no timeout.
   */
  lemma SignalledWorkIsRun(s: State) returns (steps: seq<Step>)
    requires Inv(s) && s.phase.Polling? && s.counter > 0
    ensures IsRun(s, steps)
    ensures
      var r := After(s, steps);
      r.ran == s.pushed && r.pending == [] && r.phase.Checking? && r.pushed == s.pushed && r.owing == s.owing
  {
    hide IsRun, After, Serve;
    var s1 := Apply(s, PollReturns(true));
    var s2 := Apply(s1, HandleWake);
    InvStep(s, PollReturns(true));
    InvStep(s1, HandleWake);
    ServeRuns(s2);
    Prefixed(s1, HandleWake, Serve(s2));
    Prefixed(s, PollReturns(true), [HandleWake] + Serve(s2));
    steps := [PollReturns(true)] + ([HandleWake] + Serve(s2));
    assert s.ran + s.batch + s.pending == s.ran + s.pending;
  }

  lemma Prefixed(s: State, step: Step, rest: seq<Step>)
    requires Enabled(s, step) && IsRun(Apply(s, step), rest)
    ensures IsRun(s, [step] + rest) && After(s, [step] + rest) == After(Apply(s, step), rest)
  {
    assert ([step] + rest)[1..] == rest;
  }

  // ---- the loop object ---------------------------------------------------------------------

  class Loop {
    var pendingFunctors: seq<Functor>
    var callingPendingFunctors: bool
    var quit: bool
    var counter: nat
    var ran: seq<Functor>

    constructor ()
      ensures Shows(Initial)
    {
      pendingFunctors, callingPendingFunctors, quit, counter, ran := [], false, false, 0, [];
    }

    ghost predicate Shows(s: State)
      reads this
    {
      && pendingFunctors == s.pending && callingPendingFunctors == s.calling && quit == s.quit
      && counter == s.counter && ran == s.ran
    }

    /** wakeup, of another thread or of the loop thread */
    method Wakeup(ghost step: Step, ghost s: State)
      requires Shows(s) && Enabled(s, step) && (step.Wake? || step.LoopWake?)
      modifies this`counter
      ensures Shows(Apply(s, step))
    {
      if counter < COUNTER_MAX {
        counter := counter + 1;
      }
    }

    /** queueInLoop up to the end of its critical section; says whether a wakeup has to follow */
    method Enqueue(cb: Functor, inLoopThread: bool, ghost thread: ThreadId, ghost s: State) returns (wake: bool)
      requires Shows(s) && Enabled(s, if inLoopThread then LoopPush(cb) else Push(thread, cb))
      modifies this`pendingFunctors
      ensures var r := Apply(s, if inLoopThread then LoopPush(cb) else Push(thread, cb));
              Shows(r) && (wake <==> if inLoopThread then r.loopOwes else thread in r.owing)
    {
      pendingFunctors := pendingFunctors + [cb];
      wake := !inLoopThread || callingPendingFunctors;
    }

    /**
     queueInLoop with no other step in between: the eventfd is signalled unless the loop thread queues outside its
     functors
     */
    method QueueInLoop(cb: Functor, inLoopThread: bool, ghost thread: ThreadId, ghost s: State) returns (ghost r: State)
      requires Shows(s) && Enabled(s, if inLoopThread then LoopPush(cb) else Push(thread, cb))
      modifies this`pendingFunctors, this`counter
      ensures Shows(r) && r.pending == s.pending + [cb] && r.owing == s.owing && r.loopOwes == s.loopOwes
      ensures if !inLoopThread || s.calling then r.counter > 0 else r.counter == s.counter
    {
      var wake := Enqueue(cb, inLoopThread, thread, s);
      r := Apply(s, if inLoopThread then LoopPush(cb) else Push(thread, cb));
      if wake {
        ghost var step := if inLoopThread then LoopWake else Wake(thread);
        Wakeup(step, r);
        r := Apply(r, step);
      }
    }

    /** handleRead */
    method HandleRead(ghost s: State)
      requires Shows(s) && Enabled(s, HandleWake)
      modifies this`counter
      ensures Shows(Apply(s, HandleWake))
    {
      counter := 0;
    }

    /**
     doPendingFunctors, where functor f queues `calls(f)` while it runs: the functors of the batch run in order, what
     they queue stays queued in order for the next iteration, and the eventfd is then signalled.
     */
    method DoPendingFunctors(calls: Functor -> seq<Functor>, ghost s: State) returns (ghost r: State)
      requires Shows(s) && Inv(s) && Enabled(s, EndHandling)
      modifies this`pendingFunctors, this`callingPendingFunctors, this`ran, this`counter
      ensures Shows(r) && Inv(r) && r.phase.Checking? && r.pushed == s.pushed + Queued(calls, s.pending)
      ensures ran == old(ran) + old(pendingFunctors) && pendingFunctors == Queued(calls, old(pendingFunctors))
      ensures pendingFunctors != [] ==> counter > 0
    {
      hide Inv, Queued;
      InvStep(s, EndHandling);
      r := Apply(s, EndHandling);
      callingPendingFunctors := true;
      InvStep(r, Swap);
      r := Apply(r, Swap);
      var functors: seq<Functor> := [];
      functors, pendingFunctors := pendingFunctors, functors;
      r := RunBatch(functors, calls, r);
      InvStep(r, EndRunning);
      r := Apply(r, EndRunning);
      callingPendingFunctors := false;
    }

    /** The loop of doPendingFunctors. */
    method RunBatch(functors: seq<Functor>, calls: Functor -> seq<Functor>, ghost s: State) returns (ghost r: State)
      requires Shows(s) && Inv(s) && s.phase.Running? && s.calling && !s.loopOwes && s.batch == functors
        && s.pending == []
      modifies this`pendingFunctors, this`ran, this`counter
      ensures Shows(r) && Inv(r) && r.phase.Running? && r.calling && !r.loopOwes && r.batch == [] && r.quit == s.quit
      ensures r.pending == Queued(calls, functors) && r.pushed == s.pushed + r.pending && r.ran == s.ran + functors
      ensures r.pending != [] ==> counter > 0
    {
      hide Inv, Queued;
      r := s;
      QueuedNone(calls, functors);
      for i := 0 to |functors|
        invariant Shows(r) && Inv(r) && r.phase.Running? && r.calling && !r.loopOwes && r.batch == functors[i..]
          && r.quit == s.quit
        invariant r.ran == s.ran + functors[..i] && r.pending == Queued(calls, functors[..i])
        invariant r.pushed == s.pushed + r.pending && (r.pending != [] ==> counter > 0)
      {
        var f := functors[i];
        InvStep(r, RunOne);
        r := Apply(r, RunOne);
        ran := ran + [f];
        r := QueueAll(calls(f), r);
        QueuedStep(calls, functors, i);
      }
      assert functors[..|functors|] == functors;
    }

    /** The functors one callback of a batch queues, each with its wakeup. */
    method QueueAll(cbs: seq<Functor>, ghost s: State) returns (ghost r: State)
      requires Shows(s) && Inv(s) && s.phase.Running? && s.calling && !s.loopOwes
      modifies this`pendingFunctors, this`counter
      ensures Shows(r) && Inv(r) && r == s.(pending := s.pending + cbs, pushed := s.pushed + cbs, counter := r.counter)
      ensures r.counter >= s.counter && (cbs != [] ==> r.counter > 0)
    {
      hide Inv;
      r := s;
      assert s.pending + cbs[..0] == s.pending && s.pushed + cbs[..0] == s.pushed;
      for i := 0 to |cbs|
        invariant Shows(r) && Inv(r) && r.counter >= s.counter && (i > 0 ==> r.counter > 0)
        invariant r == s.(pending := s.pending + cbs[..i], pushed := s.pushed + cbs[..i], counter := r.counter)
      {
        var wake := Enqueue(cbs[i], true, 0, r);
        InvStep(r, LoopPush(cbs[i]));
        r := Apply(r, LoopPush(cbs[i]));
        assert wake;
        Wakeup(LoopWake, r);
        InvStep(r, LoopWake);
        r := Apply(r, LoopWake);
        assert s.pending + cbs[..i] + [cbs[i]] == s.pending + cbs[..i + 1];
        assert s.pushed + cbs[..i] + [cbs[i]] == s.pushed + cbs[..i + 1];
      }
      assert cbs[..|cbs|] == cbs;
    }
  }

  /** What the functors of a batch queue, in the order they run. */
  function Queued(calls: Functor -> seq<Functor>, batch: seq<Functor>): (q: seq<Functor>) {
    if batch == [] then [] else Queued(calls, batch[..|batch| - 1]) + calls(batch[|batch| - 1])
  }

  lemma QueuedNone(calls: Functor -> seq<Functor>, batch: seq<Functor>)
    ensures Queued(calls, batch[..0]) == [] && batch[0..] == batch
  {
  }

  lemma QueuedStep(calls: Functor -> seq<Functor>, batch: seq<Functor>, i: nat)
    requires i < |batch|
    ensures Queued(calls, batch[..i + 1]) == Queued(calls, batch[..i]) + calls(batch[i])
  {
    assert batch[..i + 1][..i] == batch[..i];
  }
}
