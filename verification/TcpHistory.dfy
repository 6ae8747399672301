/**
 The state of a connection read off the steps of a run (net/TcpConnection.cc): the functor queue, the count of bytes the
 kernel took, the connection state, and what the three moments of a shutdown() or forceClose() add up to.
 */
module TcpHistory {
  import opened Bytes
  import opened TcpConnection
  import opened TcpDelivery

  // ---- the functor queue -------------------------------------------------------------------------

  /** The functor a step queues. */
  function Pushed(s: State, step: Step): (tasks: seq<Task>) {
    match step
    case QueueSend(data) => [SendTask(data)]
    case QueueCall(t) => if t in s.owed then [if s.owed[t].CloseCall? then CloseTask else ShutdownTask] else []
    case ForceCloseNow => if s.status == Connected || s.status == Disconnecting then [CloseTask] else []
    case _ => []
  }

  function PushedBy(s: State, steps: seq<Step>): (tasks: seq<Task>)
    requires IsRun(s, steps)
    decreases |steps|
  {
    if steps == [] then [] else Pushed(s, steps[0]) + PushedBy(Apply(s, steps[0]), steps[1..])
  }

  lemma QueueStep(s: State, step: Step)
    requires Enabled(s, step)
    ensures
      var t := Apply(s, step);
      if step.RunTask? then s.queue != [] && t.queue == s.queue[1..] && Pushed(s, step) == []
      else t.queue == s.queue + Pushed(s, step)
  {
  }

  /** First in, first out: the queue is what was queued, without the functors run so far. */
  lemma {:induction false} QueueRun(s: State, steps: seq<Step>)
    requires IsRun(s, steps)
    ensures
      var all := s.queue + PushedBy(s, steps);
      TasksRun(steps) <= |all| && After(s, steps).queue == all[TasksRun(steps)..]
    decreases |steps|
  {
    hide Apply, Pushed;
    if steps != [] {
      var step, t := steps[0], Apply(s, steps[0]);
      QueueStep(s, step);
      QueueRun(t, steps[1..]);
      var later := PushedBy(t, steps[1..]);
      assert s.queue + (Pushed(s, step) + later) == s.queue + Pushed(s, step) + later;
      if step.RunTask? {
        assert s.queue + Pushed(s, step) == s.queue;
        assert s.queue == [s.queue[0]] + t.queue;
        assert s.queue + later == [s.queue[0]] + (t.queue + later);
        assert (s.queue + later)[1 + TasksRun(steps[1..])..] == (t.queue + later)[TasksRun(steps[1..])..];
      }
    }
  }

  // ---- what the kernel took ------------------------------------------------------------------------

  /** The bytes the kernel takes in a step: its answer, if it is asked. */
  function TakenIn(s: State, step: Step): (n: nat) {
    match step
    case SendNow(_, r) => if s.status == Connected && s.output == [] && r.Wrote? then r.n else 0
    case RunTask(r) =>
      if s.queue != [] && s.queue[0].SendTask? && s.status != Disconnected && s.output == [] && r.Wrote? then r.n else 0
    case Writable(r) => if s.writing && r.Wrote? then r.n else 0
    case _ => 0
  }

  function TakenBy(s: State, steps: seq<Step>): (n: nat)
    requires IsRun(s, steps)
    decreases |steps|
  {
    if steps == [] then 0 else TakenIn(s, steps[0]) + TakenBy(Apply(s, steps[0]), steps[1..])
  }

  lemma TakenStep(s: State, step: Step)
    requires Inv(s) && Enabled(s, step)
    ensures var t := Apply(s, step); s.taken <= t.taken && |t.taken| == |s.taken| + TakenIn(s, step)
  {
    match step
    case SendNow(data, r) => if s.status == Connected { SendTakes(s, data, r); }
    case RunTask(r) => if s.queue[0].SendTask? { SendTakes(s.(queue := s.queue[1..]), s.queue[0].data, r); }
    case _ =>
    hide SendInLoop;
  }

  lemma SendTakes(s: State, data: bytes, r: WriteResult)
    requires Possible(s, data, r) && (s.writing ==> s.output != [])
    ensures
      var t := SendInLoop(s, data, r);
      && s.taken <= t.taken
      && |t.taken| == |s.taken| + if s.status != Disconnected && s.output == [] && r.Wrote? then r.n else 0
  {
  }

  lemma {:induction false} TakenRun(s: State, steps: seq<Step>)
    requires Inv(s) && IsRun(s, steps)
    ensures s.taken <= After(s, steps).taken && |After(s, steps).taken| == |s.taken| + TakenBy(s, steps)
    decreases |steps|
  {
    hide Inv, Apply, TakenIn;
    if steps != [] {
      InvStep(s, steps[0]);
      TakenStep(s, steps[0]);
      TakenRun(Apply(s, steps[0]), steps[1..]);
    }
  }

  /** Over every run: the socket holds as many bytes as its answers add up to, and they are the first ones kept. */
  lemma TakenIsAnswered(steps: seq<Step>)
    requires IsRun(Initial, steps)
    ensures
      var n := TakenBy(Initial, steps);
      n <= |KeptBy(Initial, steps)| && After(Initial, steps).taken == KeptBy(Initial, steps)[..n]
      && After(Initial, steps).output == KeptBy(Initial, steps)[n..]
  {
    hide Apply, IsRun, After, TakenBy, KeptBy, OfferedBy;
    BytesConserved(steps);
    TakenRun(Initial, steps);
  }

  // ---- the connection state ------------------------------------------------------------------------

  /** The steps that close the connection, those that begin to end it, and those that leave its state alone. */
  lemma StatusStep(s: State, step: Step)
    requires Inv(s) && Enabled(s, step)
    ensures
      var t := Apply(s, step);
      var open := s.status == Connected || s.status == Disconnecting;
      match step
      case Established => t.status == Connected
      case SetDisconnecting(_) => t.status == Disconnecting
      case ShutdownNow => t.status == if s.status == Connected then Disconnecting else s.status
      case ForceCloseNow => t.status == if open then Disconnecting else s.status
      case PeerClosed => t.status == Disconnected && !t.writing
      case Destroyed => t.status == (if s.status == Connected then Disconnected else s.status)
      case RunTask(_) => t.status == if s.queue[0] == CloseTask && open then Disconnected else s.status
      case _ => t.status == s.status
  {
  }

  predicate Establishes(steps: seq<Step>) {
    exists i :: 0 <= i < |steps| && steps[i].Established?
  }

  /** A connection that is no longer connecting, and not connected, is never connected again. */
  lemma {:induction false} NeverConnectedAgain(s: State, steps: seq<Step>)
    requires Inv(s) && IsRun(s, steps) && s.status != Connecting
    ensures After(s, steps).status != Connecting && (s.status != Connected ==> After(s, steps).status != Connected)
    ensures !Establishes(steps)
    decreases |steps|
  {
    hide Inv, Apply;
    if steps != [] {
      InvStep(s, steps[0]);
      StatusStep(s, steps[0]);
      NeverConnectedAgain(Apply(s, steps[0]), steps[1..]);
      if i :| 0 <= i < |steps| && steps[i].Established? {
        if i > 0 { assert steps[1..][i - 1].Established?; }
      }
    }
  }

  /** A closed connection stays closed and takes no more bytes, unless a setState overwrites its state. */
  lemma {:induction false} OnlySetStateReopens(s: State, steps: seq<Step>)
    requires Inv(s) && IsRun(s, steps) && s.status == Disconnected
    requires forall i :: 0 <= i < |steps| ==> !steps[i].SetDisconnecting?
    ensures After(s, steps).status == Disconnected && !After(s, steps).writing && After(s, steps).taken == s.taken
    decreases |steps|
  {
    hide Apply;
    if steps != [] {
      InvStep(s, steps[0]);
      StatusStep(s, steps[0]);
      ClosedTakesNothing(s, steps[0]);
      assert forall i :: 0 <= i < |steps| - 1 ==> steps[1..][i] == steps[i + 1];
      OnlySetStateReopens(Apply(s, steps[0]), steps[1..]);
    }
  }

  lemma ClosedTakesNothing(s: State, step: Step)
    requires Inv(s) && Enabled(s, step) && s.status == Disconnected
    ensures Apply(s, step).taken == s.taken
  {
    TakenStep(s, step);
  }

  // ---- a call of another thread ----------------------------------------------------------------------

  predicate Involves(step: Step, t: ThreadId) {
    step == SetDisconnecting(t) || step == QueueCall(t) || (step.Test? && step.thread == t)
  }

  predicate Apart(steps: seq<Step>, t: ThreadId) {
    forall i :: 0 <= i < |steps| ==> !Involves(steps[i], t)
  }

  lemma {:induction false} ApartKeeps(s: State, steps: seq<Step>, t: ThreadId)
    requires IsRun(s, steps) && Apart(steps, t)
    ensures var u := After(s, steps); (t in u.tested <==> t in s.tested) && (t in u.owed <==> t in s.owed)
    ensures t in s.tested ==> After(s, steps).tested[t] == s.tested[t]
    ensures t in s.owed ==> After(s, steps).owed[t] == s.owed[t]
    decreases |steps|
  {
    hide Apply;
    if steps != [] {
      assert !Involves(steps[0], t);
      ApartStep(s, steps[0], t);
      assert forall i :: 0 <= i < |steps| - 1 ==> steps[1..][i] == steps[i + 1];
      ApartKeeps(Apply(s, steps[0]), steps[1..], t);
    }
  }

  lemma ApartStep(s: State, step: Step, t: ThreadId)
    requires Enabled(s, step) && !Involves(step, t)
    ensures var u := Apply(s, step); (t in u.tested <==> t in s.tested) && (t in u.owed <==> t in s.owed)
    ensures t in s.tested ==> Apply(s, step).tested[t] == s.tested[t]
    ensures t in s.owed ==> Apply(s, step).owed[t] == s.owed[t]
  {
    if step.SendNow? || step.RunTask? || step.Writable? { LoopKeepsCalls(s, step); }
    hide SendInLoop, HandleWrite, Possible;
  }

  lemma LoopKeepsCalls(s: State, step: Step)
    requires Enabled(s, step) && (step.SendNow? || step.RunTask? || step.Writable?)
    ensures Apply(s, step).tested == s.tested && Apply(s, step).owed == s.owed
  {
    match step
    case SendNow(data, r) => SendKeepsCalls(s, data, r);
    case RunTask(r) => if s.queue[0].SendTask? { SendKeepsCalls(s.(queue := s.queue[1..]), s.queue[0].data, r); }
    case _ =>
    hide SendInLoop;
  }

  lemma SendKeepsCalls(s: State, data: bytes, r: WriteResult)
    requires Possible(s, data, r)
    ensures var t := SendInLoop(s, data, r); t.tested == s.tested && t.owed == s.owed
  {
  }

  /**
   shutdown() or forceClose() of another thread, with anything between its three moments: its setState always comes to
   be, always sets Disconnecting, and the functor queued at the end is the one of the call.
   */
  lemma CallGoesThrough(s: State, t: ThreadId, call: Call, a: seq<Step>, b: seq<Step>)
    requires Enabled(s, Test(t, call)) && IsRun(Apply(s, Test(t, call)), a) && Apart(a, t) && Apart(b, t)
    requires
      var s1 := After(Apply(s, Test(t, call)), a);
      Enabled(s1, SetDisconnecting(t)) ==> IsRun(Apply(s1, SetDisconnecting(t)), b)
    ensures
      var s1 := After(Apply(s, Test(t, call)), a);
      && Enabled(s1, SetDisconnecting(t))
      && var s2 := Apply(s1, SetDisconnecting(t));
      && s2.status == Disconnecting && s2.queue == s1.queue && t !in s2.tested
      && var s3 := After(s2, b);
      && Enabled(s3, QueueCall(t))
      && var s4 := Apply(s3, QueueCall(t));
      s4.queue == s3.queue + [if call == CloseCall then CloseTask else ShutdownTask] && t !in s4.owed
  {
    hide IsRun, After;
    var s0 := Apply(s, Test(t, call));
    ApartKeeps(s0, a, t);
    var s1 := After(s0, a);
    assert s1.tested[t] == call;
    var s2 := Apply(s1, SetDisconnecting(t));
    ApartKeeps(s2, b, t);
  }
}
