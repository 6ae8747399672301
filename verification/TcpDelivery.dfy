/**
 Which sent bytes are dropped (net/TcpConnection.cc), for a peer that never breaks the pipe itself: the kernel answers
 EPIPE or ECONNRESET only after this side called shutdownWrite. Loss is then decided by the order of sends, shutdowns
 and drains alone.
 */
module TcpDelivery {
  import opened Bytes
  import opened TcpConnection

  /** The kernel breaks a pipe only after shutdownWrite. */
  predicate Honest(s: State, step: Step) {
    match step
    case SendNow(_, r) => r == BrokenPipe ==> s.shut
    case RunTask(r) => r == BrokenPipe ==> s.shut
    case _ => true
  }

  predicate HonestRun(s: State, steps: seq<Step>)
    requires IsRun(s, steps)
    decreases |steps|
  {
    steps == [] || (Honest(s, steps[0]) && HonestRun(Apply(s, steps[0]), steps[1..]))
  }

  /**
   A non-empty queued message is run in an open connection whose sending side is already shut; in an orderly run nothing
   waits then.
   */
  predicate MeetsShut(s: State, step: Step) {
    && step.RunTask? && s.queue != [] && s.queue[0].SendTask? && s.queue[0].data != []
    && s.shut && s.status != Disconnected && s.output == []
  }

  predicate NeverMeetsShut(s: State, steps: seq<Step>)
    requires IsRun(s, steps)
    decreases |steps|
  {
    steps == [] || (!MeetsShut(s, steps[0]) && NeverMeetsShut(Apply(s, steps[0]), steps[1..]))
  }

  /** A step drops bytes exactly when it runs a message against the shut side, and then all of that message. */
  lemma LostByStep(s: State, step: Step)
    requires Inv(s) && Enabled(s, step) && Honest(s, step)
    ensures Apply(s, step).lost == s.lost + if MeetsShut(s, step) then |s.queue[0].data| else 0
  {
  }

  lemma {:induction false} LostRun(s: State, steps: seq<Step>)
    requires Inv(s) && IsRun(s, steps) && HonestRun(s, steps)
    ensures After(s, steps).lost >= s.lost && (After(s, steps).lost == s.lost <==> NeverMeetsShut(s, steps))
    decreases |steps|
  {
    hide Inv, Apply, Honest;
    if steps != [] {
      LostByStep(s, steps[0]);
      InvStep(s, steps[0]);
      LostRun(Apply(s, steps[0]), steps[1..]);
    }
  }

  /** Over every run: nothing is dropped if and only if no queued message is run with the sending side already shut. */
  lemma NothingLostIff(steps: seq<Step>)
    requires IsRun(Initial, steps) && HonestRun(Initial, steps)
    ensures After(Initial, steps).lost == 0 <==> NeverMeetsShut(Initial, steps)
  {
    LostRun(Initial, steps);
  }

  // ---- one message -------------------------------------------------------------------------------

  /** The message is the k-th queued functor and no shutdown is queued before it. */
  predicate Ahead(s: State, k: nat, m: bytes) {
    k < |s.queue| && s.queue[k] == SendTask(m) && forall i :: 0 <= i < k ==> s.queue[i] != ShutdownTask
  }

  function TasksRun(steps: seq<Step>): (n: nat) {
    if steps == [] then 0 else (if steps[0].RunTask? then 1 else 0) + TasksRun(steps[1..])
  }

  /**
   The sending side is shut past the queue: handleWrite empties the output of a disconnecting connection, or the loop
   thread itself shuts down a connection with nothing to write.
   */
  predicate Overtakes(s: State, step: Step) {
    match step
    case Writable(r) => s.status == Disconnecting && s.writing && r.Wrote? && 0 < r.n == |s.output|
    case ShutdownNow => s.status == Connected && !s.writing
    case _ => false
  }

  predicate IsOvertaken(s: State, steps: seq<Step>)
    requires IsRun(s, steps)
    decreases |steps|
  {
    steps != [] && (Overtakes(s, steps[0]) || IsOvertaken(Apply(s, steps[0]), steps[1..]))
  }

  /** First in, first out: until the message's turn, only those two steps shut the sending side. */
  lemma AheadStep(s: State, step: Step, k: nat, m: bytes)
    requires Enabled(s, step) && Ahead(s, k, m) && (step.RunTask? ==> k > 0)
    ensures
      var t := Apply(s, step);
      Ahead(t, if step.RunTask? then k - 1 else k, m) && (t.shut <==> s.shut || Overtakes(s, step))
  {
    var t := Apply(s, step);
    if step.RunTask? {
      assert s.queue[0] != ShutdownTask && t.queue == s.queue[1..];
    } else {
      assert |s.queue| <= |t.queue| && forall i :: 0 <= i < |s.queue| ==> t.queue[i] == s.queue[i];
    }
  }

  lemma {:induction false} AheadRun(s: State, steps: seq<Step>, k: nat, m: bytes)
    requires IsRun(s, steps) && Ahead(s, k, m) && TasksRun(steps) == k
    ensures var u := After(s, steps); Ahead(u, 0, m) && (u.shut <==> s.shut || IsOvertaken(s, steps))
    decreases |steps|
  {
    hide Apply, Ahead, Overtakes;
    if steps != [] {
      var step := steps[0];
      AheadStep(s, step, k, m);
      AheadRun(Apply(s, step), steps[1..], if step.RunTask? then k - 1 else k, m);
    }
  }

  /**
   A message queued while no shutdown is queued before it, such as one whose own thread calls shutdown() afterwards,
   and whose turn comes in an open connection: its bytes are dropped if and only if, since it was queued, handleWrite
   emptied the output of the disconnecting connection or the loop thread shut down an idle one. Otherwise they are all
   taken or wait in the output behind what was there.
   */
  lemma QueuedMessageLostIff(s: State, steps: seq<Step>, k: nat, m: bytes, r: WriteResult)
    requires Inv(s) && Tidy(s) && !s.shut && Ahead(s, k, m) && m != []
    requires IsRun(s, steps) && NeverRevives(s, steps) && TasksRun(steps) == k
    requires var u := After(s, steps);
             u.status != Disconnected && Enabled(u, RunTask(r)) && Honest(u, RunTask(r))
    ensures
      var u := After(s, steps);
      var v := Apply(u, RunTask(r));
      if IsOvertaken(s, steps) then v.lost == u.lost + |m| && v.taken + v.output == u.taken + u.output
      else v.lost == u.lost && v.taken + v.output == u.taken + u.output + m
  {
    hide IsRun, After, TasksRun, NeverRevives, IsOvertaken, Inv;
    AheadRun(s, steps, k, m);
    TidyRun(s, steps);
    InvRun(s, steps);
    var u := After(s, steps);
    LostByStep(u, RunTask(r));
    MessageTaken(u, m, r);
  }

  lemma MessageTaken(u: State, m: bytes, r: WriteResult)
    requires Tidy(u) && Ahead(u, 0, m) && m != [] && u.status != Disconnected
    requires Enabled(u, RunTask(r)) && Honest(u, RunTask(r))
    ensures
      var v := Apply(u, RunTask(r));
      v.taken + v.output == u.taken + u.output + if u.shut then [] else m
  {
    var v := Apply(u, RunTask(r));
    if u.writing {
      assert u.taken + (u.output + m) == u.taken + u.output + m;
    } else if r.Wrote? {
      assert m[..r.n] + m[r.n..] == m;
      assert (u.taken + m[..r.n]) + v.output == u.taken + m;
    }
  }

  /**
   The dropping happens: waiting bytes drain after the sender's setState and before its message is run, so handleWrite
   shuts the sending side and the message meets a broken pipe.
   */
  lemma SentBeforeShutdownCanBeLost(t: ThreadId, a: byte, b: byte) returns (steps: seq<Step>)
    ensures
      steps == [Established, SendNow([a], WouldBlock), QueueSend([b]), Test(t, ShutdownCall), SetDisconnecting(t),
                QueueCall(t), Writable(Wrote(1)), RunTask(BrokenPipe)]
    ensures IsRun(Initial, steps) && After(Initial, steps).lost == 1 && After(Initial, steps).taken == [a]
  {
    hide IsRun, After;
    var s4 := Apply(Queued(a, b), Test(t, ShutdownCall));
    var s5 := Apply(s4, SetDisconnecting(t));
    var s6 := Apply(s5, QueueCall(t));
    var s7 := Apply(s6, Writable(Wrote(1)));
    var s8 := Apply(s7, RunTask(BrokenPipe));
    NothingMore(s8);
    steps := Chain(s7, RunTask(BrokenPipe), [], s8);
    steps := Chain(s6, Writable(Wrote(1)), steps, s8);
    steps := Chain(s5, QueueCall(t), steps, s8);
    steps := Chain(s4, SetDisconnecting(t), steps, s8);
    steps := Chain(Queued(a, b), Test(t, ShutdownCall), steps, s8);
    steps := ReachQueued(a, b, steps);
  }

  /** One byte waits in the output, another is queued. */
  function Queued(a: byte, b: byte): (s: State) {
    Initial.(status := Connected, writing := true, output := [a], accepted := [a], queue := [SendTask([b])])
  }

  lemma ReachQueued(a: byte, b: byte, rest: seq<Step>) returns (steps: seq<Step>)
    requires IsRun(Queued(a, b), rest)
    ensures steps == [Established] + ([SendNow([a], WouldBlock)] + ([QueueSend([b])] + rest))
    ensures IsRun(Initial, steps) && After(Initial, steps) == After(Queued(a, b), rest)
  {
    hide IsRun, After;
    var last := After(Queued(a, b), rest);
    var s1 := Apply(Initial, Established);
    var s2 := Apply(s1, SendNow([a], WouldBlock));
    assert Apply(s2, QueueSend([b])) == Queued(a, b);
    steps := Chain(s2, QueueSend([b]), rest, last);
    steps := Chain(s1, SendNow([a], WouldBlock), steps, last);
    steps := Chain(Initial, Established, steps, last);
  }
}
