/**
 The sending side of a connection (net/TcpConnection.cc): direct writes, the output buffer, write interest, shutdown
 and close, under every pattern of partial and failing writes. Results of write(2) are parameters of the steps;
 functors queued to the loop by other threads are a queue. The output buffer is a byte sequence, which is what
 the Buffer of net/Buffer.h refines.
 */
module TcpConnection {
  import opened Bytes

  datatype Status = Connecting | Connected | Disconnecting | Disconnected

  /** Result of write(2): bytes taken, EWOULDBLOCK, EPIPE or ECONNRESET, any other error. */
  datatype WriteResult = Wrote(n: nat) | WouldBlock | BrokenPipe | OtherError

  datatype Task = SendTask(data: bytes) | ShutdownTask | CloseTask

  type ThreadId = nat

  /** What another thread is in the middle of: shutdown() or forceClose(). */
  datatype Call = ShutdownCall | CloseCall

  /**
   `tested` are the other threads between their test of the state and their setState, `owed` those between setState
   and the queueing of their functor: nothing in the source makes the three one step. `taken` are the bytes the socket
   accepted, `accepted` those passed to sendInLoop before disconnection, `lost` counts bytes dropped on a broken pipe.
   `shut` says shutdownWrite was issued, `shutEarly` that it was issued with bytes still in the output buffer.
   */
  datatype State = State(
    status: Status,
    writing: bool,
    output: bytes,
    queue: seq<Task>,
    tested: map<ThreadId, Call>,
    owed: map<ThreadId, Call>,
    taken: bytes,
    accepted: bytes,
    lost: nat,
    shut: bool,
    shutEarly: bool)

  const Initial := State(Connecting, false, [], [], map[], map[], [], [], 0, false, false)

  /** What the kernel may answer to a write of `data`: a closed sending side gives EPIPE. */
  predicate Possible(s: State, data: bytes, r: WriteResult) {
    (r.Wrote? ==> r.n <= |data|) && (s.shut && data != [] ==> r == BrokenPipe)
  }

  // ---- the operations ---------------------------------------------------------------------

  function SendInLoop(s: State, data: bytes, r: WriteResult): (t: State)
    requires Possible(s, data, r)
  {
    if s.status == Disconnected then s
    else if !s.writing && s.output == [] then
      match r
      case Wrote(n) =>
        var u := s.(taken := s.taken + data[..n], accepted := s.accepted + data);
        if n < |data| then u.(output := data[n..], writing := true) else u
      case BrokenPipe => s.(accepted := s.accepted + data, lost := s.lost + |data|)
      case _ => if data == [] then s else s.(accepted := s.accepted + data, output := data, writing := true)
    else if data == [] then s
    else s.(accepted := s.accepted + data, output := s.output + data, writing := true)
  }

  function ShutdownInLoop(s: State): (t: State) {
    if !s.writing then s.(shut := true, shutEarly := s.shutEarly || s.output != []) else s
  }

  function HandleWrite(s: State, r: WriteResult): (t: State)
    requires Possible(s, s.output, r)
  {
    if !s.writing then s
    else if r.Wrote? && r.n > 0 then
      var u := s.(taken := s.taken + s.output[..r.n], output := s.output[r.n..]);
      if u.output == [] then
        var v := u.(writing := false);
        if v.status == Disconnecting then ShutdownInLoop(v) else v
      else u
    else s
  }

  function HandleClose(s: State): (t: State) {
    s.(status := Disconnected, writing := false)
  }

  function ForceCloseInLoop(s: State): (t: State) {
    if s.status == Connected || s.status == Disconnecting then HandleClose(s) else s
  }

  /** The test at the start of shutdown() and of forceClose(). */
  predicate Allows(status: Status, call: Call) {
    status == Connected || (call.CloseCall? && status == Disconnecting)
  }

  function TaskOf(call: Call): (task: Task) {
    if call.ShutdownCall? then ShutdownTask else CloseTask
  }

  datatype Step =
    | Established
    | QueueSend(data: bytes)                          // send() of another thread that saw the connection connected
    | SendNow(data: bytes, result: WriteResult)       // send() on the loop thread
    | Test(thread: ThreadId, call: Call)              // shutdown() or forceClose() of another thread: its test succeeds
    | SetDisconnecting(setter: ThreadId)              // that thread's setState
    | QueueCall(caller: ThreadId)                     // that thread's functor is queued
    | ShutdownNow                                     // shutdown() on the loop thread
    | ForceCloseNow                                   // forceClose() on the loop thread
    | RunTask(taskResult: WriteResult)                // the loop runs the oldest queued functor
    | Writable(writeResult: WriteResult)              // handleWrite
    | PeerClosed                                      // handleClose, or connectDestroyed overtaken by a setState
    | Destroyed                                       // connectDestroyed

  predicate Enabled(s: State, step: Step) {
    match step
    case Established => s.status == Connecting
    case QueueSend(_) => s.status != Connecting
    case SendNow(data, r) => Possible(s, data, r)
    case Test(t, call) => t !in s.tested && t !in s.owed && Allows(s.status, call)
    case SetDisconnecting(t) => t in s.tested
    case QueueCall(t) => t in s.owed
    case ShutdownNow => true
    case ForceCloseNow => true
    case RunTask(r) => s.queue != [] && (s.queue[0].SendTask? ==> Possible(s, s.queue[0].data, r))
    case Writable(r) => Possible(s, s.output, r)
    case PeerClosed => s.status == Connected || s.status == Disconnecting
    case Destroyed => s.status != Connecting
  }

  function Apply(s: State, step: Step): (t: State)
    requires Enabled(s, step)
  {
    match step
    case Established => s.(status := Connected)
    case QueueSend(data) => s.(queue := s.queue + [SendTask(data)])
    case SendNow(data, r) => if s.status == Connected then SendInLoop(s, data, r) else s
    case Test(t, call) => s.(tested := s.tested[t := call])
    case SetDisconnecting(t) =>
      s.(status := Disconnecting, tested := s.tested - {t}, owed := s.owed[t := s.tested[t]])
    case QueueCall(t) => s.(owed := s.owed - {t}, queue := s.queue + [TaskOf(s.owed[t])])
    case ShutdownNow =>
      if s.status == Connected then ShutdownInLoop(s.(status := Disconnecting)) else s
    case ForceCloseNow =>
      if s.status == Connected || s.status == Disconnecting
      then s.(status := Disconnecting, queue := s.queue + [CloseTask]) else s
    case RunTask(r) =>
      var u := s.(queue := s.queue[1..]);
      (match s.queue[0]
       case SendTask(data) => SendInLoop(u, data, r)
       case ShutdownTask => ShutdownInLoop(u)
       case CloseTask => ForceCloseInLoop(u))
    case Writable(r) => HandleWrite(s, r)
    case PeerClosed => HandleClose(s)
    case Destroyed => if s.status == Connected then HandleClose(s) else s
  }

  // ---- what every run keeps ------------------------------------------------------------------

  /**
   Bytes are conserved, write interest means that bytes wait, and whoever wants to end the connection has left
   Connected.
   */
  predicate Inv(s: State) {
    && |s.taken| + |s.output| + s.lost == |s.accepted|
    && (s.lost == 0 ==> s.taken + s.output == s.accepted)
    && (s.writing ==> s.output != [] && s.status != Disconnected)
    && (s.shut || s.owed != map[] || ShutdownTask in s.queue || CloseTask in s.queue ==>
          s.status == Disconnecting || s.status == Disconnected)
    && (s.tested != map[] ==> s.status != Connecting)
    && (s.status == Disconnecting && !s.writing ==>
          s.shut || s.owed != map[] || ShutdownTask in s.queue || CloseTask in s.queue)
  }

  lemma InvSend(s: State, data: bytes, r: WriteResult)
    requires Inv(s) && Possible(s, data, r)
    ensures Inv(SendInLoop(s, data, r))
  {
    if s.status != Disconnected {
      if !s.writing && s.output == [] {
        assert s.taken + [] == s.taken;
        if r.Wrote? {
          assert data[..r.n] + data[r.n..] == data;
          assert (s.taken + data[..r.n]) + data[r.n..] == s.taken + data;
        }
        if data == [] { assert s.accepted + data == s.accepted; }
      } else {
        assert s.taken + (s.output + data) == s.taken + s.output + data;
      }
    }
  }

  lemma InvWrite(s: State, r: WriteResult)
    requires Inv(s) && Possible(s, s.output, r)
    ensures Inv(HandleWrite(s, r))
  {
    if s.writing && r.Wrote? {
      assert (s.taken + s.output[..r.n]) + s.output[r.n..] == s.taken + s.output;
    }
  }

  lemma InvTask(s: State, r: WriteResult)
    requires Inv(s) && Enabled(s, RunTask(r))
    ensures Inv(Apply(s, RunTask(r)))
  {
    var u := s.(queue := s.queue[1..]);
    assert s.queue == [s.queue[0]] + u.queue;
    if s.queue[0].SendTask? { InvSend(u, s.queue[0].data, r); }
  }

  lemma InvStep(s: State, step: Step)
    requires Inv(s) && Enabled(s, step)
    ensures Inv(Apply(s, step))
  {
    match step
    case SendNow(data, r) => if s.status == Connected { InvSend(s, data, r); }
    case RunTask(r) => InvTask(s, r);
    case Writable(r) => InvWrite(s, r);
    case SetDisconnecting(t) => assert t in Apply(s, step).owed;
    case QueueCall(t) =>
      var r := Apply(s, step);
      assert r.queue[|s.queue|] == TaskOf(s.owed[t]) && forall task :: task in s.queue ==> task in r.queue;
    case ForceCloseNow => assert CloseTask in (s.queue + [CloseTask]);
    case _ =>
  }

  // ---- runs ---------------------------------------------------------------------------------

  predicate IsRun(s: State, steps: seq<Step>)
    decreases |steps|
  {
    steps == [] || (Enabled(s, steps[0]) && IsRun(Apply(s, steps[0]), steps[1..]))
  }

  function After(s: State, steps: seq<Step>): (t: State)
    requires IsRun(s, steps)
    decreases |steps|
  {
    if steps == [] then s else After(Apply(s, steps[0]), steps[1..])
  }

  lemma {:induction false} InvRun(s: State, steps: seq<Step>)
    requires Inv(s) && IsRun(s, steps)
    ensures Inv(After(s, steps))
    decreases |steps|
  {
    hide Inv, Apply;
    if steps != [] {
      InvStep(s, steps[0]);
      InvRun(Apply(s, steps[0]), steps[1..]);
    }
  }

  /**
   The bytes a step hands to the connection: send() of the loop thread while connected, a queued send before the
   close.
   */
  function Offered(s: State, step: Step): (data: bytes) {
    match step
    case SendNow(data, _) => if s.status == Connected then data else []
    case RunTask(_) =>
      if s.queue != [] && s.queue[0].SendTask? && s.status != Disconnected then s.queue[0].data else []
    case _ => []
  }

  /** The kernel is asked for these bytes and breaks the pipe. */
  predicate Breaks(s: State, step: Step) {
    match step
    case SendNow(_, r) => r == BrokenPipe && s.output == []
    case RunTask(r) => r == BrokenPipe && s.output == []
    case _ => false
  }

  /** All bytes the steps of a run hand over, in order; and those among them that meet no broken pipe. */
  function OfferedBy(s: State, steps: seq<Step>): (data: bytes)
    requires IsRun(s, steps)
    decreases |steps|
  {
    if steps == [] then [] else Offered(s, steps[0]) + OfferedBy(Apply(s, steps[0]), steps[1..])
  }

  function KeptBy(s: State, steps: seq<Step>): (data: bytes)
    requires IsRun(s, steps)
    decreases |steps|
  {
    if steps == [] then []
    else (if Breaks(s, steps[0]) then [] else Offered(s, steps[0])) + KeptBy(Apply(s, steps[0]), steps[1..])
  }

  /**
   One step: what it hands over goes to the end of what the socket took and what waits, unless the pipe breaks, in which
   case all of it is dropped.
   */
  lemma StepDelivers(s: State, step: Step)
    requires Inv(s) && Enabled(s, step)
    ensures
      var t, data := Apply(s, step), Offered(s, step);
      if Breaks(s, step) then t.taken + t.output == s.taken + s.output && t.lost == s.lost + |data|
      else t.taken + t.output == s.taken + s.output + data && t.lost == s.lost
    ensures Apply(s, step).accepted == s.accepted + Offered(s, step)
  {
    match step
    case SendNow(data, r) => if s.status == Connected { SendDelivers(s, data, r); }
    case RunTask(r) => TaskDelivers(s, r);
    case Writable(r) =>
      if s.writing && r.Wrote? { assert (s.taken + s.output[..r.n]) + s.output[r.n..] == s.taken + s.output; }
    case _ =>
    hide SendInLoop;
  }

  lemma TaskDelivers(s: State, r: WriteResult)
    requires Inv(s) && Enabled(s, RunTask(r))
    ensures
      var step := RunTask(r);
      var t, data := Apply(s, step), Offered(s, step);
      && t.accepted == s.accepted + data
      && if Breaks(s, step) then t.taken + t.output == s.taken + s.output && t.lost == s.lost + |data|
         else t.taken + t.output == s.taken + s.output + data && t.lost == s.lost
  {
    var u := s.(queue := s.queue[1..]);
    if s.queue[0].SendTask? {
      if s.status != Disconnected { SendDelivers(u, s.queue[0].data, r); }
    } else {
      assert s.taken + s.output + [] == s.taken + s.output && s.accepted + [] == s.accepted;
    }
  }

  lemma SendDelivers(s: State, data: bytes, r: WriteResult)
    requires Possible(s, data, r) && s.status != Disconnected && (s.writing ==> s.output != [])
    ensures
      var t := SendInLoop(s, data, r);
      && t.accepted == s.accepted + data
      && if r == BrokenPipe && s.output == [] then t.taken + t.output == s.taken + s.output && t.lost == s.lost + |data|
         else t.taken + t.output == s.taken + s.output + data && t.lost == s.lost
  {
    if s.output == [] {
      assert s.taken + [] == s.taken;
      if r.Wrote? {
        assert data[..r.n] + data[r.n..] == data;
        assert (s.taken + data[..r.n]) + data[r.n..] == s.taken + data;
      }
    } else {
      assert s.taken + (s.output + data) == s.taken + s.output + data;
    }
  }

  lemma {:induction false} RunDelivers(s: State, steps: seq<Step>)
    requires Inv(s) && IsRun(s, steps)
    ensures
      var t := After(s, steps);
      && t.taken + t.output == s.taken + s.output + KeptBy(s, steps)
      && t.accepted == s.accepted + OfferedBy(s, steps)
      && t.lost == s.lost + |OfferedBy(s, steps)| - |KeptBy(s, steps)|
    decreases |steps|
  {
    hide Inv, Apply, Offered, Breaks;
    if steps != [] {
      InvStep(s, steps[0]);
      StepDelivers(s, steps[0]);
      RunDelivers(Apply(s, steps[0]), steps[1..]);
      Regroup(s.taken + s.output, if Breaks(s, steps[0]) then [] else Offered(s, steps[0]),
        KeptBy(Apply(s, steps[0]), steps[1..]));
      Regroup(s.accepted, Offered(s, steps[0]), OfferedBy(Apply(s, steps[0]), steps[1..]));
    } else {
      assert s.accepted + [] == s.accepted;
      assert s.taken + s.output + [] == s.taken + s.output;
    }
  }

  lemma Regroup(a: bytes, b: bytes, c: bytes)
    ensures a + b + c == a + (b + c)
  {
  }

  /**
   Over every run, disconnected or not, whatever overlaps: what the socket took and the output buffer make up, in order,
   the bytes of every step that met an open connection and no broken pipe. They are all bytes handed over exactly when
   none was dropped.
   */
  lemma BytesConserved(steps: seq<Step>)
    requires IsRun(Initial, steps)
    ensures
      var s := After(Initial, steps);
      && s.taken + s.output == KeptBy(Initial, steps)
      && s.lost == |OfferedBy(Initial, steps)| - |KeptBy(Initial, steps)|
      && (s.taken + s.output == OfferedBy(Initial, steps) <==> s.lost == 0)
  {
    InvRun(Initial, steps);
    RunDelivers(Initial, steps);
    var s := After(Initial, steps);
    hide IsRun, After, OfferedBy, KeptBy;
    assert [] + [] + KeptBy(Initial, steps) == KeptBy(Initial, steps);
    assert [] + OfferedBy(Initial, steps) == OfferedBy(Initial, steps);
    assert |s.taken + s.output| == |s.taken| + |s.output|;
  }

  /** send() on the loop thread of a connected connection: nothing of the message is lost unless the pipe breaks. */
  lemma SendNowDelivers(s: State, data: bytes, r: WriteResult)
    requires Inv(s) && s.status == Connected && Enabled(s, SendNow(data, r))
    ensures
      var t := Apply(s, SendNow(data, r));
      && (r != BrokenPipe || s.output != [] ==> t.taken + t.output == s.taken + s.output + data)
      && s.taken <= t.taken && (s.output != [] ==> t.taken == s.taken && t.output == s.output + data)
  {
    StepDelivers(s, SendNow(data, r));
  }

  /**
   Over every run: once a connection is disconnecting, with the output drained, no caller between setState and its
   functor and the queued functors run, the sending side is shut. The duty passes from the caller to the queue to
   handleWrite and is never dropped, also by a setState that revives a closed connection.
   */
  lemma ShutdownNotForgotten(steps: seq<Step>)
    requires IsRun(Initial, steps)
    requires
      var s := After(Initial, steps);
      s.status == Disconnecting && s.output == [] && s.owed == map[] && s.queue == []
    ensures After(Initial, steps).shut
  {
    InvRun(Initial, steps);
  }

  // ---- write interest and shutdown of an open connection ---------------------------------------

  /** While not disconnected: write interest exactly when bytes wait, and shutdownWrite never with bytes waiting. */
  predicate Orderly(s: State) {
    s.status != Disconnected ==> (s.writing <==> s.output != []) && !s.shutEarly
  }

  /** A setState that overwrites Disconnected while bytes are left in the output buffer. */
  predicate Revives(s: State, step: Step) {
    step.SetDisconnecting? && s.status == Disconnected && s.output != []
  }

  predicate AlwaysOrderly(s: State, steps: seq<Step>)
    requires IsRun(s, steps)
    decreases |steps|
  {
    Orderly(s) && (steps == [] || AlwaysOrderly(Apply(s, steps[0]), steps[1..]))
  }

  predicate NeverRevives(s: State, steps: seq<Step>)
    requires IsRun(s, steps)
    decreases |steps|
  {
    steps == [] || (!Revives(s, steps[0]) && NeverRevives(Apply(s, steps[0]), steps[1..]))
  }

  /** What keeps a run orderly: an early shutdown is possible only in a closed connection, where the bytes stay. */
  predicate Tidy(s: State) {
    && Orderly(s)
    && (s.shutEarly ==> s.status == Disconnected && s.output != [])
    && (s.shut && s.status != Disconnected ==> s.output == [])
  }

  lemma TidyStep(s: State, step: Step)
    requires Inv(s) && Tidy(s) && Enabled(s, step)
    ensures if Revives(s, step) then !Orderly(Apply(s, step)) else Tidy(Apply(s, step))
  {
  }

  lemma {:induction false} TidyRun(s: State, steps: seq<Step>)
    requires Inv(s) && Tidy(s) && IsRun(s, steps)
    ensures AlwaysOrderly(s, steps) <==> NeverRevives(s, steps)
    ensures NeverRevives(s, steps) ==> Tidy(After(s, steps))
    decreases |steps|
  {
    hide Inv, Apply, Revives;
    if steps != [] {
      TidyStep(s, steps[0]);
      InvStep(s, steps[0]);
      if !Revives(s, steps[0]) { TidyRun(Apply(s, steps[0]), steps[1..]); }
    }
  }

  /**
   In an orderly state, shutdownWrite is issued with bytes waiting exactly when a queued shutdown is run in a closed
   connection that still holds bytes.
   */
  lemma EarlyShutdownIff(s: State, step: Step)
    requires Inv(s) && Tidy(s) && !s.shutEarly && Enabled(s, step)
    ensures
      Apply(s, step).shutEarly <==>
      step.RunTask? && s.queue[0] == ShutdownTask && s.status == Disconnected && s.output != []
  {
  }

  /** A run is orderly at every point if and only if no setState revives a closed connection with bytes left. */
  lemma OrderlyIff(steps: seq<Step>)
    requires IsRun(Initial, steps)
    ensures AlwaysOrderly(Initial, steps) <==> NeverRevives(Initial, steps)
  {
    TidyRun(Initial, steps);
  }

  // ---- callers that overlap a close ------------------------------------------------------------

  /** The step closes the connection: handleClose or connectDestroyed. */
  predicate Closes(s: State, step: Step)
    requires Enabled(s, step)
  {
    s.status != Disconnected && Apply(s, step).status == Disconnected
  }

  /** No shutdown() or forceClose() is between its test and its setState when the connection is closed. */
  predicate NeverOverlaps(s: State, steps: seq<Step>)
    requires IsRun(s, steps)
    decreases |steps|
  {
    steps == [] ||
    ((Closes(s, steps[0]) ==> s.tested == map[]) && NeverOverlaps(Apply(s, steps[0]), steps[1..]))
  }

  lemma ClosedStep(s: State, step: Step)
    requires Enabled(s, step) && (s.status == Disconnected ==> s.tested == map[])
    requires Closes(s, step) ==> s.tested == map[]
    ensures !Revives(s, step)
    ensures var t := Apply(s, step); t.status == Disconnected ==> t.tested == map[]
  {
  }

  lemma {:induction false} OverlapIsNeeded(s: State, steps: seq<Step>)
    requires IsRun(s, steps) && (s.status == Disconnected ==> s.tested == map[]) && NeverOverlaps(s, steps)
    ensures NeverRevives(s, steps)
    decreases |steps|
  {
    hide Apply, Revives;
    if steps != [] {
      ClosedStep(s, steps[0]);
      OverlapIsNeeded(Apply(s, steps[0]), steps[1..]);
    }
  }

  /**
   Over every run in which no shutdown() or forceClose() of another thread overlaps a close, while not disconnected:
   bytes taken and waiting are those handed over, in order, exactly when nothing was dropped; write interest is on
   exactly when bytes wait; shutdownWrite was never issued with bytes waiting.
   */
  lemma OutputConserved(steps: seq<Step>)
    requires IsRun(Initial, steps) && NeverOverlaps(Initial, steps) && After(Initial, steps).status != Disconnected
    ensures
      var s := After(Initial, steps);
      && (s.taken + s.output == OfferedBy(Initial, steps) <==> s.lost == 0)
      && (s.writing <==> s.output != [])
      && !s.shutEarly
  {
    BytesConserved(steps);
    OverlapIsNeeded(Initial, steps);
    TidyRun(Initial, steps);
  }

  /**
   The converse: when a close overlaps a caller, its setState follows in some run, and that run stays orderly if and
   only if the close left no bytes behind.
   */
  lemma OverlapBreaksIff(s: State, close: Step, t: ThreadId)
    requires Inv(s) && Tidy(s) && Enabled(s, close) && Closes(s, close) && t in s.tested
    ensures
      var closed := Apply(s, close);
      Enabled(closed, SetDisconnecting(t)) && (Orderly(Apply(closed, SetDisconnecting(t))) <==> s.output == [])
  {
  }

  // ---- runs that show the conditions are needed --------------------------------------------------

  lemma NothingMore(s: State)
    ensures IsRun(s, []) && After(s, []) == s
  {
  }

  lemma Chain(s: State, step: Step, rest: seq<Step>, last: State) returns (steps: seq<Step>)
    requires Enabled(s, step) && IsRun(Apply(s, step), rest) && After(Apply(s, step), rest) == last
    ensures steps == [step] + rest && IsRun(s, steps) && After(s, steps) == last
  {
    hide Apply;
    steps := [step] + rest;
    assert steps[1..] == rest;
  }

  /** A connected connection with one byte waiting, and another thread's shutdown() past its test. */
  function Waiting(t: ThreadId, b: byte): (s: State) {
    Initial.(status := Connected, writing := true, output := [b], accepted := [b], tested := map[t := ShutdownCall])
  }

  lemma ReachWaiting(t: ThreadId, b: byte, rest: seq<Step>) returns (steps: seq<Step>)
    requires IsRun(Waiting(t, b), rest)
    ensures steps == [Established] + ([SendNow([b], WouldBlock)] + ([Test(t, ShutdownCall)] + rest))
    ensures IsRun(Initial, steps) && After(Initial, steps) == After(Waiting(t, b), rest)
  {
    hide IsRun, After;
    var last := After(Waiting(t, b), rest);
    var s1 := Apply(Initial, Established);
    var s2 := Apply(s1, SendNow([b], WouldBlock));
    assert Apply(s2, Test(t, ShutdownCall)) == Waiting(t, b);
    steps := Chain(s2, Test(t, ShutdownCall), rest, last);
    steps := Chain(s1, SendNow([b], WouldBlock), steps, last);
    steps := Chain(Initial, Established, steps, last);
  }

  /** A shutdown() that overlaps the close revives the connection and is issued with a byte waiting. */
  lemma OverlappingShutdownIsEarly(t: ThreadId, b: byte) returns (steps: seq<Step>)
    ensures
      steps == [Established, SendNow([b], WouldBlock), Test(t, ShutdownCall), PeerClosed, SetDisconnecting(t),
                QueueCall(t), RunTask(WouldBlock)]
    ensures IsRun(Initial, steps)
    ensures var s := After(Initial, steps); s.status == Disconnecting && s.shutEarly && s.output == [b]
  {
    hide IsRun, After;
    var s4 := Apply(Waiting(t, b), PeerClosed);
    var s5 := Apply(s4, SetDisconnecting(t));
    var s6 := Apply(s5, QueueCall(t));
    var s7 := Apply(s6, RunTask(WouldBlock));
    NothingMore(s7);
    steps := Chain(s6, RunTask(WouldBlock), [], s7);
    steps := Chain(s5, QueueCall(t), steps, s7);
    steps := Chain(s4, SetDisconnecting(t), steps, s7);
    steps := Chain(Waiting(t, b), PeerClosed, steps, s7);
    steps := ReachWaiting(t, b, steps);
  }

  /** Once disconnected, a queued shutdown can be issued with bytes waiting: the condition of the result is needed. */
  lemma ShutdownAfterCloseIsEarly(t: ThreadId, b: byte) returns (steps: seq<Step>)
    ensures
      steps == [Established, SendNow([b], WouldBlock), Test(t, ShutdownCall), SetDisconnecting(t), QueueCall(t),
                PeerClosed, RunTask(WouldBlock)]
    ensures IsRun(Initial, steps) && After(Initial, steps).shutEarly && After(Initial, steps).status == Disconnected
  {
    hide IsRun, After;
    var s4 := Apply(Waiting(t, b), SetDisconnecting(t));
    var s5 := Apply(s4, QueueCall(t));
    var s6 := Apply(s5, PeerClosed);
    var s7 := Apply(s6, RunTask(WouldBlock));
    NothingMore(s7);
    steps := Chain(s6, RunTask(WouldBlock), [], s7);
    steps := Chain(s5, PeerClosed, steps, s7);
    steps := Chain(s4, QueueCall(t), steps, s7);
    steps := Chain(Waiting(t, b), SetDisconnecting(t), steps, s7);
    steps := ReachWaiting(t, b, steps);
  }

  /** Bytes are dropped only by a send that meets EPIPE or ECONNRESET with nothing waiting. */
  lemma LostOnlyOnBrokenPipe(s: State, step: Step)
    requires Enabled(s, step) && Apply(s, step).lost != s.lost
    ensures
      && s.output == [] && !s.writing
      && match step
         case SendNow(_, r) => r == BrokenPipe
         case RunTask(r) => s.queue[0].SendTask? && r == BrokenPipe
         case _ => false
  {
  }

  // ---- the connection object -----------------------------------------------------------------

  class Connection {
    var status: Status
    var writing: bool
    var output: bytes
    var shut: bool

    constructor ()
      ensures Shows(Initial)
    {
      status, writing, output, shut := Connecting, false, [], false;
    }

    /** The fields the object keeps, with the history left out. */
    ghost predicate Shows(s: State)
      reads this
    {
      s.status == status && s.writing == writing && s.output == output && s.shut == shut
    }

    /** sendInLoop, with the answer the kernel gives if it is asked */
    method Send(data: bytes, answer: WriteResult, ghost s: State)
      requires Shows(s) && Possible(s, data, answer)
      modifies this`writing, this`output
      ensures Shows(SendInLoop(s, data, answer))
    {
      var nwrote, remaining, faultError := 0, |data|, false;
      if status == Disconnected {
        return;
      }
      if !writing && output == [] {
        if answer.Wrote? {
          nwrote := answer.n;
          remaining := |data| - nwrote;
        } else if answer == BrokenPipe {
          faultError := true;
        }
      }
      if !faultError && remaining > 0 {
        output := output + data[nwrote..];
        if !writing {
          writing := true;
        }
      }
    }

    method ShutdownWhenDrained(ghost s: State)
      requires Shows(s)
      modifies this`shut
      ensures Shows(ShutdownInLoop(s))
    {
      if !writing {
        shut := true;
      }
    }

    /** handleWrite */
    method Drain(answer: WriteResult, ghost s: State)
      requires Shows(s) && Possible(s, s.output, answer)
      modifies this
      ensures Shows(HandleWrite(s, answer))
    {
      if writing {
        if answer.Wrote? && answer.n > 0 {
          ghost var u := s.(taken := s.taken + s.output[..answer.n], output := s.output[answer.n..]);
          output := output[answer.n..];
          if output == [] {
            writing := false;
            if status == Disconnecting {
              ShutdownWhenDrained(u.(writing := false));
            }
          }
        }
      }
    }

    /** shutdown on the loop thread */
    method Shutdown(ghost s: State)
      requires Shows(s)
      modifies this
      ensures Shows(Apply(s, ShutdownNow))
    {
      if status == Connected {
        status := Disconnecting;
        ShutdownWhenDrained(s.(status := Disconnecting));
      }
    }

    /** handleClose; its assertion on the state is what the caller must know */
    method Close(ghost s: State)
      requires Shows(s) && (status == Connected || status == Disconnecting)
      modifies this`status, this`writing
      ensures Shows(HandleClose(s))
    {
      status := Disconnected;
      writing := false;
    }

    method ForceCloseTask(ghost s: State)
      requires Shows(s)
      modifies this`status, this`writing
      ensures Shows(ForceCloseInLoop(s))
    {
      if status == Connected || status == Disconnecting {
        Close(s);
      }
    }
  }
}
