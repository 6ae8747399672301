/**
 One batch of expired timers with everything its callbacks do (net/TimerQueue.cc, handleRead, reset): which callbacks
 run, what becomes of the timers they add, of the timers of the batch, and of the alarm.
 */
module TimerBatch {
  import opened Bytes
  import opened TimerQueue

  /** What a callback does to the queue: cancel an id, or create a timer, where the allocator puts it, and add it. */
  datatype Request = CancelRequest(id: Id) | AddRequest(ptr: Pointer, when: Timestamp, delta: nat, repeat: bool)

  /** Ids not handed out yet and pointers in use are requests nobody can make. */
  predicate CanAsk(s: State, request: Request) {
    match request
    case CancelRequest(id) => id.sequence <= s.created
    case AddRequest(p, _, _, _) => p !in s.live && p < SENTRY_POINTER
  }

  ghost function Served(s: State, request: Request): (r: State) {
    if !CanAsk(s, request) then s
    else match request
      case CancelRequest(id) => CancelInLoop(s, id)
      case AddRequest(p, when, delta, repeat) => AddInLoop(Apply(s, Create(p, when, delta, repeat)), p)
  }

  /** The requests of one callback, one after the other. */
  ghost function ServedAll(s: State, requests: seq<Request>): (r: State)
    decreases |requests|
  {
    if requests == [] then s else ServedAll(Served(s, requests[0]), requests[1..])
  }

  /** The next callback starts. */
  ghost function Started(s: State): (r: State) {
    if Enabled(s, RunNext) then Apply(s, RunNext) else s
  }

  /** The callbacks from the i-th up to the n-th, each with its requests. */
  ghost function Called(s: State, callbacks: nat -> seq<Request>, i: nat, n: nat): (r: State)
    decreases n - i
  {
    if i >= n then s else Called(ServedAll(Started(s), callbacks(i)), callbacks, i + 1, n)
  }

  ghost function Finished(s: State): (r: State) {
    Rearm(ResetAll(s.(calling := false, batch := [], next := 0), s.batch))
  }

  /** handleRead: the batch begins, its callbacks run, the batch is reset. */
  ghost function BatchResult(s: State, now: Timestamp, fired: seq<Entry>, callbacks: nat -> seq<Request>): (r: State)
    requires Enabled(s, Fire(now, fired))
  {
    Finished(Called(Begin(s, now, fired), callbacks, 0, |fired|))
  }

  predicate SameBatch(s: State, r: State) {
    r.calling == s.calling && r.batch == s.batch && r.next == s.next && r.now == s.now
  }

  lemma ServedInv(s: State, request: Request)
    requires Inv(s)
    ensures var r := Served(s, request); Inv(r) && SameBatch(s, r)
  {
    hide Inv, AddInLoop, CancelInLoop;
    if CanAsk(s, request) {
      match request
      case CancelRequest(id) =>
        InvCancel(s, id);
        CancelKeepsBatch(s, id);
      case AddRequest(p, when, delta, repeat) =>
        InvStep(s, Create(p, when, delta, repeat));
        var t := Apply(s, Create(p, when, delta, repeat));
        InvAdd(t, p);
        AddKeepsBatch(t, p);
    }
  }

  lemma CancelKeepsBatch(s: State, id: Id)
    ensures SameBatch(s, CancelInLoop(s, id))
  {
  }

  lemma AddKeepsBatch(s: State, p: Pointer)
    ensures SameBatch(s, AddInLoop(s, p))
  {
  }

  lemma {:induction false} ServedAllInv(s: State, requests: seq<Request>)
    requires Inv(s)
    ensures var r := ServedAll(s, requests); Inv(r) && SameBatch(s, r)
    decreases |requests|
  {
    hide Inv, Served;
    if requests != [] {
      ServedInv(s, requests[0]);
      ServedAllInv(Served(s, requests[0]), requests[1..]);
    }
  }

  /** One round of the loop over the callbacks. */
  lemma RoundInv(s: State, requests: seq<Request>)
    requires Inv(s) && Enabled(s, RunNext)
    ensures
      var r := ServedAll(Started(s), requests);
      Inv(r) && r.calling && r.batch == s.batch && r.next == s.next + 1 && r.now == s.now
  {
    InvRunNext(s);
    NotBroken(Apply(s, RunNext));
    hide Inv;
    ServedAllInv(Started(s), requests);
  }

  lemma NotBroken(s: State)
    requires Inv(s)
    ensures !s.broken && (!s.calling ==> s.batch == []) && (s.calling ==> ValidTime(s.now))
  {
  }

  lemma {:induction false} CalledInv(s: State, callbacks: nat -> seq<Request>, i: nat, n: nat)
    requires Inv(s) && s.calling && s.next == i <= n == |s.batch|
    ensures
      var r := Called(s, callbacks, i, n);
      Inv(r) && r.calling && r.batch == s.batch && r.next == n && r.now == s.now && Enabled(r, Finish)
    decreases n - i
  {
    hide Inv, Served, ServedAll, Started;
    if i < n {
      RoundInv(s, callbacks(i));
      CalledInv(ServedAll(Started(s), callbacks(i)), callbacks, i + 1, n);
    }
  }

  // ---- a timer that waits -------------------------------------------------------------------------

  /** The timer is there and waits in both indexes. */
  ghost predicate Waits(s: State, p: Pointer, t: Timer) {
    && p in s.live && s.live[p] == t
    && Entry(t.expiration, p) in s.timers && Id(p, t.sequence) in s.active
  }

  lemma AddedWaits(s: State, request: Request)
    requires Inv(s) && request.AddRequest? && CanAsk(s, request)
    ensures
      Waits(Served(s, request), request.ptr, Timer(s.created + 1, request.when, request.delta, request.repeat))
  {
    var p := request.ptr;
    var step := Create(p, request.when, request.delta, request.repeat);
    InvStep(s, step);
    var t := Apply(s, step);
    WaitsAdded(t, p);
    hide Inv, AddInLoop;
  }

  lemma WaitsAdded(t: State, p: Pointer)
    requires Inv(t) && p in t.loose
    ensures p in t.live && Waits(AddInLoop(t, p), p, t.live[p])
  {
    InsertWaits(t, p, t.batch);
  }

  lemma ServedKeepsWaiting(s: State, request: Request, p: Pointer, t: Timer)
    requires Inv(s) && Waits(s, p, t) && request != CancelRequest(Id(p, t.sequence))
    ensures Waits(Served(s, request), p, t)
  {
    if CanAsk(s, request) {
      match request
      case CancelRequest(id) =>
        if id in s.active { CancelOther(s, id, p, t); }
      case AddRequest(q, when, delta, repeat) =>
        var step := Create(q, when, delta, repeat);
        InvStep(s, step);
        AddOther(Apply(s, step), q, p, t);
    }
  }

  lemma CancelOther(s: State, id: Id, p: Pointer, t: Timer)
    requires Inv(s) && Waits(s, p, t) && id in s.active && id != Id(p, t.sequence)
    ensures Waits(CancelInLoop(s, id), p, t)
  {
    CancelActiveFields(s, id);
  }

  lemma AddOther(s: State, q: Pointer, p: Pointer, t: Timer)
    requires Inv(s) && q in s.loose && Waits(s, p, t)
    ensures Waits(AddInLoop(s, q), p, t)
  {
    InsertWaits(s, q, s.batch);
  }

  predicate NoneCancels(requests: seq<Request>, id: Id) {
    forall i :: 0 <= i < |requests| ==> requests[i] != CancelRequest(id)
  }

  lemma {:induction false} ServedAllKeepsWaiting(s: State, requests: seq<Request>, p: Pointer, t: Timer)
    requires Inv(s) && Waits(s, p, t) && NoneCancels(requests, Id(p, t.sequence))
    ensures Waits(ServedAll(s, requests), p, t)
    decreases |requests|
  {
    hide Inv, Served, Waits;
    if requests != [] {
      assert requests[0] != CancelRequest(Id(p, t.sequence));
      ServedInv(s, requests[0]);
      ServedKeepsWaiting(s, requests[0], p, t);
      assert forall i :: 0 <= i < |requests| - 1 ==> requests[1..][i] == requests[i + 1];
      ServedAllKeepsWaiting(Served(s, requests[0]), requests[1..], p, t);
    }
  }

  lemma {:induction false} CalledKeepsWaiting(
    s: State, callbacks: nat -> seq<Request>, i: nat, n: nat, p: Pointer, t: Timer)
    requires Inv(s) && s.calling && s.next == i <= n == |s.batch| && Waits(s, p, t)
    requires forall j :: i <= j < n ==> NoneCancels(callbacks(j), Id(p, t.sequence))
    ensures Waits(Called(s, callbacks, i, n), p, t)
    decreases n - i
  {
    hide Inv, Served, ServedAll;
    if i < n {
      InvRunNext(s);
      NotBroken(Apply(s, RunNext));
      RoundInv(s, callbacks(i));
      assert NoneCancels(callbacks(i), Id(p, t.sequence));
      ServedAllKeepsWaiting(Started(s), callbacks(i), p, t);
      CalledKeepsWaiting(ServedAll(Started(s), callbacks(i)), callbacks, i + 1, n, p, t);
    }
  }

  // ---- the end of a batch ---------------------------------------------------------------------------

  /**
   reset: a repeating timer of the batch that was not cancelled waits again at the time of the batch plus its interval;
   every other timer of the batch is deleted; all other timers stay as they are.
   */
  lemma FinishRestarts(s: State, p: Pointer)
    requires Inv(s) && s.calling && s.next >= |s.batch| && p in s.live
    ensures
      var r, t := Finished(s), s.live[p];
      if p !in Pointers(s.batch) then p in r.live && r.live[p] == t && (Waits(s, p, t) ==> Waits(r, p, t))
      else if t.repeat && Id(p, t.sequence) !in s.cancelling
      then Waits(r, p, Timer(t.sequence, s.now + t.delta, t.delta, true))
      else p !in r.live
  {
    hide Inv, Rearm, ResetAll;
    InvFinish(s);
    FinishedFields(s);
    var r := Finished(s);
    assert r == Apply(s, Finish);
    if p in r.live { IndexedAgain(s, p, r); }
  }

  lemma FinishedFields(s: State)
    requires Inv(s) && s.calling
    ensures !Finished(s).calling && Finished(s).loose == s.loose
  {
    var s0 := s.(calling := false, batch := [], next := 0);
    ResetStarts(s);
    ResetAllInv(s0, s.batch);
    hide ResetAll;
    RearmIs(ResetAll(s0, s.batch));
  }

  /** What is live outside a batch and not loose waits in both indexes. */
  lemma IndexedAgain(s: State, p: Pointer, r: State)
    requires Inv(s) && Inv(r) && !r.calling && p in r.live && p in s.live && r.loose == s.loose
    ensures p !in s.loose ==> Waits(r, p, r.live[p])
    ensures p in Pointers(s.batch) || Waits(s, p, s.live[p]) ==> p !in s.loose
  {
    if Waits(s, p, s.live[p]) { WaitingHas(s, Entry(s.live[p].expiration, p)); }
    if p !in s.loose {
      assert p in Waiting(r) by { assert Pointers(r.batch) == {}; }
      RemoveWaiting(r, p);
    }
  }

  // ---- whole batches ----------------------------------------------------------------------------------

  lemma {:induction false} CalledSplit(s: State, callbacks: nat -> seq<Request>, i: nat, k: nat, n: nat)
    requires i <= k <= n
    ensures Called(s, callbacks, i, n) == Called(Called(s, callbacks, i, k), callbacks, k, n)
    decreases k - i
  {
    hide ServedAll, Started;
    if i < k { CalledSplit(ServedAll(Started(s), callbacks(i)), callbacks, i + 1, k, n); }
  }

  lemma {:induction false} ServedSplit(s: State, requests: seq<Request>, k: nat)
    requires k <= |requests|
    ensures ServedAll(s, requests) == ServedAll(ServedAll(s, requests[..k]), requests[k..])
    decreases k
  {
    hide Served;
    if k == 0 {
      assert requests[..k] == [] && requests[k..] == requests;
    } else {
      ServedSplit(Served(s, requests[0]), requests[1..], k - 1);
      assert requests[..k][0] == requests[0] && requests[..k][1..] == requests[1..][..k - 1];
      assert requests[1..][k - 1..] == requests[k..];
    }
  }

  /** The state in which the k-th request of the i-th callback is made. */
  ghost function Asked(s: State, callbacks: nat -> seq<Request>, i: nat, k: nat): (r: State)
    requires k <= |callbacks(i)|
  {
    ServedAll(Started(Called(s, callbacks, 0, i)), callbacks(i)[..k])
  }

  /** A callback, up to the k-th of its requests. */
  lemma AskedInv(s: State, callbacks: nat -> seq<Request>, i: nat, k: nat)
    requires Inv(s) && s.calling && s.next == 0 && i < |s.batch| && k <= |callbacks(i)|
    ensures
      var r := Asked(s, callbacks, i, k);
      Inv(r) && r.calling && r.batch == s.batch && r.next == i + 1 && r.now == s.now
    ensures
      Called(s, callbacks, 0, |s.batch|)
      == Called(ServedAll(Asked(s, callbacks, i, k), callbacks(i)[k..]), callbacks, i + 1, |s.batch|)
  {
    hide Inv, Served, ServedAll, Started;
    CalledUpTo(s, callbacks, 0, i);
    var u := Called(s, callbacks, 0, i);
    RoundInv(u, callbacks(i)[..k]);
    CalledSplit(s, callbacks, 0, i, |s.batch|);
    ServedSplit(Started(u), callbacks(i), k);
  }

  lemma {:induction false} CalledUpTo(s: State, callbacks: nat -> seq<Request>, i: nat, k: nat)
    requires Inv(s) && s.calling && s.next == i <= k <= |s.batch|
    ensures
      var r := Called(s, callbacks, i, k);
      Inv(r) && r.calling && r.batch == s.batch && r.next == k && r.now == s.now
    decreases k - i
  {
    hide Inv, Served, ServedAll, Started;
    if i < k {
      RoundInv(s, callbacks(i));
      CalledUpTo(ServedAll(Started(s), callbacks(i)), callbacks, i + 1, k);
    }
  }

  /**
   A timer that waits when a callback has made a request, and that no later request of the batch cancels, waits after.
   */
  lemma WaitsToTheEnd(s: State, callbacks: nat -> seq<Request>, i: nat, k: nat, p: Pointer, t: Timer)
    requires Inv(s) && s.calling && s.next == 0 && i < |s.batch| && k <= |callbacks(i)|
    requires Waits(Asked(s, callbacks, i, k), p, t)
    requires NoneCancels(callbacks(i)[k..], Id(p, t.sequence))
    requires forall j :: i < j < |s.batch| ==> NoneCancels(callbacks(j), Id(p, t.sequence))
    ensures Waits(Finished(Called(s, callbacks, 0, |s.batch|)), p, t)
  {
    hide Inv, Served, ServedAll, Finished, NoneCancels, Called, Asked;
    AskedInv(s, callbacks, i, k);
    var a := Asked(s, callbacks, i, k);
    ServedAllKeepsWaiting(a, callbacks(i)[k..], p, t);
    ServedAllInv(a, callbacks(i)[k..]);
    var b := ServedAll(a, callbacks(i)[k..]);
    CalledKeepsWaiting(b, callbacks, i + 1, |s.batch|, p, t);
    CalledInv(b, callbacks, i + 1, |s.batch|);
    var c := Called(s, callbacks, 0, |s.batch|);
    WaiterNotInBatch(c, p, t);
    FinishRestarts(c, p);
  }

  lemma WaiterNotInBatch(s: State, p: Pointer, t: Timer)
    requires Inv(s) && Waits(s, p, t)
    ensures p !in Pointers(s.batch)
  {
    WaitingHas(s, Entry(t.expiration, p));
  }

  /**
   A timer that a callback of a batch adds, and that no later request of the batch cancels, waits when handleRead is
   over, with its expiration, its interval and a number of its own, and an alarm set no later than it.
   */
  lemma AddedInBatchWaits(
    s: State, now: Timestamp, fired: seq<Entry>, callbacks: nat -> seq<Request>, i: nat, k: nat, request: Request)
    requires Inv(s) && Enabled(s, Fire(now, fired)) && i < |fired| && k < |callbacks(i)|
    requires request == callbacks(i)[k] && request.AddRequest?
    requires CanAsk(Asked(Begin(s, now, fired), callbacks, i, k), request)
    requires
      var id := Id(request.ptr, Asked(Begin(s, now, fired), callbacks, i, k).created + 1);
      && NoneCancels(callbacks(i)[k + 1..], id) && forall j :: i < j < |fired| ==> NoneCancels(callbacks(j), id)
    ensures
      var n, r := Asked(Begin(s, now, fired), callbacks, i, k).created + 1, BatchResult(s, now, fired, callbacks);
      && Waits(r, request.ptr, Timer(n, request.when, request.delta, request.repeat))
      && r.alarm.Some? && r.alarm.value <= request.when
  {
    hide Inv, Served, ServedAll, Finished, NoneCancels, Called, Asked, Begin, CanAsk, Waits;
    InvFire(s, now, fired);
    var b := Begin(s, now, fired);
    BatchIs(s, now, fired);
    AskedInv(b, callbacks, i, k);
    var a := Asked(b, callbacks, i, k);
    AddedWaits(a, request);
    AskedNext(b, callbacks, i, k);
    var t := Timer(a.created + 1, request.when, request.delta, request.repeat);
    WaitsToTheEnd(b, callbacks, i, k + 1, request.ptr, t);
    CalledInv(b, callbacks, 0, |fired|);
    FinishedInv(Called(b, callbacks, 0, |fired|));
    AlarmCovers(Finished(Called(b, callbacks, 0, |fired|)), request.ptr, t);
  }

  lemma BatchIs(s: State, now: Timestamp, fired: seq<Entry>)
    requires Inv(s) && Enabled(s, Fire(now, fired)) && Inv(Begin(s, now, fired))
    ensures var b := Begin(s, now, fired); b.calling && b.batch == fired && b.next == 0 && b.now == now
  {
  }

  lemma FinishedInv(s: State)
    requires Inv(s) && Enabled(s, Finish)
    ensures Inv(Finished(s)) && !Finished(s).calling && Finished(s) == Apply(s, Finish)
  {
    hide Inv, Rearm, ResetAll, ResetResult;
    InvFinish(s);
    FinishedFields(s);
  }

  lemma AlarmCovers(s: State, p: Pointer, t: Timer)
    requires Inv(s) && !s.calling && Waits(s, p, t)
    ensures s.alarm.Some? && s.alarm.value <= t.expiration
  {
    assert Entry(t.expiration, p) in s.timers;
  }

  lemma AskedNext(s: State, callbacks: nat -> seq<Request>, i: nat, k: nat)
    requires k < |callbacks(i)|
    ensures Asked(s, callbacks, i, k + 1) == Served(Asked(s, callbacks, i, k), callbacks(i)[k])
  {
    hide Served, Started, Called;
    var u, requests := Started(Called(s, callbacks, 0, i)), callbacks(i)[..k + 1];
    ServedSplit(u, requests, k);
    assert requests[..k] == callbacks(i)[..k];
    assert requests[k..] == [callbacks(i)[k]];
    assert ServedAll(Asked(s, callbacks, i, k), [callbacks(i)[k]]) == Served(Asked(s, callbacks, i, k), callbacks(i)[k])
    by { OneServed(Asked(s, callbacks, i, k), callbacks(i)[k]); }
  }

  lemma OneServed(s: State, request: Request)
    ensures ServedAll(s, [request]) == Served(s, request)
  {
    hide Served;
    assert [request][1..] == [];
  }

  // ---- each callback once -------------------------------------------------------------------------------

  /** The timers whose callbacks the steps run. */
  ghost function RanBy(s: State, steps: seq<Step>): (es: seq<Entry>)
    requires IsRun(s, steps)
    decreases |steps|
  {
    if steps == [] then []
    else
      (if steps[0].RunNext? && s.next < |s.batch| then [s.batch[s.next]] else []) +
      RanBy(Apply(s, steps[0]), steps[1..])
  }

  predicate InsideBatch(steps: seq<Step>) {
    forall i :: 0 <= i < |steps| ==> !steps[i].Fire? && !steps[i].Finish?
  }

  lemma NextStep(s: State, step: Step)
    requires Inv(s) && s.calling && Enabled(s, step) && !step.Fire? && !step.Finish?
    ensures var r := Apply(s, step); r.calling && r.batch == s.batch && r.next == s.next + if step.RunNext? then 1
      else 0
  {
    match step
    case Cancel(id) => CancelKeepsBatch(s, id);
    case Add(p) => AddKeepsBatch(s, p);
    case RunNext =>
      InvRunNext(s);
      NotBroken(Apply(s, step));
    case _ =>
    hide CancelInLoop, AddInLoop;
  }

  lemma {:induction false} RanSoFar(s: State, steps: seq<Step>)
    requires Inv(s) && s.calling && s.next <= |s.batch| && IsRun(s, steps) && InsideBatch(steps)
    ensures
      var r := After(s, steps);
      && Inv(r) && r.calling && r.batch == s.batch && s.next <= r.next <= |r.batch|
      && RanBy(s, steps) == s.batch[s.next..r.next]
    decreases |steps|
  {
    hide Inv, Apply;
    if steps != [] {
      assert !steps[0].Fire? && !steps[0].Finish?;
      InvStep(s, steps[0]);
      NextStep(s, steps[0]);
      assert forall i :: 0 <= i < |steps| - 1 ==> steps[1..][i] == steps[i + 1];
      assert steps[0].RunNext? ==> s.next < |s.batch|;
      RanSoFar(Apply(s, steps[0]), steps[1..]);
    }
  }

  /** Every way from the start of a batch to its end runs each of its timers once, in order of expiration. */
  lemma EachRunOnce(s: State, now: Timestamp, fired: seq<Entry>, steps: seq<Step>)
    requires Inv(s) && Enabled(s, Fire(now, fired))
    requires IsRun(Begin(s, now, fired), steps) && InsideBatch(steps)
      && Enabled(After(Begin(s, now, fired), steps), Finish)
    ensures RanBy(Begin(s, now, fired), steps) == fired
    ensures Elements(fired) == set e | e in s.timers && e.when <= now
  {
    hide Inv, Begin, IsRun, After, RanBy, InsideBatch, Elements, Expired;
    InvFire(s, now, fired);
    BatchIs(s, now, fired);
    RanSoFar(Begin(s, now, fired), steps);
    Due(s, now);
  }

  lemma Due(s: State, now: Timestamp)
    requires Inv(s)
    ensures Expired(s.timers, now) == set e | e in s.timers && e.when <= now
  {
    ExpiredIsDue(s, now);
  }

  // ---- the alarm --------------------------------------------------------------------------------------------

  /** The alarm is set, for the earliest pending expiration. */
  ghost predicate ArmedForEarliest(s: State) {
    s.alarm.Some? && exists e :: IsEarliest(s.timers, e) && e.when == s.alarm.value
  }

  /** A step leaves the alarm alone, the alarm has gone off, or it is set for the earliest expiration then pending. */
  lemma AlarmStep(s: State, step: Step)
    requires Inv(s) && Enabled(s, step)
    ensures
      var r := Apply(s, step);
      || r.alarm == s.alarm || (step.Fire? && r.alarm == None)
      || ((step.Add? || step.Finish?) && ArmedForEarliest(r))
  {
    match step
    case Add(p) => AlarmAdd(s, p);
    case Finish => AlarmFinish(s);
    case _ =>
    hide AddInLoop, Rearm, ResetAll;
  }

  lemma AlarmAdd(s: State, p: Pointer)
    requires Inv(s) && p in s.loose
    ensures var r := AddInLoop(s, p); r.alarm == s.alarm || ArmedForEarliest(r)
    ensures p in s.live && (EarliestChanged(s.timers, s.live[p].expiration) ==>
      AddInLoop(s, p).alarm == Some(s.live[p].expiration))
  {
    InsertWaits(s, p, s.batch);
    var r, when := AddInLoop(s, p), s.live[p].expiration;
    if EarliestChanged(s.timers, when) { assert IsEarliest(r.timers, Entry(when, p)); }
  }

  lemma AlarmFinish(s: State)
    requires Inv(s) && Enabled(s, Finish)
    ensures var r := Apply(s, Finish); r.alarm == s.alarm || ArmedForEarliest(r)
  {
    var s0 := s.(calling := false, batch := [], next := 0);
    ResetStarts(s);
    ResetAllInv(s0, s.batch);
    hide ResetAll;
    RearmIs(ResetAll(s0, s.batch));
  }

  lemma RearmIs(t: State)
    ensures var r := Rearm(t); r == t.(alarm := r.alarm) && (r.alarm == t.alarm || ArmedForEarliest(r))
  {
    if t.timers != {} { EarliestExists(t.timers); }
  }

  lemma {:induction false} RunPrefix(s: State, steps: seq<Step>, k: nat)
    requires IsRun(s, steps) && k <= |steps|
    ensures IsRun(s, steps[..k])
    decreases k
  {
    hide Apply, Enabled;
    if k > 0 {
      RunPrefix(Apply(s, steps[0]), steps[1..], k - 1);
      assert steps[..k][0] == steps[0] && steps[..k][1..] == steps[1..][..k - 1];
    }
  }

  /** At this point of the run the alarm was set, to what it still is, for the earliest timer pending there. */
  ghost predicate ArmedThere(s: State, steps: seq<Step>, k: nat, alarm: Option<Timestamp>)
    requires IsRun(s, steps) && k <= |steps|
  {
    RunPrefix(s, steps, k);
    After(s, steps[..k]).alarm == alarm && ArmedForEarliest(After(s, steps[..k]))
  }

  lemma {:induction false} AlarmRun(s: State, steps: seq<Step>)
    requires Inv(s) && IsRun(s, steps)
    ensures
      var alarm := After(s, steps).alarm;
      alarm == s.alarm || alarm == None || exists k :: 0 <= k <= |steps| && ArmedThere(s, steps, k, alarm)
    decreases |steps|
  {
    hide Inv, Apply, Enabled, ArmedForEarliest;
    if steps != [] {
      var t, rest := Apply(s, steps[0]), steps[1..];
      InvStep(s, steps[0]);
      AlarmStep(s, steps[0]);
      AlarmRun(t, rest);
      var alarm := After(s, steps).alarm;
      if alarm == t.alarm && alarm != s.alarm && alarm != None { ArmedAtStart(t, rest, alarm); }
      if k :| 0 <= k <= |rest| && ArmedThere(t, rest, k, alarm) { ShiftArmed(s, steps, k, alarm); }
    }
  }

  lemma ArmedAtStart(t: State, rest: seq<Step>, alarm: Option<Timestamp>)
    requires IsRun(t, rest) && alarm == t.alarm && ArmedForEarliest(t)
    ensures ArmedThere(t, rest, 0, alarm)
  {
    assert rest[..0] == [];
  }

  lemma ShiftArmed(s: State, steps: seq<Step>, k: nat, alarm: Option<Timestamp>)
    requires IsRun(s, steps) && steps != [] && k <= |steps| - 1
    requires ArmedThere(Apply(s, steps[0]), steps[1..], k, alarm)
    ensures ArmedThere(s, steps, k + 1, alarm)
  {
    hide Apply, Enabled, ArmedForEarliest;
    RunPrefix(s, steps, k + 1);
    assert steps[..k + 1][0] == steps[0] && steps[..k + 1][1..] == steps[1..][..k];
  }

  /** Over every run: whatever the timerfd is armed for was the earliest pending expiration when it was armed. */
  lemma AlarmWasPending(steps: seq<Step>)
    requires IsRun(Initial, steps) && After(Initial, steps).alarm.Some?
    ensures exists k :: 0 <= k <= |steps| && ArmedThere(Initial, steps, k, After(Initial, steps).alarm)
  {
    InvInitial();
    AlarmRun(Initial, steps);
  }
}
