/**
 The timer queue object of the source (net/TimerQueue.cc): the ordered set of entries as an ordered sequence, the
 second index, the marks and the timer heap changed in place. Each method is proved against the operation of the
 state machine it implements.
 */
module TimerQueueObject {
  import opened Bytes
  import opened TimerQueue
  import opened TimerBatch

  class Queue {
    var timers: seq<Entry>
    var activeTimers: set<Id>
    var callingExpiredTimers: bool
    var cancellingTimers: set<Id>
    var heap: map<Pointer, Timer>
    var alarm: Option<Timestamp>
    var numCreated: nat

    constructor ()
      ensures Shows(Initial)
    {
      timers, activeTimers, callingExpiredTimers, cancellingTimers := [], {}, false, {};
      heap, alarm, numCreated := map[], None, 0;
    }

    /** The fields are those of the abstract state, the entries in their order. */
    ghost predicate Shows(s: State)
      reads this
    {
      && Increasing(timers) && Elements(timers) == s.timers
      && activeTimers == s.active && callingExpiredTimers == s.calling && cancellingTimers == s.cancelling
      && heap == s.live && alarm == s.alarm && numCreated == s.created
    }

    /** insert: the entry goes to its place in the order. */
    method InsertTimer(p: Pointer, ghost s: State) returns (earliestChanged: bool)
      requires Shows(s) && p in s.live && !s.broken && !TimerQueue.Insert(s, p).broken
      modifies this`timers, this`activeTimers
      ensures Shows(TimerQueue.Insert(s, p))
      ensures earliestChanged == EarliestChanged(s.timers, s.live[p].expiration)
    {
      var t := heap[p];
      var e := Entry(t.expiration, p);
      earliestChanged := timers == [] || e.when < timers[0].when;
      FirstIsEarliest(timers, e.when);
      var i := 0;
      while i < |timers| && Below(timers[i], e)
        invariant 0 <= i <= |timers|
        invariant forall k :: 0 <= k < i ==> Below(timers[k], e)
      {
        i := i + 1;
      }
      InsertOrdered(timers, e, i);
      timers := timers[..i] + [e] + timers[i..];
      activeTimers := activeTimers + {Id(p, t.sequence)};
    }

    method AddTimerInLoop(p: Pointer, ghost s: State)
      requires Shows(s) && p in s.live && !s.broken && !TimerQueue.Insert(s, p).broken
      modifies this`timers, this`activeTimers, this`alarm
      ensures Shows(AddInLoop(s, p))
    {
      var when := heap[p].expiration;
      var earliestChanged := InsertTimer(p, s);
      if earliestChanged {
        alarm := Some(when);
      }
    }

    /** cancelInLoop; the entry to erase is found, as the source asserts. */
    method CancelTimerInLoop(id: Id, ghost s: State)
      requires Shows(s) && Inv(s)
      modifies this`timers, this`activeTimers, this`cancellingTimers, this`heap
      ensures Shows(CancelInLoop(s, id))
    {
      hide Consistent, Numbered, CancelsKept, Alarmed;
      if id in activeTimers {
        ActiveHasEntry(s, id);
        var e := Entry(heap[id.ptr].expiration, id.ptr);
        timers := Erase(timers, e);
        heap := heap - {id.ptr};
        activeTimers := activeTimers - {id};
      } else if callingExpiredTimers {
        cancellingTimers := cancellingTimers + {id};
      }
    }

    /** getExpired: the due prefix is split off and its ids are erased from the second index. */
    method GetExpired(now: Timestamp, ghost s: State) returns (expired: seq<Entry>)
      requires Shows(s) && Inv(s) && !s.calling
      modifies this`timers, this`activeTimers
      ensures Increasing(expired) && Elements(expired) == Expired(s.timers, now)
      ensures Increasing(timers) && Elements(timers) == s.timers - Elements(expired)
      ensures (forall e :: e in Elements(expired) ==> e.ptr in s.live)
        && activeTimers == s.active - Ids(s, Elements(expired))
    {
      hide Inv;
      var end := 0;
      while end < |timers| && Below(timers[end], Entry(now, SENTRY_POINTER))
        invariant 0 <= end <= |timers|
        invariant forall k :: 0 <= k < end ==> Below(timers[k], Entry(now, SENTRY_POINTER))
      {
        end := end + 1;
      }
      SplitOrdered(timers, end, Entry(now, SENTRY_POINTER));
      expired := timers[..end];
      timers := timers[end..];
      LiveEntries(s, expired);
      ghost var later := timers;
      var i := 0;
      while i < |expired|
        invariant 0 <= i <= |expired| && timers == later
        invariant forall e :: e in Elements(expired[..i]) ==> e.ptr in s.live
        invariant activeTimers == s.active - Ids(s, Elements(expired[..i]))
      {
        var e := expired[i];
        ElementsSnoc(expired, i);
        activeTimers := activeTimers - {Id(e.ptr, heap[e.ptr].sequence)};
        i := i + 1;
      }
      assert expired[..i] == expired;
    }

    /** reset */
    method Reset(expired: seq<Entry>, now: Timestamp, ghost s: State)
      requires Shows(s) && ResetInv(s, expired) && s.now == now
      modifies this`timers, this`activeTimers, this`heap, this`alarm
      ensures Shows(Rearm(ResetAll(s, expired)))
    {
      hide ResetInv, ResetOne, Rearm;
      ghost var t := s;
      var i := 0;
      while i < |expired|
        invariant 0 <= i <= |expired| && Shows(t) && t.now == now && ResetInv(t, expired[i..])
        invariant ResetAll(s, expired) == ResetAll(t, expired[i..])
      {
        var p := expired[i].ptr;
        StepOfReset(t, expired[i..]);
        assert expired[i..][1..] == expired[i + 1..];
        ResetEntry(p, now, t);
        t := ResetOne(t, p);
        i := i + 1;
      }
      assert expired[i..] == [];
      ArmedForFirst(t, timers);
      if timers != [] && ValidTime(timers[0].when) {
        alarm := Some(timers[0].when);
      }
    }

    /** new Timer */
    method CreateTimer(p: Pointer, when: Timestamp, delta: nat, repeat: bool, ghost s: State)
      requires Shows(s) && Enabled(s, Create(p, when, delta, repeat))
      modifies this`heap, this`numCreated
      ensures Shows(Apply(s, Create(p, when, delta, repeat)))
    {
      numCreated := numCreated + 1;
      heap := heap[p := Timer(numCreated, when, delta, repeat)];
    }

    /** One request of a callback. */
    method Serve(request: Request, ghost s: State) returns (ghost r: State)
      requires Shows(s) && Inv(s)
      modifies this
      ensures r == Served(s, request) && Shows(r) && Inv(r) && SameBatch(s, r)
    {
      hide Inv, AddInLoop, CancelInLoop;
      r := Served(s, request);
      ServedInv(s, request);
      match request
      case CancelRequest(id) => {
        if id.sequence <= numCreated {
          CancelTimerInLoop(id, s);
        }
      }
      case AddRequest(p, when, delta, repeat) => {
        if p !in heap && p < SENTRY_POINTER {
          ghost var step := Create(p, when, delta, repeat);
          InvStep(s, step);
          CreateTimer(p, when, delta, repeat, s);
          InsertSound(Apply(s, step), p);
          AddTimerInLoop(p, Apply(s, step));
        }
      }
    }

    /** One callback of the batch, with everything it requests. */
    method RunCallback(requests: seq<Request>, ghost s: State) returns (ghost r: State)
      requires Shows(s) && Inv(s)
      modifies this
      ensures r == ServedAll(s, requests) && Shows(r) && Inv(r) && SameBatch(s, r)
    {
      hide Inv, Served;
      r := s;
      assert requests[0..] == requests;
      for i := 0 to |requests|
        invariant Shows(r) && Inv(r) && SameBatch(s, r)
        invariant ServedAll(s, requests) == ServedAll(r, requests[i..])
      {
        assert requests[i..][0] == requests[i] && requests[i..][1..] == requests[i + 1..];
        r := Serve(requests[i], r);
      }
      assert requests[|requests|..] == [];
    }

    /**
     handleRead: exactly the due timers are taken, their callbacks run in order of expiration, whatever each of them
     adds or cancels, and the batch is reset; the invariant of the queue holds again, with no timer left without an
     alarm.
     */
    method HandleRead(now: Timestamp, callbacks: nat -> seq<Request>, ghost s: State)
        returns (fired: seq<Entry>, ghost r: State)
      requires Shows(s) && Inv(s) && !s.calling && ValidTime(now)
      modifies this
      ensures Shows(r) && Inv(r) && !r.calling
      ensures Increasing(fired) && Elements(fired) == set e | e in s.timers && e.when <= now
      ensures Enabled(s, Fire(now, fired)) && r == BatchResult(s, now, fired, callbacks)
    {
      hide Inv, Begin, ResetInv, ServedAll, Started;
      fired := GetExpired(now, s);
      callingExpiredTimers, cancellingTimers, alarm := true, {}, None;
      InvFire(s, now, fired);
      BatchBegins(s, now, fired);
      r := Begin(s, now, fired);
      for i := 0 to |fired|
        invariant Shows(r) && Inv(r) && r.calling && r.batch == fired && r.next == i && r.now == now
        invariant Called(Begin(s, now, fired), callbacks, 0, |fired|) == Called(r, callbacks, i, |fired|)
      {
        StartsNext(r);
        r := RunCallback(callbacks(i), Started(r));
      }
      callingExpiredTimers := false;
      ResetStarts(r);
      FinishedInv(r);
      Reset(fired, now, r.(calling := false, batch := [], next := 0));
      r := Finished(r);
    }

    /** The loop body of reset. */
    method ResetEntry(p: Pointer, now: Timestamp, ghost s: State)
      requires Shows(s) && p in s.live && !s.broken && !ResetOne(s, p).broken && s.now == now
      modifies this`timers, this`activeTimers, this`heap
      ensures Shows(ResetOne(s, p))
    {
      hide TimerQueue.Insert;
      var t := heap[p];
      if t.repeat && Id(p, t.sequence) !in cancellingTimers {
        heap := heap[p := Restarted(t, now)];
        var _ := InsertTimer(p, s.(live := heap));
      } else {
        heap := heap - {p};
      }
    }
  }

  /** Starting a callback moves on by one and changes no field the object shows. */
  lemma StartsNext(s: State)
    requires Inv(s) && s.calling && s.next < |s.batch|
    ensures Started(s) == s.(next := s.next + 1) && Inv(Started(s))
  {
    InvRunNext(s);
    NotBroken(Apply(s, RunNext));
  }

  lemma InsertSound(s: State, p: Pointer)
    requires Inv(s) && p in s.loose
    ensures p in s.live && !s.broken && !TimerQueue.Insert(s, p).broken
  {
    InsertWaits(s, p, s.batch);
  }

  /** The fields after a batch is taken, and that the entries taken are the due ones. */
  lemma BatchBegins(s: State, now: Timestamp, fired: seq<Entry>)
    requires Inv(s) && Enabled(s, Fire(now, fired)) && Inv(Begin(s, now, fired))
    ensures (forall e :: e in Elements(fired) ==> e.ptr in s.live)
    ensures
      Begin(s, now, fired) ==
      s.(timers := s.timers - Elements(fired), active := s.active - Ids(s, Elements(fired)), calling := true,
         cancelling := {}, batch := fired, next := 0, now := now, alarm := None)
    ensures Elements(fired) == set e | e in s.timers && e.when <= now
  {
    InvFire(s, now, fired);
    hide Consistent, Numbered, CancelsKept;
    forall e | e in Elements(fired) ensures e.ptr in s.live { assert e in fired; }
    assert Elements(fired) == set e | e in s.timers && e.when <= now by { DueOf(s, now); }
  }

  lemma DueOf(s: State, now: Timestamp)
    requires Inv(s)
    ensures Expired(s.timers, now) == set e | e in s.timers && e.when <= now
  {
    ExpiredIsDue(s, now);
  }

  lemma FirstIsEarliest(es: seq<Entry>, when: Timestamp)
    requires Increasing(es)
    ensures EarliestChanged(Elements(es), when) <==> es == [] || when < es[0].when
  {
    if es != [] {
      assert es[0] in Elements(es);
      assert forall i :: 0 < i < |es| ==> Below(es[0], es[i]);
    }
  }

  /** Putting an entry between the smaller and the larger ones keeps the order and adds just that entry. */
  lemma InsertOrdered(es: seq<Entry>, e: Entry, i: nat)
    requires Increasing(es) && i <= |es| && e !in Elements(es)
    requires forall k :: 0 <= k < i ==> Below(es[k], e)
    requires i < |es| ==> !Below(es[i], e)
    ensures var r := es[..i] + [e] + es[i..]; Increasing(r) && Elements(r) == Elements(es) + {e}
  {
    var r := es[..i] + [e] + es[i..];
    if i < |es| { assert es[i] in Elements(es); }
    assert forall k :: 0 <= k < |r| ==> r[k] == if k < i then es[k] else if k == i then e else es[k - 1];
    forall x | x in Elements(es) ensures x in Elements(r) {
      var k :| 0 <= k < |es| && es[k] == x;
      assert r[if k < i then k else k + 1] == x;
    }
    assert r[i] == e;
  }

  /** Erasing one key of the ordered set. */
  function Erase(es: seq<Entry>, e: Entry): (r: seq<Entry>)
    requires Increasing(es)
    ensures Increasing(r) && Elements(r) == Elements(es) - {e}
  {
    if e !in es then es
    else
      var k :| 0 <= k < |es| && es[k] == e;
      EraseOrdered(es, k);
      es[..k] + es[k + 1..]
  }

  lemma EraseOrdered(es: seq<Entry>, k: nat)
    requires Increasing(es) && k < |es|
    ensures var r := es[..k] + es[k + 1..]; Increasing(r) && Elements(r) == Elements(es) - {es[k]}
  {
    var r := es[..k] + es[k + 1..];
    assert forall i :: 0 <= i < |r| ==> r[i] == if i < k then es[i] else es[i + 1];
    forall x | x in Elements(es) - {es[k]} ensures x in Elements(r) {
      var i :| 0 <= i < |es| && es[i] == x;
      assert r[if i < k then i else i - 1] == x;
    }
  }

  lemma SplitOrdered(es: seq<Entry>, end: nat, sentry: Entry)
    requires Increasing(es) && end <= |es|
    requires forall k :: 0 <= k < end ==> Below(es[k], sentry)
    requires end < |es| ==> !Below(es[end], sentry)
    ensures Increasing(es[..end]) && Increasing(es[end..])
    ensures Elements(es[..end]) == set e | e in Elements(es) && Below(e, sentry)
    ensures Elements(es[end..]) == Elements(es) - Elements(es[..end])
  {
    var due, later := es[..end], es[end..];
    assert forall i :: 0 <= i < |later| ==> later[i] == es[end + i];
    assert forall i :: end < i < |es| ==> Below(es[end], es[i]);
    forall x | x in Elements(es) ensures if Below(x, sentry) then x in Elements(due) && x !in Elements(later)
      else x in Elements(later) && x !in Elements(due) {
      var i :| 0 <= i < |es| && es[i] == x;
      if i < end { assert due[i] == x; } else { assert later[i - end] == x; }
    }
  }

  lemma ElementsSnoc(es: seq<Entry>, i: nat)
    requires i < |es|
    ensures Elements(es[..i + 1]) == Elements(es[..i]) + {es[i]}
  {
    var a, b := es[..i], es[..i + 1];
    assert b[i] == es[i];
    forall x | x in Elements(a) ensures x in Elements(b) {
      var k :| 0 <= k < i && a[k] == x;
      assert b[k] == x;
    }
  }

  lemma ActiveHasEntry(s: State, id: Id)
    requires Inv(s) && id in s.active
    ensures id.ptr in s.live && Entry(s.live[id.ptr].expiration, id.ptr) in s.timers
  {
    RemoveWaiting(s, id.ptr);
  }

  lemma LiveEntries(s: State, expired: seq<Entry>)
    requires Inv(s) && Elements(expired) <= s.timers
    ensures forall i :: 0 <= i < |expired| ==> expired[i].ptr in s.live
  {
    forall i | 0 <= i < |expired| ensures expired[i].ptr in s.live {
      assert expired[i] in Elements(expired);
    }
  }

  lemma StepOfReset(s: State, rest: seq<Entry>)
    requires ResetInv(s, rest) && rest != []
    ensures
      var p := rest[0].ptr;
      p in s.live && !s.broken && ResetInv(ResetOne(s, p), rest[1..]) && !ResetOne(s, p).broken
        && ResetOne(s, p).now == s.now
  {
    hide ResetInv, ResetOne;
    HeadIsLive(s, rest);
    ResetOneFields(s, rest[0].ptr);
    if Survives(s, rest[0].ptr) {
      ResetSurvivor(s, rest);
    } else {
      ResetDeleted(s, rest);
    }
  }

  /** The first entry of the order is an earliest one, so its time is the time reset arms. */
  lemma ArmedForFirst(s: State, es: seq<Entry>)
    requires Increasing(es) && Elements(es) == s.timers
    ensures es == [] ==> Rearm(s) == s
    ensures es != [] ==> Rearm(s) == if ValidTime(es[0].when) then s.(alarm := Some(es[0].when)) else s
  {
    if es != [] {
      assert es[0] in Elements(es);
      assert forall i :: 0 < i < |es| ==> Below(es[0], es[i]);
    } else {
      assert Elements(es) == {};
    }
  }
}
