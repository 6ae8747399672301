/**
 The timer queue (net/TimerQueue.cc, net/Timer.cc) as a state machine over its steps: timers created by any thread,
 added and cancelled on the loop thread (also from callbacks), expired in batches and restarted or deleted.
 A pointer is a number that the allocator may hand out again after a delete; a step that uses a pointer no live
 timer has, or fails an assertion, breaks the state.
 */
module TimerQueue {
  import opened Bytes

  type Pointer = nat
  type Timestamp = int

  /** A Timer object. `delta` is the interval in microseconds as addTime truncates it. */
  datatype Timer = Timer(sequence: nat, expiration: Timestamp, delta: nat, repeat: bool)

  /** An entry of timers_, ordered by expiration and then by pointer. */
  datatype Entry = Entry(when: Timestamp, ptr: Pointer)

  /** An element of activeTimers_, and what a TimerId carries. */
  datatype Id = Id(ptr: Pointer, sequence: nat)

  /**
   `live` are the allocated timers, `loose` those not yet added in the loop. During a batch `batch` holds the
   expired entries, `next` counts callbacks started and `now` is the batch's time. `alarm` is the expiration the
   timerfd is armed for. `cancelled` records the sequence numbers of timers whose cancellation was accepted.
   */
  datatype State = State(
    live: map<Pointer, Timer>,
    created: nat,
    loose: set<Pointer>,
    timers: set<Entry>,
    active: set<Id>,
    calling: bool,
    cancelling: set<Id>,
    batch: seq<Entry>,
    next: nat,
    now: Timestamp,
    alarm: Option<Timestamp>,
    cancelled: set<nat>,
    broken: bool)

  const Initial := State(map[], 0, {}, {}, {}, false, {}, [], 0, 0, None, {}, false)

  datatype Step =
    | Create(ptr: Pointer, when: Timestamp, delta: nat, repeat: bool) // new Timer, in any thread
    | Add(added: Pointer)                                            // addTimerInLoop
    | Cancel(id: Id)                                                 // cancelInLoop
    | Fire(time: Timestamp, expired: seq<Entry>)                     // handleRead up to the first callback
    | RunNext                                                        // the next callback of the batch starts
    | Finish                                                         // handleRead after the last callback

  // ---- the operations ---------------------------------------------------------------------

  /** insert: is the entry ahead of all others? */
  predicate EarliestChanged(timers: set<Entry>, when: Timestamp) {
    forall e :: e in timers ==> when < e.when
  }

  /** insert; both set insertions are asserted to be new. */
  function Insert(s: State, p: Pointer): (r: State)
    requires p in s.live
  {
    var t := s.live[p];
    if Entry(t.expiration, p) in s.timers || Id(p, t.sequence) in s.active then s.(broken := true)
    else s.(timers := s.timers + {Entry(t.expiration, p)}, active := s.active + {Id(p, t.sequence)})
  }

  function AddInLoop(s: State, p: Pointer): (r: State)
  {
    if p !in s.live then s.(broken := true) else
    var when := s.live[p].expiration;
    var r := Insert(s, p).(loose := s.loose - {p});
    if EarliestChanged(s.timers, when) then r.(alarm := Some(when)) else r
  }

  /** Is the timer this id was made for waiting or in the running batch? */
  predicate Known(s: State, id: Id) {
    id.ptr in s.live && s.live[id.ptr].sequence == id.sequence && id.ptr !in s.loose
  }

  function CancelInLoop(s: State, id: Id): (r: State) {
    var marked := s.(cancelled := if Known(s, id) then s.cancelled + {id.sequence} else s.cancelled);
    if id in s.active then
      if id.ptr !in s.live || Entry(s.live[id.ptr].expiration, id.ptr) !in s.timers then s.(broken := true)
      else marked.(timers := s.timers - {Entry(s.live[id.ptr].expiration, id.ptr)},
                   live := s.live - {id.ptr}, active := s.active - {id})
    else if s.calling then marked.(cancelling := s.cancelling + {id})
    else marked
  }

  /** The order of std::set<Entry>. */
  predicate Below(a: Entry, b: Entry) {
    a.when < b.when || (a.when == b.when && a.ptr < b.ptr)
  }

  const SENTRY_POINTER: nat := 0xffff_ffff_ffff_ffff

  /** getExpired: the entries below the sentry that pairs `now` with the largest pointer value. */
  function Expired(timers: set<Entry>, now: Timestamp): (r: set<Entry>) {
    set e | e in timers && Below(e, Entry(now, SENTRY_POINTER))
  }

  predicate Increasing(es: seq<Entry>) {
    forall i, j :: 0 <= i < j < |es| ==> Below(es[i], es[j])
  }

  function Elements(es: seq<Entry>): (r: set<Entry>) {
    set i | 0 <= i < |es| :: es[i]
  }

  function Ids(s: State, es: set<Entry>): (r: set<Id>)
    requires forall e :: e in es ==> e.ptr in s.live
  {
    set e | e in es :: Id(e.ptr, s.live[e.ptr].sequence)
  }

  /** getExpired and the start of the callbacks; the alarm has gone off. */
  function Begin(s: State, time: Timestamp, expired: seq<Entry>): (r: State)
    requires Increasing(expired) && Elements(expired) == Expired(s.timers, time)
  {
    if exists e :: e in expired && e.ptr !in s.live then s.(broken := true) else
    var gone := Ids(s, Elements(expired));
    if !(gone <= s.active) then s.(broken := true)
    else s.(timers := s.timers - Elements(expired), active := s.active - gone, calling := true, cancelling := {},
            batch := expired, next := 0, now := time, alarm := None)
  }

  /** reset, for one entry: restart and insert a repeating timer that was not cancelled, delete any other. */
  function ResetOne(s: State, p: Pointer): (r: State)
  {
    if p !in s.live then s.(broken := true) else
    var t := s.live[p];
    if t.repeat && Id(p, t.sequence) !in s.cancelling
    then Insert(s.(live := s.live[p := t.(expiration := s.now + t.delta)]), p)
    else s.(live := s.live - {p})
  }

  function ResetAll(s: State, expired: seq<Entry>): (r: State)
    decreases |expired|
  {
    if expired == [] then s else ResetAll(ResetOne(s, expired[0].ptr), expired[1..])
  }

  ghost predicate IsEarliest(timers: set<Entry>, e: Entry) {
    e in timers && forall f :: f in timers ==> e.when <= f.when
  }

  lemma EarliestExists(timers: set<Entry>)
    requires timers != {}
    ensures exists e :: IsEarliest(timers, e)
  {
    var f :| f in timers;
    if timers == {f} {
      assert IsEarliest(timers, f);
    } else {
      var rest := timers - {f};
      assert rest != {};
      EarliestExists(rest);
      var g :| IsEarliest(rest, g);
      assert IsEarliest(timers, if f.when <= g.when then f else g);
    }
  }

  /** Timestamp::valid */
  predicate ValidTime(t: Timestamp) { t > 0 }

  /** The end of reset: arm for the first pending expiration, if that is a valid time. */
  ghost function Rearm(s: State): (r: State) {
    if s.timers == {} then s
    else
      EarliestExists(s.timers);
      var e :| IsEarliest(s.timers, e);
      if ValidTime(e.when) then s.(alarm := Some(e.when)) else s
  }

  predicate Enabled(s: State, step: Step) {
    match step
    case Create(p, _, _, _) => p !in s.live && p < SENTRY_POINTER
    case Add(p) => p in s.loose
    case Cancel(id) => id.sequence <= s.created
    case Fire(time, expired) =>
      !s.calling && ValidTime(time) && Increasing(expired) && Elements(expired) == Expired(s.timers, time)
    case RunNext => s.calling && s.next < |s.batch|
    case Finish => s.calling && s.next >= |s.batch|
  }

  ghost function Apply(s: State, step: Step): (r: State)
    requires Enabled(s, step)
  {
    match step
    case Create(p, when, delta, repeat) =>
      s.(live := s.live[p := Timer(s.created + 1, when, delta, repeat)], created := s.created + 1,
         loose := s.loose + {p})
    case Add(p) => AddInLoop(s, p)
    case Cancel(id) => CancelInLoop(s, id)
    case Fire(time, expired) => Begin(s, time, expired)
    case RunNext => if s.batch[s.next].ptr in s.live then s.(next := s.next + 1) else s.(broken := true)
    case Finish => Rearm(ResetAll(s.(calling := false, batch := [], next := 0), s.batch))
  }

  // ---- the invariant -----------------------------------------------------------------------

  function Waiting(s: State): (r: set<Pointer>) { set e | e in s.timers :: e.ptr }

  function Pointers(es: seq<Entry>): (r: set<Pointer>) { set i | 0 <= i < |es| :: es[i].ptr }

  predicate DistinctPointers(es: seq<Entry>) {
    forall i, j :: 0 <= i < j < |es| ==> es[i].ptr != es[j].ptr
  }

  /**
   Every live timer is in exactly one place: not yet added, waiting, or among the expired entries `rest` still to be
   reset. The two indexes describe the same waiting timers.
   */
  ghost predicate Consistent(s: State, rest: seq<Entry>) {
    && s.live.Keys == s.loose + Waiting(s) + Pointers(rest)
    && s.loose !! Waiting(s) && s.loose !! Pointers(rest) && Waiting(s) !! Pointers(rest)
    && DistinctPointers(rest)
    && (forall e :: e in s.timers ==> e.ptr in s.live && s.live[e.ptr].expiration == e.when)
    && (forall id :: id in s.active <==>
      id.ptr in Waiting(s) && id.ptr in s.live && id.sequence == s.live[id.ptr].sequence)
  }

  predicate Numbered(s: State) {
    && (forall p :: p in s.live ==> p < SENTRY_POINTER && 0 < s.live[p].sequence <= s.created)
    && (forall p, q :: p in s.live && q in s.live && p != q ==> s.live[p].sequence != s.live[q].sequence)
    && (forall id :: id in s.cancelling ==> id.sequence <= s.created)
    && (forall n :: n in s.cancelled ==> n <= s.created)
  }

  /** Accepted cancellations: the timer is gone, or among the expired entries and marked. */
  predicate CancelsKept(s: State, rest: seq<Entry>) {
    forall p :: p in s.live && s.live[p].sequence in s.cancelled ==>
      p in Pointers(rest) && Id(p, s.live[p].sequence) in s.cancelling
  }

  /** No pending timer without an alarm; during a batch this covers the entries that are already due. */
  predicate Alarmed(s: State, inBatch: bool) {
    forall e :: e in s.timers && (inBatch ==> e.when <= s.now) ==> s.alarm.Some? && s.alarm.value <= e.when
  }

  ghost predicate Inv(s: State) {
    && !s.broken
    && Consistent(s, s.batch) && Numbered(s) && CancelsKept(s, s.batch)
    && Alarmed(s, s.calling)
    && (s.calling ==> ValidTime(s.now)) && (!s.calling ==> s.batch == [])
  }

  lemma InvInitial()
    ensures Inv(Initial)
  {
  }

  lemma WaitingHas(s: State, e: Entry)
    requires e in s.timers
    ensures e.ptr in Waiting(s)
  {
  }

  /** A pointer that is not waiting can be inserted; it then is. */
  lemma InsertWaits(s: State, p: Pointer, rest: seq<Entry>)
    requires p in s.live && p !in Waiting(s)
    requires forall e :: e in s.timers ==> e.ptr in s.live && s.live[e.ptr].expiration == e.when
    requires forall id :: id in s.active <==>
      id.ptr in Waiting(s) && id.ptr in s.live && id.sequence == s.live[id.ptr].sequence
    ensures
      var r := Insert(s, p);
      && r == s.(timers := s.timers + {Entry(s.live[p].expiration, p)},
                   active := s.active + {Id(p, s.live[p].sequence)})
      && Waiting(r) == Waiting(s) + {p}
      && (forall e :: e in r.timers ==> e.ptr in r.live && r.live[e.ptr].expiration == e.when)
      && (forall id :: id in r.active <==>
        id.ptr in Waiting(r) && id.ptr in r.live && id.sequence == r.live[id.ptr].sequence)
  {
    var e := Entry(s.live[p].expiration, p);
    if e in s.timers { WaitingHas(s, e); }
    var r := s.(timers := s.timers + {e}, active := s.active + {Id(p, s.live[p].sequence)});
    forall q | q in Waiting(s) + {p} ensures q in Waiting(r) {
      if q == p {
        WaitingHas(r, e);
      } else {
        var f :| f in s.timers && f.ptr == q;
        WaitingHas(r, f);
      }
    }
    assert Waiting(r) == Waiting(s) + {p};
  }

  lemma InvCreate(s: State, step: Step)
    requires Inv(s) && step.Create? && Enabled(s, step)
    ensures Inv(Apply(s, step))
  {
    var r := Apply(s, step);
    assert Waiting(r) == Waiting(s);
    assert r.live.Keys == s.live.Keys + {step.ptr};
  }

  lemma InvAdd(s: State, p: Pointer)
    requires Inv(s) && p in s.loose
    ensures Inv(AddInLoop(s, p))
    ensures Waiting(AddInLoop(s, p)) == Waiting(s) + {p}
  {
    InsertWaits(s, p, s.batch);
    var r := AddInLoop(s, p);
    assert Waiting(r) == Waiting(Insert(s, p));
    AddAlarmed(s, p);
  }

  lemma AddAlarmed(s: State, p: Pointer)
    requires Inv(s) && p in s.loose && !Insert(s, p).broken
    ensures Alarmed(AddInLoop(s, p), s.calling)
  {
    var r, when := AddInLoop(s, p), s.live[p].expiration;
    if !EarliestChanged(s.timers, when) {
      var f :| f in s.timers && when >= f.when;
      assert s.calling && when <= s.now ==> f.when <= s.now;
    }
  }

  lemma InvCancel(s: State, id: Id)
    requires Inv(s) && id.sequence <= s.created
    ensures Inv(CancelInLoop(s, id))
  {
    if id in s.active {
      InvCancelActive(s, id);
    } else {
      var r := CancelInLoop(s, id);
      assert Waiting(r) == Waiting(s);
      if Known(s, id) {
        assert id.ptr in Pointers(s.batch);
      }
    }
  }

  lemma InvCancelActive(s: State, id: Id)
    requires Inv(s) && id in s.active
    ensures Inv(CancelInLoop(s, id))
  {
    CancelActiveFields(s, id);
    CancelActiveConsistent(s, id);
    hide Consistent, CancelInLoop;
    var r := CancelInLoop(s, id);
    assert forall p :: p in r.live ==> p in s.live && r.live[p] == s.live[p] && s.live[p].sequence != id.sequence;
  }

  lemma CancelActiveFields(s: State, id: Id)
    requires Inv(s) && id in s.active
    ensures id.ptr in s.live && Entry(s.live[id.ptr].expiration, id.ptr) in s.timers
      && s.live[id.ptr].sequence == id.sequence
    ensures id.ptr in Waiting(s)
    ensures
      CancelInLoop(s, id) ==
      s.(timers := s.timers - {Entry(s.live[id.ptr].expiration, id.ptr)}, live := s.live - {id.ptr},
         active := s.active - {id}, cancelled := s.cancelled + {id.sequence})
  {
    hide Numbered, CancelsKept, Alarmed;
    RemoveWaiting(s, id.ptr);
  }

  lemma CancelActiveConsistent(s: State, id: Id)
    requires Inv(s) && id in s.active
    ensures Consistent(CancelInLoop(s, id), s.batch)
  {
    hide Numbered, CancelsKept, Alarmed;
    CancelActiveFields(s, id);
    RemoveWaiting(s, id.ptr);
    hide CancelInLoop;
    var r := CancelInLoop(s, id);
    assert r.live.Keys == s.live.Keys - {id.ptr};
    assert Waiting(r) == Waiting(s) - {id.ptr};
    hide Waiting, Pointers;
  }

  lemma RemoveWaiting(s: State, p: Pointer)
    requires p in Waiting(s) && p in s.live
    requires forall e :: e in s.timers ==> e.ptr in s.live && s.live[e.ptr].expiration == e.when
    ensures
      var e := Entry(s.live[p].expiration, p);
      e in s.timers && (set f | f in s.timers - {e} :: f.ptr) == Waiting(s) - {p}
  {
    var e :| e in s.timers && e.ptr == p;
    assert e == Entry(s.live[p].expiration, p);
    var left := set f | f in s.timers - {e} :: f.ptr;
    forall q | q in Waiting(s) - {p} ensures q in left {
      var f :| f in s.timers && f.ptr == q;
      assert f in s.timers - {e};
    }
  }

  /** getExpired takes exactly the entries that are due: no pointer equals the sentry's. */
  lemma ExpiredIsDue(s: State, now: Timestamp)
    requires Consistent(s, s.batch) && Numbered(s)
    ensures Expired(s.timers, now) == set e | e in s.timers && e.when <= now
  {
  }

  lemma ExpiredPointers(s: State, expired: seq<Entry>)
    requires Consistent(s, []) && Increasing(expired) && Elements(expired) <= s.timers
    ensures DistinctPointers(expired)
    ensures Pointers(expired) <= Waiting(s)
    ensures (set e | e in s.timers - Elements(expired) :: e.ptr) == Waiting(s) - Pointers(expired)
  {
    assert forall i :: 0 <= i < |expired| ==> expired[i] in Elements(expired);
    forall i, j | 0 <= i < j < |expired| ensures expired[i].ptr != expired[j].ptr {
      assert expired[i] in s.timers && expired[j] in s.timers;
      assert Below(expired[i], expired[j]);
    }
    forall p | p in Pointers(expired) ensures p in Waiting(s) {
      var i :| 0 <= i < |expired| && expired[i].ptr == p;
      WaitingHas(s, expired[i]);
    }
    var left := set e | e in s.timers - Elements(expired) :: e.ptr;
    forall p | p in Waiting(s) - Pointers(expired) ensures p in left {
      var e :| e in s.timers && e.ptr == p;
      assert e !in Elements(expired);
    }
    forall p | p in left ensures p in Waiting(s) - Pointers(expired) {
      var e :| e in s.timers - Elements(expired) && e.ptr == p;
      WaitingHas(s, e);
    }
  }

  lemma InvFire(s: State, time: Timestamp, expired: seq<Entry>)
    requires Inv(s) && Enabled(s, Fire(time, expired))
    ensures Inv(Begin(s, time, expired))
    ensures forall e :: e in expired ==> e.ptr in s.live && s.live[e.ptr].sequence !in s.cancelled
  {
    ExpiredPointers(s, expired);
    ExpiredIsDue(s, time);
    forall e | e in expired ensures e.ptr in s.live && s.live[e.ptr].sequence !in s.cancelled {
      var i :| 0 <= i < |expired| && expired[i] == e;
      assert e in Elements(expired);
      assert e.ptr !in Pointers([]);
    }
    var r := Begin(s, time, expired);
    FireIds(s, expired);
    assert Waiting(r) == Waiting(s) - Pointers(expired);
    assert s.loose + Waiting(s) + Pointers([]) == r.loose + Waiting(r) + Pointers(expired);
  }

  lemma FireIds(s: State, expired: seq<Entry>)
    requires Consistent(s, []) && Increasing(expired) && Elements(expired) <= s.timers
    ensures forall e :: e in Elements(expired) ==> e.ptr in s.live
    ensures Ids(s, Elements(expired)) <= s.active
    ensures forall id :: id in s.active - Ids(s, Elements(expired)) <==>
      id.ptr in Waiting(s) - Pointers(expired) && id.ptr in s.live && id.sequence == s.live[id.ptr].sequence
  {
    var gone := Ids(s, Elements(expired));
    forall id | id in gone ensures id in s.active && id.ptr in Pointers(expired) {
      var e :| e in Elements(expired) && id == Id(e.ptr, s.live[e.ptr].sequence);
      WaitingHas(s, e);
    }
    forall id: Id | id in s.active && id.ptr in Pointers(expired) ensures id in gone {
      var i :| 0 <= i < |expired| && expired[i].ptr == id.ptr;
      assert expired[i] in Elements(expired);
    }
  }

  // ---- reset --------------------------------------------------------------------------------

  /** What holds between the entries of reset: entries at invalid times are covered by an alarm. */
  ghost predicate ResetInv(s: State, rest: seq<Entry>) {
    && !s.broken && ValidTime(s.now)
    && Consistent(s, rest) && Numbered(s) && CancelsKept(s, rest)
    && forall e :: e in s.timers && !ValidTime(e.when) ==> s.alarm.Some? && s.alarm.value <= e.when
  }

  predicate Survives(s: State, p: Pointer)
    requires p in s.live
  {
    s.live[p].repeat && Id(p, s.live[p].sequence) !in s.cancelling
  }

  function Restarted(t: Timer, now: Timestamp): (r: Timer) { t.(expiration := now + t.delta) }

  lemma RestPointers(rest: seq<Entry>)
    requires rest != [] && DistinctPointers(rest)
    ensures Pointers(rest[1..]) == Pointers(rest) - {rest[0].ptr} && DistinctPointers(rest[1..])
      && rest[0].ptr in Pointers(rest)
  {
    var tail := rest[1..];
    assert forall i :: 0 <= i < |tail| ==> tail[i] == rest[i + 1];
    forall p | p in Pointers(rest) - {rest[0].ptr} ensures p in Pointers(tail) {
      var i :| 0 <= i < |rest| && rest[i].ptr == p;
      assert tail[i - 1].ptr == p;
    }
  }

  lemma NotCancelled(s: State, rest: seq<Entry>)
    requires CancelsKept(s, rest) && rest != [] && rest[0].ptr in s.live && Survives(s, rest[0].ptr)
    ensures s.live[rest[0].ptr].sequence !in s.cancelled
  {
  }

  lemma SurvivorInserted(s: State, p: Pointer)
    requires p in s.live && Survives(s, p)
    ensures ResetOne(s, p) == Insert(s.(live := s.live[p := Restarted(s.live[p], s.now)]), p)
  {
    hide Insert;
  }

  lemma ResetSurvivor(s: State, rest: seq<Entry>)
    requires ResetInv(s, rest) && rest != [] && rest[0].ptr in s.live && Survives(s, rest[0].ptr)
    ensures ResetInv(ResetOne(s, rest[0].ptr), rest[1..]) && !ResetOne(s, rest[0].ptr).broken
    ensures ResetOne(s, rest[0].ptr).live == s.live[rest[0].ptr := Restarted(s.live[rest[0].ptr], s.now)]
  {
    SurvivorConsistent(s, rest);
    SurvivorNumbered(s, rest);
  }

  lemma SurvivorConsistent(s: State, rest: seq<Entry>)
    requires !s.broken && Consistent(s, rest) && rest != [] && rest[0].ptr in s.live && Survives(s, rest[0].ptr)
    ensures
      var p := rest[0].ptr;
      var r, m := ResetOne(s, p), s.live[p := Restarted(s.live[p], s.now)];
      && Consistent(r, rest[1..])
      && r == s.(live := m, timers := s.timers + {Entry(m[p].expiration, p)}, active := r.active)
  {
    var p := rest[0].ptr;
    RestPointers(rest);
    SurvivorInserted(s, p);
    hide Insert, Survives, ResetOne;
    var m := s.(live := s.live[p := Restarted(s.live[p], s.now)]);
    assert Waiting(m) == Waiting(s);
    assert m.live.Keys == s.live.Keys;
    InsertWaits(m, p, rest);
    var r := Insert(m, p);
    assert s.loose + Waiting(s) + Pointers(rest) == r.loose + Waiting(r) + Pointers(rest[1..]);
  }

  lemma SurvivorNumbered(s: State, rest: seq<Entry>)
    requires ResetInv(s, rest) && rest != [] && rest[0].ptr in s.live && Survives(s, rest[0].ptr)
    requires
      var p := rest[0].ptr;
      var r, m := ResetOne(s, p), s.live[p := Restarted(s.live[p], s.now)];
      r == s.(live := m, timers := s.timers + {Entry(m[p].expiration, p)}, active := r.active)
    ensures
      var r := ResetOne(s, rest[0].ptr);
      && Numbered(r) && CancelsKept(r, rest[1..])
      && forall e :: e in r.timers && !ValidTime(e.when) ==> r.alarm.Some? && r.alarm.value <= e.when
  {
    hide ResetOne, Waiting;
    HeadIsLive(s, rest);
    RestPointers(rest);
    NotCancelled(s, rest);
    hide Consistent, Pointers, DistinctPointers;
  }

  lemma ResetDeleted(s: State, rest: seq<Entry>)
    requires ResetInv(s, rest) && rest != [] && rest[0].ptr in s.live && !Survives(s, rest[0].ptr)
    ensures ResetInv(ResetOne(s, rest[0].ptr), rest[1..]) && !ResetOne(s, rest[0].ptr).broken
    ensures ResetOne(s, rest[0].ptr).live == s.live - {rest[0].ptr}
  {
    var p := rest[0].ptr;
    RestPointers(rest);
    var r := ResetOne(s, p);
    assert Waiting(r) == Waiting(s);
    assert r.live.Keys == s.live.Keys - {p};
  }

  /** Timers outside the batch are untouched; of the batch exactly the repeating, uncancelled ones go on, restarted. */
  ghost predicate ResetResult(s: State, rest: seq<Entry>, r: State) {
    && (forall p :: p !in Pointers(rest) ==> (p in r.live <==> p in s.live) && (p in s.live ==> r.live[p] == s.live[p]))
    && (forall p :: p in Pointers(rest) && p in s.live ==> (p in r.live <==> Survives(s, p)))
    && (forall p :: p in Pointers(rest) && p in s.live && Survives(s, p) ==> r.live[p] == Restarted(s.live[p], s.now))
    && r == s.(live := r.live, timers := r.timers, active := r.active)
  }

  lemma {:induction false} ResetAllInv(s: State, rest: seq<Entry>)
    requires ResetInv(s, rest)
    ensures ResetInv(ResetAll(s, rest), []) && ResetResult(s, rest, ResetAll(s, rest))
    decreases |rest|
  {
    hide ResetInv, ResetOne, DistinctPointers, ResetResult, Pointers, Survives;
    if rest == [] {
      NothingReset(s, rest);
    } else {
      var p := rest[0].ptr;
      HeadIsLive(s, rest);
      var t := ResetOne(s, p);
      ResetOneFields(s, p);
      if Survives(s, p) {
        ResetSurvivor(s, rest);
      } else {
        ResetDeleted(s, rest);
      }
      ResetAllInv(t, rest[1..]);
      ResetCompose(s, rest, t, ResetAll(t, rest[1..]));
    }
  }

  lemma NothingReset(s: State, rest: seq<Entry>)
    requires rest == []
    ensures ResetResult(s, rest, s)
  {
  }

  lemma ResetCompose(s: State, rest: seq<Entry>, t: State, r: State)
    requires rest != [] && DistinctPointers(rest) && rest[0].ptr in s.live
    requires
      var p := rest[0].ptr;
      t.live == if Survives(s, p) then s.live[p := Restarted(s.live[p], s.now)] else s.live - {p}
    requires t == s.(live := t.live, timers := t.timers, active := t.active)
    requires ResetResult(t, rest[1..], r)
    ensures ResetResult(s, rest, r)
  {
    RestPointers(rest);
    hide DistinctPointers, Pointers;
  }

  lemma HeadIsLive(s: State, rest: seq<Entry>)
    requires ResetInv(s, rest) && rest != []
    ensures DistinctPointers(rest) && rest[0].ptr in s.live && !s.broken
  {
    assert rest[0].ptr in Pointers(rest);
  }

  lemma ResetOneFields(s: State, p: Pointer)
    requires !s.broken
    ensures var r := ResetOne(s, p); r == s.(live := r.live, timers := r.timers, active := r.active, broken := r.broken)
  {
  }

  lemma RearmAlarmed(s: State)
    requires forall e :: e in s.timers && !ValidTime(e.when) ==> s.alarm.Some? && s.alarm.value <= e.when
    ensures var r := Rearm(s); r == s.(alarm := r.alarm) && Alarmed(r, false)
  {
  }

  lemma InvFinish(s: State)
    requires Inv(s) && Enabled(s, Finish)
    ensures Inv(Apply(s, Finish))
      && ResetResult(s, s.batch, Apply(s, Finish).(calling := true, batch := s.batch, next := s.next, alarm := s.alarm))
  {
    hide Inv, Consistent, Numbered, CancelsKept, ResetAll, Rearm, ResetResult, ResetInv;
    var s0 := s.(calling := false, batch := [], next := 0);
    ResetStarts(s);
    ResetAllInv(s0, s.batch);
    var t := ResetAll(s0, s.batch);
    ResetEnds(t, s0, s);
  }

  lemma ResetStarts(s: State)
    requires Inv(s) && s.calling
    ensures ResetInv(s.(calling := false, batch := [], next := 0), s.batch)
  {
    var s0 := s.(calling := false, batch := [], next := 0);
    assert Waiting(s0) == Waiting(s);
  }

  lemma ResetEnds(t: State, s0: State, s: State)
    requires ResetInv(t, []) && ResetResult(s0, s.batch, t) && s.calling
      && s0 == s.(calling := false, batch := [], next := 0)
    ensures
      var r := Rearm(t);
      Inv(r) && ResetResult(s, s.batch, r.(calling := true, batch := s.batch, next := s.next, alarm := s.alarm))
  {
    hide Rearm;
    RearmAlarmed(t);
    var r := Rearm(t);
    assert Waiting(r) == Waiting(t);
  }

  lemma InvRunNext(s: State)
    requires Inv(s) && Enabled(s, RunNext)
    ensures Inv(Apply(s, RunNext))
  {
    assert s.batch[s.next].ptr in Pointers(s.batch);
    assert Waiting(s.(next := s.next + 1)) == Waiting(s);
  }

  lemma InvStep(s: State, step: Step)
    requires Inv(s) && Enabled(s, step)
    ensures Inv(Apply(s, step))
  {
    hide Inv, AddInLoop, CancelInLoop, Begin, Rearm, ResetAll;
    match step
    case Create(_, _, _, _) => InvCreate(s, step);
    case Add(p) => InvAdd(s, p);
    case Cancel(id) => InvCancel(s, id);
    case Fire(time, expired) => InvFire(s, time, expired);
    case RunNext => InvRunNext(s);
    case Finish => InvFinish(s);
  }

  // ---- runs ---------------------------------------------------------------------------------

  ghost predicate IsRun(s: State, steps: seq<Step>)
    decreases |steps|
  {
    steps == [] || (Enabled(s, steps[0]) && IsRun(Apply(s, steps[0]), steps[1..]))
  }

  ghost function After(s: State, steps: seq<Step>): (r: State)
    requires IsRun(s, steps)
    decreases |steps|
  {
    if steps == [] then s else After(Apply(s, steps[0]), steps[1..])
  }

  lemma {:induction false} InvRun(s: State, steps: seq<Step>)
    requires Inv(s) && IsRun(s, steps)
    ensures Inv(After(s, steps))
    decreases |steps|
  {
    hide Inv, Apply, Enabled;
    if steps != [] {
      InvStep(s, steps[0]);
      InvRun(Apply(s, steps[0]), steps[1..]);
    }
  }

  /**
   Over every run: no assertion fails and no deleted timer is used or deleted again; every live timer is in exactly
   one place, so none leaks; the two indexes hold the same timers.
   */
  lemma TimersSafe(steps: seq<Step>)
    requires IsRun(Initial, steps)
    ensures var s := After(Initial, steps); !s.broken && Consistent(s, s.batch)
  {
    hide IsRun, After, Consistent;
    InvInitial();
    InvRun(Initial, steps);
  }

  /** Over every run, outside a batch the timerfd is armed no later than any pending timer. */
  lemma NoTimerWithoutAlarm(steps: seq<Step>)
    requires IsRun(Initial, steps)
    ensures
      var s := After(Initial, steps);
      !s.calling ==> forall e :: e in s.timers ==> s.alarm.Some? && s.alarm.value <= e.when
  {
    hide IsRun, After, Consistent;
    InvInitial();
    InvRun(Initial, steps);
  }

  lemma CancelledStays(s: State, step: Step)
    requires Inv(s) && Enabled(s, step)
    ensures s.cancelled <= Apply(s, step).cancelled
  {
    hide Inv, ResetAll, Rearm;
    if step.Finish? { InvFinish(s); }
  }

  /**
   Once a cancellation is accepted, the timer is in no later batch: any Fire step, after any further steps, takes
   only timers that were never cancelled.
   */
  lemma {:induction false} CancelledNeverExpires(
    s: State, steps: seq<Step>, sequence: nat, time: Timestamp, expired: seq<Entry>)
    requires Inv(s) && sequence in s.cancelled && IsRun(s, steps) && Enabled(After(s, steps), Fire(time, expired))
    ensures
      var t := After(s, steps);
      forall e :: e in expired ==> e.ptr in t.live && t.live[e.ptr].sequence != sequence
    decreases |steps|
  {
    hide Inv, Apply, Enabled;
    if steps == [] {
      InvFire(s, time, expired);
    } else {
      InvStep(s, steps[0]);
      CancelledStays(s, steps[0]);
      CancelledNeverExpires(Apply(s, steps[0]), steps[1..], sequence, time, expired);
    }
  }

  /** Cancelling a timer that was added, waiting or in the running batch, is accepted. */
  lemma CancelAccepted(s: State, id: Id)
    requires Inv(s) && Known(s, id)
    ensures id.sequence in CancelInLoop(s, id).cancelled
    ensures id.ptr in CancelInLoop(s, id).live <==> id.ptr in Pointers(s.batch)
  {
  }

  /** An id no live timer has: cancelling it changes nothing but the set of marks, and no mark of a live timer. */
  lemma StaleCancelHarmless(s: State, id: Id)
    requires Inv(s) && !(id.ptr in s.live && s.live[id.ptr].sequence == id.sequence)
    ensures var r := CancelInLoop(s, id); r == s.(cancelling := r.cancelling)
    ensures
      forall p :: p in s.live ==>
        (Id(p, s.live[p].sequence) in CancelInLoop(s, id).cancelling <==> Id(p, s.live[p].sequence) in s.cancelling)
  {
  }

  /**
   A cancellation that overtakes the timer's addTimerInLoop has no effect: the timer is added all the same and waits.
   Acceptance is therefore exactly: the timer has been added.
   */
  lemma EarlyCancelIgnored(s: State, p: Pointer)
    requires Inv(s) && p in s.loose
    ensures
      var r := CancelInLoop(s, Id(p, s.live[p].sequence));
      && r.cancelled == s.cancelled && p in r.loose
      && p in Waiting(AddInLoop(r, p))
  {
    hide AddInLoop;
    var id := Id(p, s.live[p].sequence);
    InvCancel(s, id);
    assert id !in s.active;
    InvAdd(CancelInLoop(s, id), p);
  }
}
