/**
 Sequences of calls on the two pollers (net/poller/PollPoller.cc, net/poller/EPollPoller.cc), named by channel object: a
 channel keeps the index a poller gave it, also after its removal, and both pollers decide by that index. A call whose
 assertion fails breaks the poller. Proved: exactly which sequences break which poller, and that both watch the same on
 every sequence that breaks neither.
 */
module PollerRuns {
  import opened Pollers

  /** A channel object and its descriptor. */
  datatype ChannelRef = ChannelRef(id: nat, fd: nat)

  /** Channel::update after the mask was set, and Channel::remove. */
  datatype Op = SetMask(channel: ChannelRef, mask: nat) | Remove(channel: ChannelRef)

  // ---- what the calls mean -------------------------------------------------------------------

  /** The registrations, the channel each descriptor is registered for, and the channels removed so far. */
  datatype Model = Model(registry: Registry, owner: map<int, ChannelRef>, removed: set<ChannelRef>)

  const Empty := Model(map[], map[], {})

  predicate Registered(owner: map<int, ChannelRef>, c: ChannelRef) {
    c.fd in owner && owner[c.fd] == c
  }

  function ApplyOp(m: Model, op: Op): (r: Model) {
    var c := op.channel;
    match op
    case SetMask(_, mask) =>
      m.(registry := m.registry[c.fd := Registration(mask, c.fd in m.registry && mask == 0)],
         owner := m.owner[c.fd := c])
    case Remove(_) =>
      Model(m.registry - {c.fd}, m.owner - {c.fd}, m.removed + {c})
  }

  function After(m: Model, ops: seq<Op>): (r: Model)
    decreases |ops|
  {
    if ops == [] then m else After(ApplyOp(m, ops[0]), ops[1..])
  }

  /** The descriptor is not registered for another channel. */
  predicate FreeOrOwn(m: Model, c: ChannelRef) {
    c.fd in m.owner ==> m.owner[c.fd] == c
  }

  /** For PollPoller: a removed channel never comes back, and a removal follows an update that emptied the mask. */
  predicate PollAllows(m: Model, op: Op) {
    var c := op.channel;
    if op.SetMask? then FreeOrOwn(m, c) && c !in m.removed
    else Registered(m.owner, c) && c.fd in m.registry && m.registry[c.fd] == Registration(0, true)
  }

  /** For EPollPoller: a removal needs an empty mask. */
  predicate EPollAllows(m: Model, op: Op) {
    var c := op.channel;
    if op.SetMask? then FreeOrOwn(m, c)
    else Registered(m.owner, c) && c.fd in m.registry && m.registry[c.fd].mask == 0
  }

  predicate PollLegal(m: Model, ops: seq<Op>)
    decreases |ops|
  {
    ops == [] || (PollAllows(m, ops[0]) && PollLegal(ApplyOp(m, ops[0]), ops[1..]))
  }

  predicate EPollLegal(m: Model, ops: seq<Op>)
    decreases |ops|
  {
    ops == [] || (EPollAllows(m, ops[0]) && EPollLegal(ApplyOp(m, ops[0]), ops[1..]))
  }

  lemma {:induction false} PollLegalIsEPollLegal(m: Model, ops: seq<Op>)
    requires PollLegal(m, ops)
    ensures EPollLegal(m, ops)
    decreases |ops|
  {
    if ops != [] { PollLegalIsEPollLegal(ApplyOp(m, ops[0]), ops[1..]); }
  }

  // ---- PollPoller -------------------------------------------------------------------------------

  /** `slots` holds the indexes of the registered channels, `kept` those left in removed ones. */
  datatype PollState = PollState(
    slots: Slots,
    owner: map<int, ChannelRef>,
    kept: map<ChannelRef, int>,
    events: map<ChannelRef, nat>,
    broken: bool)

  const PollEmpty := PollState(Slots([], map[]), map[], map[], map[], false)

  function IndexOf(s: PollState, c: ChannelRef): (i: int) {
    if Registered(s.owner, c) && c.fd in s.slots.index then s.slots.index[c.fd]
    else if c in s.kept then s.kept[c]
    else -1
  }

  function EventsOf(events: map<ChannelRef, nat>, c: ChannelRef): (mask: nat) {
    if c in events then events[c] else 0
  }

  /** updateChannel with its assertions */
  function PollUpdate(s: PollState, c: ChannelRef, mask: nat): (t: PollState) {
    var i, told := IndexOf(s, c), s.(events := s.events[c := mask]);
    if i < 0 then
      if c.fd in s.owner then told.(broken := true)
      else told.(slots := AddSlot(s.slots, c.fd, mask), owner := s.owner[c.fd := c])
    else if !Registered(s.owner, c) || i >= |s.slots.pollfds| then told.(broken := true)
    else if s.slots.pollfds[i].fd != c.fd && s.slots.pollfds[i].fd != -1 - c.fd then told.(broken := true)
    else told.(slots := RewriteSlot(s.slots, i, c.fd, mask))
  }

  /** removeChannel with its assertions; the lookup of the channel in the last slot must succeed too. */
  function PollRemove(s: PollState, c: ChannelRef): (t: PollState) {
    var i, pollfds := IndexOf(s, c), s.slots.pollfds;
    if !Registered(s.owner, c) || EventsOf(s.events, c) != 0 || i < 0 || i >= |pollfds| then s.(broken := true)
    else if pollfds[i] != PollFd(-1 - c.fd, EventsOf(s.events, c)) then s.(broken := true)
    else if i != |pollfds| - 1 && SlotOwner(pollfds[|pollfds| - 1]) !in s.owner then s.(broken := true)
    else s.(slots := DropSlot(s.slots, i, c.fd), owner := s.owner - {c.fd}, kept := s.kept[c := i])
  }

  function PollApply(s: PollState, op: Op): (t: PollState) {
    if s.broken then s
    else match op
      case SetMask(c, mask) => PollUpdate(s, c, mask)
      case Remove(c) => PollRemove(s, c)
  }

  function PollAfter(s: PollState, ops: seq<Op>): (t: PollState)
    decreases |ops|
  {
    if ops == [] then s else PollAfter(PollApply(s, ops[0]), ops[1..])
  }

  /** Owners and masks agree between a poller and the model. */
  predicate Agree(owner: map<int, ChannelRef>, events: map<ChannelRef, nat>, m: Model) {
    && owner == m.owner && m.owner.Keys == m.registry.Keys
    && forall fd :: fd in m.owner ==> m.owner[fd].fd == fd && EventsOf(events, m.owner[fd]) == m.registry[fd].mask
  }

  predicate PollInv(s: PollState, m: Model) {
    && !s.broken && Bijection(s.slots) && Encoded(s.slots) == m.registry && Agree(s.owner, s.events, m)
    && s.kept.Keys == m.removed && (forall c :: c in s.kept ==> s.kept[c] >= 0)
    && (forall fd :: fd in m.owner ==> m.owner[fd] !in m.removed)
  }

  lemma AgreeSet(owner: map<int, ChannelRef>, events: map<ChannelRef, nat>, m: Model, c: ChannelRef, mask: nat)
    requires Agree(owner, events, m) && FreeOrOwn(m, c)
    ensures Agree(owner[c.fd := c], events[c := mask], ApplyOp(m, SetMask(c, mask)))
  {
  }

  lemma AgreeRemove(owner: map<int, ChannelRef>, events: map<ChannelRef, nat>, m: Model, c: ChannelRef)
    requires Agree(owner, events, m) && Registered(owner, c)
    ensures Agree(owner - {c.fd}, events, ApplyOp(m, Remove(c)))
  {
  }

  /** The slot a registered channel's index names is its own. */
  lemma OwnSlot(s: PollState, m: Model, c: ChannelRef)
    requires PollInv(s, m)
    ensures Encoded(s.slots).Keys == s.slots.index.Keys == m.owner.Keys
    ensures Registered(m.owner, c) ==>
      var i := IndexOf(s, c);
      && c.fd in s.slots.index && i == s.slots.index[c.fd] && 0 <= i < |s.slots.pollfds|
      && SlotOwner(s.slots.pollfds[i]) == c.fd
      && m.registry[c.fd] == Registration(s.slots.pollfds[i].events, s.slots.pollfds[i].fd < 0)
  {
  }

  lemma PollUpdateStep(s: PollState, m: Model, c: ChannelRef, mask: nat)
    requires PollInv(s, m)
    ensures
      var t, op := PollUpdate(s, c, mask), SetMask(c, mask);
      if PollAllows(m, op) then PollInv(t, ApplyOp(m, op)) else t.broken
  {
    OwnSlot(s, m, c);
    if PollAllows(m, SetMask(c, mask)) {
      AgreeSet(s.owner, s.events, m, c, mask);
      hide Bijection, Encoded, Agree;
      if Registered(m.owner, c) {
        RewriteSlotKeeps(s.slots, c.fd, mask);
        assert s.owner[c.fd := c] == s.owner by { SameOwner(s.owner, c); OwnersAgree(s, m); }
      } else {
        AddSlotKeeps(s.slots, c.fd, mask);
      }
    }
  }

  lemma OwnersAgree(s: PollState, m: Model)
    requires PollInv(s, m)
    ensures s.owner == m.owner
  {
  }

  lemma SameOwner(owner: map<int, ChannelRef>, c: ChannelRef)
    requires Registered(owner, c)
    ensures owner[c.fd := c] == owner
  {
  }

  lemma PollRemoveStep(s: PollState, m: Model, c: ChannelRef)
    requires PollInv(s, m)
    ensures
      var t, op := PollRemove(s, c), Remove(c);
      if PollAllows(m, op) then PollInv(t, ApplyOp(m, op)) else t.broken
  {
    hide PollInv, PollRemove;
    if PollAllows(m, Remove(c)) { PollRemoveAllowed(s, m, c); } else { PollRemoveRefused(s, m, c); }
  }

  lemma PollRemoveRefused(s: PollState, m: Model, c: ChannelRef)
    requires PollInv(s, m) && !PollAllows(m, Remove(c))
    ensures PollRemove(s, c).broken
  {
    OwnSlot(s, m, c);
    OwnersAgree(s, m);
    hide Bijection, Encoded, DropSlot;
  }

  /** An allowed removal passes every assertion. */
  lemma PollRemovePasses(s: PollState, m: Model, c: ChannelRef)
    requires PollInv(s, m) && PollAllows(m, Remove(c))
    ensures c.fd in s.slots.index && 0 <= s.slots.index[c.fd] < |s.slots.pollfds|
    ensures
      var i := s.slots.index[c.fd];
      PollRemove(s, c) ==
      s.(slots := DropSlot(s.slots, i, c.fd), owner := s.owner - {c.fd}, kept := s.kept[c := i])
  {
    OwnSlot(s, m, c);
    OwnersAgree(s, m);
    LastSlot(s.slots, c.fd);
    hide Bijection, Encoded, DropSlot;
  }

  lemma PollRemoveAllowed(s: PollState, m: Model, c: ChannelRef)
    requires PollInv(s, m) && PollAllows(m, Remove(c))
    ensures PollInv(PollRemove(s, c), ApplyOp(m, Remove(c)))
  {
    PollRemovePasses(s, m, c);
    AgreeRemove(s.owner, s.events, m, c);
    DropSlotKeeps(s.slots, c.fd);
    hide Bijection, Encoded, DropSlot, PollRemove, Agree;
  }

  lemma {:induction false} PollRun(s: PollState, m: Model, ops: seq<Op>)
    requires PollInv(s, m)
    ensures if PollLegal(m, ops) then PollInv(PollAfter(s, ops), After(m, ops)) else PollAfter(s, ops).broken
    decreases |ops|
  {
    hide PollInv, PollUpdate, PollRemove, PollAllows, ApplyOp;
    if ops != [] {
      NotBroken(s, m);
      match ops[0] {
        case SetMask(c, mask) => PollUpdateStep(s, m, c, mask);
        case Remove(c) => PollRemoveStep(s, m, c);
      }
      var t := PollApply(s, ops[0]);
      if PollAllows(m, ops[0]) {
        PollRun(t, ApplyOp(m, ops[0]), ops[1..]);
      } else {
        StaysBroken(t, ops[1..]);
      }
    }
  }

  lemma NotBroken(s: PollState, m: Model)
    requires PollInv(s, m)
    ensures !s.broken
  {
  }

  lemma {:induction false} StaysBroken(s: PollState, ops: seq<Op>)
    requires s.broken
    ensures PollAfter(s, ops).broken
    decreases |ops|
  {
    if ops != [] { StaysBroken(PollApply(s, ops[0]), ops[1..]); }
  }

  // ---- EPollPoller ------------------------------------------------------------------------------

  datatype EPollState = EPollState(
    interest: Interest,
    owner: map<int, ChannelRef>,
    events: map<ChannelRef, nat>,
    broken: bool)

  const EPollEmpty := EPollState(Interest(map[], map[], false), map[], map[], false)

  /** removeChannel makes the channel new again, so only registered ones hold another index. */
  function EPollIndexOf(s: EPollState, c: ChannelRef): (i: int) {
    if Registered(s.owner, c) && c.fd in s.interest.index then s.interest.index[c.fd] else NEW
  }

  /** updateChannel with its assertions */
  function EPollUpdate(s: EPollState, c: ChannelRef, mask: nat): (t: EPollState) {
    var i, told := EPollIndexOf(s, c), s.(events := s.events[c := mask]);
    if i == NEW then
      if c.fd in s.owner then told.(broken := true)
      else told.(interest := EPollAdd(s.interest, c.fd, mask), owner := s.owner[c.fd := c])
    else if i == DELETED then told.(interest := EPollAdd(s.interest, c.fd, mask))
    else if i == ADDED then told.(interest := EPollChange(s.interest, c.fd, mask))
    else told.(broken := true)
  }

  /** removeChannel with its assertions */
  function EPollDrop(s: EPollState, c: ChannelRef): (t: EPollState) {
    var i := EPollIndexOf(s, c);
    if i == NEW || EventsOf(s.events, c) != 0 || (i != ADDED && i != DELETED) then s.(broken := true)
    else s.(interest := EPollRemove(s.interest, c.fd), owner := s.owner - {c.fd})
  }

  function EPollApply(s: EPollState, op: Op): (t: EPollState) {
    if s.broken then s
    else match op
      case SetMask(c, mask) => EPollUpdate(s, c, mask)
      case Remove(c) => EPollDrop(s, c)
  }

  function EPollAfter(s: EPollState, ops: seq<Op>): (t: EPollState)
    decreases |ops|
  {
    if ops == [] then s else EPollAfter(EPollApply(s, ops[0]), ops[1..])
  }

  function MasksOf(r: Registry): (m: map<int, nat>) {
    map fd | fd in r :: r[fd].mask
  }

  ghost predicate EPollInv(s: EPollState, m: Model) {
    !s.broken && Mirrors(s.interest) && Masks(s.interest) == MasksOf(m.registry) && Agree(s.owner, s.events, m)
  }

  lemma SameKeys(e: Interest, r: Registry)
    requires Masks(e) == MasksOf(r)
    ensures e.index.Keys == r.Keys
  {
    assert Masks(e).Keys == e.index.Keys && MasksOf(r).Keys == r.Keys;
  }

  lemma MasksSet(r: Registry, fd: int, reg: Registration)
    ensures MasksOf(r[fd := reg]) == MasksOf(r)[fd := reg.mask]
    ensures MasksOf(r - {fd}) == MasksOf(r) - {fd}
  {
  }

  lemma EPollUpdateStep(s: EPollState, m: Model, c: ChannelRef, mask: nat)
    requires EPollInv(s, m)
    ensures
      var t, op := EPollUpdate(s, c, mask), SetMask(c, mask);
      if EPollAllows(m, op) then EPollInv(t, ApplyOp(m, op)) else t.broken
  {
    SameKeys(s.interest, m.registry);
    StateNumbers(s.interest, c.fd);
    if EPollAllows(m, SetMask(c, mask)) {
      AgreeSet(s.owner, s.events, m, c, mask);
      MasksSet(m.registry, c.fd, Registration(mask, c.fd in m.registry && mask == 0));
      if EPollIndexOf(s, c) == ADDED {
        EPollChangeKeeps(s.interest, c.fd, mask);
      } else {
        EPollAddKeeps(s.interest, c.fd, mask);
      }
      if Registered(s.owner, c) { SameOwner(s.owner, c); }
      hide Mirrors, Masks, MasksOf, EPollAdd, EPollChange;
    }
  }

  lemma EPollRemoveStep(s: EPollState, m: Model, c: ChannelRef)
    requires EPollInv(s, m)
    ensures
      var t, op := EPollDrop(s, c), Remove(c);
      if EPollAllows(m, op) then EPollInv(t, ApplyOp(m, op)) else t.broken
  {
    SameKeys(s.interest, m.registry);
    StateNumbers(s.interest, c.fd);
    if EPollAllows(m, Remove(c)) {
      AgreeRemove(s.owner, s.events, m, c);
      MasksSet(m.registry, c.fd, Registration(0, false));
      EPollRemoveKeeps(s.interest, c.fd);
      hide Mirrors, Masks, MasksOf, EPollRemove;
    }
  }

  lemma {:induction false} EPollRun(s: EPollState, m: Model, ops: seq<Op>)
    requires EPollInv(s, m)
    ensures if EPollLegal(m, ops) then EPollInv(EPollAfter(s, ops), After(m, ops)) else EPollAfter(s, ops).broken
    decreases |ops|
  {
    hide EPollInv, EPollUpdate, EPollDrop, EPollAllows, ApplyOp;
    if ops != [] {
      EPollNotBroken(s, m);
      match ops[0] {
        case SetMask(c, mask) => EPollUpdateStep(s, m, c, mask);
        case Remove(c) => EPollRemoveStep(s, m, c);
      }
      var t := EPollApply(s, ops[0]);
      if EPollAllows(m, ops[0]) {
        EPollRun(t, ApplyOp(m, ops[0]), ops[1..]);
      } else {
        EPollStaysBroken(t, ops[1..]);
      }
    }
  }

  lemma EPollNotBroken(s: EPollState, m: Model)
    requires EPollInv(s, m)
    ensures !s.broken
  {
  }

  lemma {:induction false} EPollStaysBroken(s: EPollState, ops: seq<Op>)
    requires s.broken
    ensures EPollAfter(s, ops).broken
    decreases |ops|
  {
    if ops != [] { EPollStaysBroken(EPollApply(s, ops[0]), ops[1..]); }
  }

  // ---- results ------------------------------------------------------------------------------------

  /**
   No assertion of PollPoller fails along a sequence of calls if and only if it never registers a descriptor held by
   another channel, never updates a removed channel and removes a channel only after an update emptied its mask.
   */
  lemma PollAssertionsIff(ops: seq<Op>)
    ensures !PollAfter(PollEmpty, ops).broken <==> PollLegal(Empty, ops)
  {
    hide PollLegal, PollAfter, After;
    EmptyAgrees();
    PollRun(PollEmpty, Empty, ops);
    if PollLegal(Empty, ops) { NotBroken(PollAfter(PollEmpty, ops), After(Empty, ops)); }
  }

  lemma EmptyAgrees()
    ensures PollInv(PollEmpty, Empty) && EPollInv(EPollEmpty, Empty)
  {
    assert Encoded(PollEmpty.slots) == map[];
    assert Masks(EPollEmpty.interest) == MasksOf(map[]);
  }

  /**
   For EPollPoller the last two are no conditions: a removed channel may return, and an empty first mask is enough.
   */
  lemma EPollAssertionsIff(ops: seq<Op>)
    ensures !EPollAfter(EPollEmpty, ops).broken <==> EPollLegal(Empty, ops)
    ensures EPollLegal(Empty, ops) ==> !EPollAfter(EPollEmpty, ops).interest.refused
  {
    hide EPollLegal, EPollAfter, After;
    EmptyAgrees();
    EPollRun(EPollEmpty, Empty, ops);
    if EPollLegal(Empty, ops) { EPollNotBroken(EPollAfter(EPollEmpty, ops), After(Empty, ops)); }
  }

  /**
   On every sequence that PollPoller's assertions allow, slots stay in bijection with the registered channels, every
   epoll request is one the kernel accepts, and both pollers watch the same descriptors for the same events.
   */
  lemma BothWatchTheSame(ops: seq<Op>)
    requires PollLegal(Empty, ops)
    ensures
      var s, e := PollAfter(PollEmpty, ops).slots, EPollAfter(EPollEmpty, ops).interest;
      && Bijection(s) && Mirrors(e)
      && Watched(Encoded(s)) == (map fd | fd in e.kernel && e.kernel[fd] != 0 :: e.kernel[fd])
  {
    hide PollLegal, EPollLegal, PollAfter, EPollAfter, After;
    EmptyAgrees();
    PollLegalIsEPollLegal(Empty, ops);
    PollRun(PollEmpty, Empty, ops);
    EPollRun(EPollEmpty, Empty, ops);
    SameWatch(EPollAfter(EPollEmpty, ops).interest, After(Empty, ops).registry);
  }

  lemma SameWatch(e: Interest, r: Registry)
    requires Mirrors(e) && Masks(e) == MasksOf(r)
    ensures Watched(r) == map fd | fd in e.kernel && e.kernel[fd] != 0 :: e.kernel[fd]
  {
    SameKeys(e, r);
    var a, b := Watched(r), map fd | fd in e.kernel && e.kernel[fd] != 0 :: e.kernel[fd];
    forall fd | fd in r ensures Masks(e)[fd] == MasksOf(r)[fd] == r[fd].mask && (fd in a <==> fd in b) {
      assert fd in e.index;
    }
    assert forall fd :: fd in b ==> fd in e.index.Keys;
    assert a.Keys == b.Keys;
  }

  lemma Refused(m: Model, ops: seq<Op>)
    requires ops != [] && !PollAllows(m, ops[0])
    ensures !PollLegal(m, ops)
  {
  }

  lemma Passed(m: Model, ops: seq<Op>)
    requires ops != []
    ensures PollAllows(m, ops[0]) ==> (PollLegal(m, ops) <==> PollLegal(ApplyOp(m, ops[0]), ops[1..]))
    ensures EPollAllows(m, ops[0]) ==> (EPollLegal(m, ops) <==> EPollLegal(ApplyOp(m, ops[0]), ops[1..]))
  {
  }

  /**
   A channel that is registered, emptied, removed and registered again is fine for EPollPoller and breaks PollPoller.
   */
  lemma ReturningChannel(c: ChannelRef, mask: nat)
    ensures
      var ops := [SetMask(c, mask), SetMask(c, 0), Remove(c), SetMask(c, mask)];
      !EPollAfter(EPollEmpty, ops).broken && PollAfter(PollEmpty, ops).broken
  {
    hide PollLegal, EPollLegal, PollAfter, EPollAfter;
    var ops := [SetMask(c, mask), SetMask(c, 0), Remove(c), SetMask(c, mask)];
    var m1 := ApplyOp(Empty, ops[0]);
    var m2 := ApplyOp(m1, ops[1]);
    var m3 := ApplyOp(m2, ops[2]);
    assert c in m3.removed && c.fd !in m3.owner;
    assert ops[1..][0] == ops[1] && ops[1..][1..] == ops[2..] && ops[2..][1..] == ops[3..] && ops[3..][1..] == [];
    Passed(Empty, ops);
    Passed(m1, ops[1..]);
    Passed(m2, ops[2..]);
    Passed(m3, ops[3..]);
    Refused(m3, ops[3..]);
    NothingLeft(ApplyOp(m3, ops[3]));
    EPollAssertionsIff(ops);
    PollAssertionsIff(ops);
  }

  lemma NothingLeft(m: Model)
    ensures PollLegal(m, []) && EPollLegal(m, [])
  {
  }

  /** A channel first registered with an empty mask can be removed from EPollPoller and breaks PollPoller. */
  lemma EmptyFirstMask(c: ChannelRef)
    ensures
      var ops := [SetMask(c, 0), Remove(c)];
      !EPollAfter(EPollEmpty, ops).broken && PollAfter(PollEmpty, ops).broken
  {
    hide PollLegal, EPollLegal, PollAfter, EPollAfter;
    var ops := [SetMask(c, 0), Remove(c)];
    var m1 := ApplyOp(Empty, ops[0]);
    assert ops[1..][0] == ops[1] && ops[1..][1..] == [];
    Passed(Empty, ops);
    Passed(m1, ops[1..]);
    Refused(m1, ops[1..]);
    NothingLeft(ApplyOp(m1, ops[1]));
    EPollAssertionsIff(ops);
    PollAssertionsIff(ops);
  }
}
