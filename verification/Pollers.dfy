/**
 The two pollers (net/poller/PollPoller.cc, net/poller/EPollPoller.cc) over channels (net/Channel.h): the slot vector
 and the kernel's interest set, against one abstract registry of descriptors and event masks. Which calls their
 assertions allow is the subject of module PollerRuns.
 */
module Pollers {

  // ---- the registry ----------------------------------------------------------------------------

  /** A registration: its mask, and whether an update of the registered channel, not the first one, emptied it. */
  datatype Registration = Registration(mask: nat, parked: bool)

  type Registry = map<int, Registration>

  /** The descriptors watched for something. */
  function Watched(r: Registry): (m: map<int, nat>) {
    map fd | fd in r && r[fd].mask != 0 :: r[fd].mask
  }

  // ---- PollPoller: slots and indexes -------------------------------------------------------------

  datatype PollFd = PollFd(fd: int, events: nat)

  /** The slot vector, and the index each registered channel holds. */
  datatype Slots = Slots(pollfds: seq<PollFd>, index: map<int, int>)

  /** The descriptor a slot belongs to: ignored slots carry -fd-1. */
  function SlotOwner(slot: PollFd): (fd: int) {
    if slot.fd < 0 then -slot.fd - 1 else slot.fd
  }

  /** Each registered channel's index points at its own slot, and each slot belongs to the channel pointing at it. */
  predicate Bijection(s: Slots) {
    && (forall fd :: fd in s.index ==>
      fd >= 0 && 0 <= s.index[fd] < |s.pollfds| && SlotOwner(s.pollfds[s.index[fd]]) == fd)
    && (forall i :: 0 <= i < |s.pollfds| ==>
      SlotOwner(s.pollfds[i]) in s.index && s.index[SlotOwner(s.pollfds[i])] == i)
    && (forall i :: 0 <= i < |s.pollfds| && s.pollfds[i].fd < 0 ==> s.pollfds[i].events == 0)
  }

  /** The registry the slots encode. */
  function Encoded(s: Slots): (r: Registry)
    requires Bijection(s)
  {
    map fd | fd in s.index :: Registration(s.pollfds[s.index[fd]].events, s.pollfds[s.index[fd]].fd < 0)
  }

  /** updateChannel of a channel with a negative index: a new slot at the end, not negated for an empty mask. */
  function AddSlot(s: Slots, fd: int, mask: nat): (t: Slots) {
    Slots(s.pollfds + [PollFd(fd, mask)], s.index[fd := |s.pollfds|])
  }

  /** updateChannel of a channel with index i: its slot rewritten, negated when the mask is empty. */
  function RewriteSlot(s: Slots, i: int, fd: int, mask: nat): (t: Slots)
    requires 0 <= i < |s.pollfds|
  {
    s.(pollfds := s.pollfds[i := PollFd(if mask == 0 then -fd - 1 else fd, mask)])
  }

  /** removeChannel of a channel with index i: the last slot moves into the freed place. */
  function DropSlot(s: Slots, i: int, fd: int): (t: Slots)
    requires 0 <= i < |s.pollfds|
  {
    var last := |s.pollfds| - 1;
    if i == last then Slots(s.pollfds[..last], s.index - {fd})
    else
      var moved := SlotOwner(s.pollfds[last]);
      Slots(s.pollfds[i := s.pollfds[last]][..last], s.index[moved := i] - {fd})
  }

  lemma AddSlotKeeps(s: Slots, fd: int, mask: nat)
    requires Bijection(s) && fd >= 0 && fd !in s.index
    ensures var t := AddSlot(s, fd, mask); Bijection(t) && Encoded(t) == Encoded(s)[fd := Registration(mask, false)]
  {
    var t := AddSlot(s, fd, mask);
    assert forall i :: 0 <= i < |s.pollfds| ==> t.pollfds[i] == s.pollfds[i];
    assert Bijection(t);
    var before, after := Encoded(s)[fd := Registration(mask, false)], Encoded(t);
    assert after.Keys == before.Keys;
    assert forall g :: g in after ==> after[g] == before[g];
  }

  lemma RewriteSlotKeeps(s: Slots, fd: int, mask: nat)
    requires Bijection(s) && fd in s.index
    ensures
      var t := RewriteSlot(s, s.index[fd], fd, mask);
      Bijection(t) && Encoded(t) == Encoded(s)[fd := Registration(mask, mask == 0)]
  {
    var t := RewriteSlot(s, s.index[fd], fd, mask);
    assert SlotOwner(t.pollfds[t.index[fd]]) == fd;
    assert Bijection(t);
    var before, after := Encoded(s)[fd := Registration(mask, mask == 0)], Encoded(t);
    assert after.Keys == before.Keys;
    forall g | g in after ensures after[g] == before[g] {
      if g != fd { assert SlotOwner(s.pollfds[s.index[g]]) == g; }
    }
  }

  /** Where the surviving descriptors' slots are after the swap with the last one. */
  lemma RemovedSlots(s: Slots, fd: int)
    requires Bijection(s) && fd in s.index
    ensures
      var t := DropSlot(s, s.index[fd], fd);
      && t.index.Keys == s.index.Keys - {fd}
      && (forall g :: g in t.index ==> 0 <= t.index[g] < |t.pollfds| && t.pollfds[t.index[g]] == s.pollfds[s.index[g]])
  {
    var i, last := s.index[fd], |s.pollfds| - 1;
    var moved, t := SlotOwner(s.pollfds[last]), DropSlot(s, s.index[fd], fd);
    assert s.index[moved] == last;
    forall g | g in t.index ensures 0 <= t.index[g] < |t.pollfds| && t.pollfds[t.index[g]] == s.pollfds[s.index[g]] {
      assert g in s.index && g != fd && SlotOwner(s.pollfds[s.index[g]]) == g;
    }
  }

  lemma RemovedOwners(s: Slots, fd: int)
    requires Bijection(s) && fd in s.index
    ensures
      var t := DropSlot(s, s.index[fd], fd);
      && (forall k :: 0 <= k < |t.pollfds| ==>
        SlotOwner(t.pollfds[k]) in t.index && t.index[SlotOwner(t.pollfds[k])] == k)
      && (forall k :: 0 <= k < |t.pollfds| && t.pollfds[k].fd < 0 ==> t.pollfds[k].events == 0)
  {
    var i, last := s.index[fd], |s.pollfds| - 1;
    var t := DropSlot(s, s.index[fd], fd);
    forall k | 0 <= k < |t.pollfds|
      ensures SlotOwner(t.pollfds[k]) in t.index && t.index[SlotOwner(t.pollfds[k])] == k
      ensures t.pollfds[k].fd < 0 ==> t.pollfds[k].events == 0
    {
      var from := if k == i then last else k;
      assert t.pollfds[k] == s.pollfds[from] && s.index[SlotOwner(s.pollfds[from])] == from;
    }
  }

  lemma DropSlotKeeps(s: Slots, fd: int)
    requires Bijection(s) && fd in s.index
    ensures var t := DropSlot(s, s.index[fd], fd); Bijection(t) && Encoded(t) == Encoded(s) - {fd}
  {
    RemovedSlots(s, fd);
    RemovedOwners(s, fd);
    hide DropSlot;
    var t := DropSlot(s, s.index[fd], fd);
    assert forall g :: g in t.index ==> g in s.index;
    assert Bijection(t);
    var before, after := Encoded(s) - {fd}, Encoded(t);
    assert after.Keys == before.Keys;
    assert forall g :: g in after ==> after[g] == before[g];
  }

  // ---- EPollPoller: channel states and the kernel's set ------------------------------------------

  const NEW: int := -1
  const ADDED: int := 1
  const DELETED: int := 2

  datatype Control = CtlAdd | CtlMod | CtlDel

  /** The state number of each registered channel, the kernel's interest set, and whether the kernel ever refused. */
  datatype Interest = Interest(index: map<int, int>, kernel: map<int, nat>, refused: bool)

  /** epoll_ctl: ADD needs an absent descriptor, MOD and DEL a present one. */
  function EpollCtl(s: Interest, op: Control, fd: int, mask: nat): (t: Interest) {
    match op
    case CtlAdd => if fd in s.kernel then s.(refused := true) else s.(kernel := s.kernel[fd := mask])
    case CtlMod => if fd in s.kernel then s.(kernel := s.kernel[fd := mask]) else s.(refused := true)
    case CtlDel => if fd in s.kernel then s.(kernel := s.kernel - {fd}) else s.(refused := true)
  }

  /** updateChannel of a channel that is new or was deleted from the kernel's set. */
  function EPollAdd(s: Interest, fd: int, mask: nat): (t: Interest) {
    EpollCtl(s.(index := s.index[fd := ADDED]), CtlAdd, fd, mask)
  }

  /** updateChannel of a channel in the kernel's set. */
  function EPollChange(s: Interest, fd: int, mask: nat): (t: Interest) {
    if mask == 0 then EpollCtl(s, CtlDel, fd, mask).(index := s.index[fd := DELETED])
    else EpollCtl(s, CtlMod, fd, mask)
  }

  function EPollRemove(s: Interest, fd: int): (t: Interest)
    requires fd in s.index
  {
    var u := s.(index := s.index - {fd});
    if s.index[fd] == ADDED then EpollCtl(u, CtlDel, fd, 0) else u
  }

  /** A channel is in the kernel's set exactly while its state is ADDED, and no request was refused. */
  ghost predicate Mirrors(s: Interest) {
    && !s.refused
    && (forall fd :: fd in s.index ==> s.index[fd] == ADDED || s.index[fd] == DELETED)
    && (forall fd :: fd in s.kernel <==> fd in s.index && s.index[fd] == ADDED)
  }

  /** Mask of each registered descriptor; a deleted one has none. */
  function Masks(s: Interest): (m: map<int, nat>) {
    map fd | fd in s.index :: if fd in s.kernel then s.kernel[fd] else 0
  }

  lemma EPollAddKeeps(s: Interest, fd: int, mask: nat)
    requires Mirrors(s) && (fd in s.index ==> s.index[fd] == DELETED)
    ensures var t := EPollAdd(s, fd, mask); Mirrors(t) && Masks(t) == Masks(s)[fd := mask]
  {
    var t := EPollAdd(s, fd, mask);
    assert t.index.Keys == s.index.Keys + {fd};
    assert forall g :: g != fd ==> (g in t.kernel <==> g in s.kernel);
    var before, after := Masks(s)[fd := mask], Masks(t);
    assert after.Keys == before.Keys;
    assert forall g :: g in after ==> after[g] == before[g];
  }

  lemma EPollChangeKeeps(s: Interest, fd: int, mask: nat)
    requires Mirrors(s) && fd in s.index && s.index[fd] == ADDED
    ensures var t := EPollChange(s, fd, mask); Mirrors(t) && Masks(t) == Masks(s)[fd := mask]
  {
    var t := EPollChange(s, fd, mask);
    assert t.index.Keys == s.index.Keys;
    assert forall g :: g != fd ==> (g in t.kernel <==> g in s.kernel);
    var before, after := Masks(s)[fd := mask], Masks(t);
    assert after.Keys == before.Keys;
    assert forall g :: g in after ==> after[g] == before[g];
  }

  lemma EPollRemoveKeeps(s: Interest, fd: int)
    requires Mirrors(s) && fd in s.index
    ensures var t := EPollRemove(s, fd); Mirrors(t) && Masks(t) == Masks(s) - {fd}
  {
    var t := EPollRemove(s, fd);
    var before, after := Masks(s) - {fd}, Masks(t);
    assert after.Keys == before.Keys;
    assert forall g :: g in after ==> after[g] == before[g];
  }

  // ---- the objects -------------------------------------------------------------------------------

  /** Channel: the poller keeps its own number in `index`, -1 at first. */
  class Channel {
    const fd: int
    var events: nat
    var revents: nat
    var index: int

    constructor (fd: int)
      ensures this.fd == fd && events == 0 && revents == 0 && index == -1
    {
      this.fd := fd;
      events, revents, index := 0, 0, -1;
    }
  }

  lemma LastSlot(s: Slots, fd: int)
    requires Bijection(s) && fd in s.index
    ensures 0 <= s.index[fd] < |s.pollfds|
    ensures var moved := SlotOwner(s.pollfds[|s.pollfds| - 1]); moved in s.index && s.index[moved] == |s.pollfds| - 1
    ensures Encoded(s)[fd] == Registration(0, true) ==> s.pollfds[s.index[fd]] == PollFd(-fd - 1, 0)
  {
  }

  class PollPoller {
    var pollfds: seq<PollFd>
    var channels: map<int, Channel>

    /** The slots, and the indexes found in the registered channels. */
    ghost function View(): (s: Slots)
      reads this, channels.Values`index
    {
      Slots(pollfds, map fd | fd in channels :: channels[fd].index)
    }

    ghost predicate Valid()
      reads this, channels.Values`index
    {
      (forall fd :: fd in channels ==> channels[fd].fd == fd) && Bijection(View())
    }

    constructor ()
      ensures Valid() && View() == Slots([], map[])
    {
      pollfds, channels := [], map[];
    }

    /** updateChannel; the assertions of the source on a known channel are preconditions. */
    method UpdateChannel(channel: Channel)
      requires Valid() && channel.fd >= 0
      requires channel.index < 0 ==> channel.fd !in channels && channel !in channels.Values
      requires channel.index >= 0 ==> channel.fd in channels && channels[channel.fd] == channel
      modifies this, channel`index
      ensures Valid()
      ensures View() == if old(channel.index) < 0 then AddSlot(old(View()), channel.fd, channel.events)
                        else RewriteSlot(old(View()), old(View()).index[channel.fd], channel.fd, channel.events)
      ensures channels == old(channels)[channel.fd := channel]
    {
      ghost var s := View();
      if channel.index < 0 {
        AddSlotKeeps(s, channel.fd, channel.events);
        hide Bijection, Encoded;
        pollfds := pollfds + [PollFd(channel.fd, channel.events)];
        channel.index := |pollfds| - 1;
        channels := channels[channel.fd := channel];
        assert View().index == s.index[channel.fd := |s.pollfds|];
      } else {
        RewriteSlotKeeps(s, channel.fd, channel.events);
        var idx := channel.index;
        assert idx == s.index[channel.fd];
        if channel.events == 0 {
          pollfds := pollfds[idx := PollFd(-channel.fd - 1, 0)];
        } else {
          pollfds := pollfds[idx := PollFd(channel.fd, channel.events)];
        }
        hide Bijection, Encoded;
        assert View().index == s.index;
        assert channels == old(channels)[channel.fd := channel];
      }
    }

    /** removeChannel: the removed channel keeps its old index, so the object cannot be registered again. */
    method RemoveChannel(channel: Channel)
      requires Valid() && channel.fd in channels && channels[channel.fd] == channel
      requires Encoded(View())[channel.fd] == Registration(0, true)
      modifies this, channels.Values`index
      ensures Valid() && View() == DropSlot(old(View()), old(View()).index[channel.fd], channel.fd)
      ensures channels == old(channels) - {channel.fd} && channel.index == old(channel.index) >= 0
    {
      ghost var s := View();
      DropSlotKeeps(s, channel.fd);
      LastSlot(s, channel.fd);
      assert channel.index == s.index[channel.fd];
      hide Bijection, Encoded, DropSlot;
      ReleaseSlot(channel, s);
    }

    /** removeChannel after its assertions */
    method ReleaseSlot(channel: Channel, ghost s: Slots)
      requires s == View() && channel.fd in channels && channels[channel.fd] == channel
      requires forall f :: f in channels ==> channels[f].fd == f
      requires 0 <= channel.index < |pollfds|
      requires
        var moved := SlotOwner(pollfds[|pollfds| - 1]);
        moved in channels && channels[moved].index == |pollfds| - 1
      modifies this, channels.Values`index
      ensures View() == DropSlot(s, old(channel.index), channel.fd) && channel.index == old(channel.index)
      ensures channels == old(channels) - {channel.fd}
    {
      var idx, last := channel.index, |pollfds| - 1;
      var channelAtEnd := SlotOwner(pollfds[last]);
      channels := channels - {channel.fd};
      if idx == last {
        pollfds := pollfds[..last];
        assert View().index == s.index - {channel.fd};
      } else {
        pollfds := pollfds[idx := pollfds[last]];
        var moved := channels[channelAtEnd];
        moved.index := idx;
        pollfds := pollfds[..last];
        ghost var t := s.index[channelAtEnd := idx] - {channel.fd};
        assert channels.Keys == t.Keys;
        forall g | g in channels ensures channels[g].index == t[g] {
          if g != channelAtEnd { assert channels[g].fd != moved.fd; }
        }
        assert View().index == t;
      }
    }

    /**
     fillActiveChannels: the channels of the slots with events, in slot order, each told its events; the lookups
     asserted always succeed.
     */
    method FillActiveChannels(revents: seq<nat>, numEvents: nat) returns (active: seq<Channel>)
      requires Valid() && |revents| == |pollfds|
      requires forall i :: 0 <= i < |revents| && pollfds[i].fd < 0 ==> revents[i] == 0
      requires numEvents == |Signalled(pollfds, revents)|
      modifies channels.Values`revents
      ensures Found(active, Signalled(pollfds, revents)) && Told(revents, |pollfds|)
    {
      hide Bijection, Signalled;
      SlotsKnown(View());
      assert forall i :: 0 <= i < |pollfds| && pollfds[i].fd >= 0 ==> pollfds[i].fd in channels;
      active := [];
      var i := 0;
      SignalledEmpty(pollfds, revents);
      while i < |pollfds| && |active| < numEvents
        invariant 0 <= i <= |pollfds| && |active| <= numEvents
        invariant Found(active, Signalled(pollfds[..i], revents[..i])) && Told(revents, i)
      {
        SignalledStep(pollfds, revents, i);
        SignalledShorter(pollfds, revents, i + 1);
        if revents[i] > 0 {
          var channel := channels[pollfds[i].fd];
          channel.revents := revents[i];
          active := active + [channel];
        }
        i := i + 1;
      }
      SignalledRest(pollfds, revents, i);
    }

    /** The registered channels of these descriptors, in order. */
    ghost predicate Found(active: seq<Channel>, fds: seq<int>)
      reads this
    {
      |active| == |fds| && forall k :: 0 <= k < |fds| ==> fds[k] in channels && channels[fds[k]] == active[k]
    }

    /** The channels of the first n slots with events hold them. */
    ghost predicate Told(revents: seq<nat>, n: nat)
      requires n <= |revents| == |pollfds|
      reads this, channels.Values`revents
    {
      forall i :: 0 <= i < n && revents[i] > 0 ==>
        pollfds[i].fd in channels && channels[pollfds[i].fd].revents == revents[i]
    }
  }

  lemma SlotsKnown(s: Slots)
    requires Bijection(s)
    ensures forall i :: 0 <= i < |s.pollfds| ==> SlotOwner(s.pollfds[i]) in s.index
    ensures forall i, j :: 0 <= i < j < |s.pollfds| ==> s.pollfds[i].fd != s.pollfds[j].fd
  {
    forall i, j | 0 <= i < j < |s.pollfds| ensures s.pollfds[i].fd != s.pollfds[j].fd {
      assert s.index[SlotOwner(s.pollfds[j])] == j && s.index[SlotOwner(s.pollfds[i])] == i;
    }
  }

  lemma {:induction false} SignalledNone(slots: seq<PollFd>, revents: seq<nat>)
    requires |slots| == |revents|
    ensures Signalled(slots, revents) == [] ==> forall j :: 0 <= j < |revents| ==> revents[j] == 0
  {
    if slots != [] {
      SignalledNone(slots[1..], revents[1..]);
      assert forall j :: 1 <= j < |revents| ==> revents[j] == revents[1..][j - 1];
    }
  }

  lemma SignalledEmpty(slots: seq<PollFd>, revents: seq<nat>)
    requires |slots| == |revents|
    ensures slots[..0] == [] && revents[..0] == [] && slots[0..] == slots && revents[0..] == revents
    ensures Signalled(slots[..0], revents[..0]) == []
  {
  }

  /** Descriptors of the slots with events, in slot order. */
  function Signalled(slots: seq<PollFd>, revents: seq<nat>): (fds: seq<int>)
    requires |slots| == |revents|
  {
    if slots == [] then []
    else (if revents[0] > 0 then [slots[0].fd] else []) + Signalled(slots[1..], revents[1..])
  }

  lemma {:induction false} SignalledSnoc(slots: seq<PollFd>, revents: seq<nat>, slot: PollFd, ev: nat)
    requires |slots| == |revents|
    ensures Signalled(slots + [slot], revents + [ev]) == Signalled(slots, revents) + if ev > 0 then [slot.fd] else []
  {
    if slots == [] {
      assert [slot][1..] == [] && [ev][1..] == [];
      assert slots + [slot] == [slot] && revents + [ev] == [ev];
    } else {
      assert (slots + [slot])[1..] == slots[1..] + [slot] && (revents + [ev])[1..] == revents[1..] + [ev];
      SignalledSnoc(slots[1..], revents[1..], slot, ev);
    }
  }

  lemma SignalledStep(slots: seq<PollFd>, revents: seq<nat>, i: nat)
    requires |slots| == |revents| && i < |slots|
    ensures
      Signalled(slots[..i + 1], revents[..i + 1]) ==
      Signalled(slots[..i], revents[..i]) + if revents[i] > 0 then [slots[i].fd] else []
  {
    assert slots[..i + 1] == slots[..i] + [slots[i]] && revents[..i + 1] == revents[..i] + [revents[i]];
    SignalledSnoc(slots[..i], revents[..i], slots[i], revents[i]);
  }

  lemma {:induction false} SignalledSplit(slots: seq<PollFd>, revents: seq<nat>, i: nat)
    requires |slots| == |revents| && i <= |slots|
    ensures
      Signalled(slots, revents) == Signalled(slots[..i], revents[..i]) + Signalled(slots[i..], revents[i..])
    decreases i
  {
    if i == 0 {
      assert slots[0..] == slots && revents[0..] == revents;
    } else {
      SignalledSplit(slots[1..], revents[1..], i - 1);
      assert slots[..i][1..] == slots[1..][..i - 1] && revents[..i][1..] == revents[1..][..i - 1];
      assert slots[1..][i - 1..] == slots[i..] && revents[1..][i - 1..] == revents[i..];
    }
  }

  lemma SignalledShorter(slots: seq<PollFd>, revents: seq<nat>, i: nat)
    requires |slots| == |revents| && i <= |slots|
    ensures |Signalled(slots[..i], revents[..i])| <= |Signalled(slots, revents)|
  {
    SignalledSplit(slots, revents, i);
  }

  /** Once all events are found, or all slots seen, the slots left have none. */
  lemma SignalledRest(slots: seq<PollFd>, revents: seq<nat>, i: nat)
    requires |slots| == |revents| && i <= |slots|
    requires i == |slots| || |Signalled(slots[..i], revents[..i])| >= |Signalled(slots, revents)|
    ensures Signalled(slots[..i], revents[..i]) == Signalled(slots, revents)
    ensures forall j :: i <= j < |revents| ==> revents[j] == 0
  {
    hide Signalled;
    SignalledSplit(slots, revents, i);
    if i == |slots| {
      assert slots[..i] == slots && revents[..i] == revents;
    } else {
      SignalledNone(slots[i..], revents[i..]);
      assert forall j :: i <= j < |revents| ==> revents[j] == revents[i..][j - i];
    }
  }

  lemma StateNumbers(s: Interest, fd: int)
    requires Mirrors(s)
    ensures fd in s.kernel <==> fd in s.index && s.index[fd] == ADDED
    ensures fd in s.index ==> s.index[fd] == ADDED || s.index[fd] == DELETED
  {
  }

  class EPollPoller {
    var channels: map<int, Channel>
    var kernel: map<int, nat>
    var refused: bool

    /** The states found in the registered channels, the kernel's set, and whether it refused a request. */
    ghost function View(): (s: Interest)
      reads this, channels.Values`index
    {
      Interest(map fd | fd in channels :: channels[fd].index, kernel, refused)
    }

    ghost predicate Valid()
      reads this, channels.Values`index
    {
      (forall fd :: fd in channels ==> channels[fd].fd == fd) && Mirrors(View())
    }

    constructor ()
      ensures Valid() && View() == Interest(map[], map[], false)
    {
      channels, kernel, refused := map[], map[], false;
    }

    /** update: a request the kernel refuses changes nothing and is logged. */
    method Update(operation: Control, channel: Channel)
      modifies this`kernel, this`refused
      ensures View() == EpollCtl(old(View()), operation, channel.fd, channel.events)
    {
      var present := channel.fd in kernel;
      match operation
      case CtlAdd => if present { refused := true; } else { kernel := kernel[channel.fd := channel.events]; }
      case CtlMod => if present { kernel := kernel[channel.fd := channel.events]; } else { refused := true; }
      case CtlDel => if present { kernel := kernel - {channel.fd}; } else { refused := true; }
    }

    /** updateChannel */
    method UpdateChannel(channel: Channel)
      requires Valid()
      requires channel.index == NEW ==> channel.fd !in channels && channel !in channels.Values
      requires channel.index != NEW ==> channel.fd in channels && channels[channel.fd] == channel
      modifies this, channel`index
      ensures Valid()
      ensures View() == if old(channel.index) == ADDED then EPollChange(old(View()), channel.fd, channel.events)
                        else EPollAdd(old(View()), channel.fd, channel.events)
      ensures channels == old(channels)[channel.fd := channel]
    {
      ghost var s := View();
      StateNumbers(s, channel.fd);
      if channel.index == ADDED {
        EPollChangeKeeps(s, channel.fd, channel.events);
      } else {
        EPollAddKeeps(s, channel.fd, channel.events);
      }
      hide Mirrors;
      assert forall g :: g in channels && g != channel.fd ==> channels[g] != channel;
      var index := channel.index;
      assert index != NEW ==> index == s.index[channel.fd];
      if index == NEW || index == DELETED {
        AddToKernel(channel, s);
      } else {
        assert channels == old(channels)[channel.fd := channel];
        ModifyOrDelete(channel, s);
      }
    }

    /** The branch of updateChannel for a new or deleted channel. */
    method AddToKernel(channel: Channel, ghost s: Interest)
      requires s == View() && channel.fd !in kernel && (channel.index == NEW || channel.index == DELETED)
      requires
        if channel.index == NEW then channel.fd !in s.index
        else channel.fd in s.index && channels[channel.fd] == channel
      requires channel.index == DELETED ==> s.index[channel.fd] == DELETED
      requires forall g :: g in channels && g != channel.fd ==> channels[g] != channel
      modifies this, channel`index
      ensures View() == EPollAdd(s, channel.fd, channel.events)
      ensures channels == old(channels)[channel.fd := channel]
    {
      if channel.index == NEW {
        channels := channels[channel.fd := channel];
      }
      channel.index := ADDED;
      Update(CtlAdd, channel);
      assert channels == old(channels)[channel.fd := channel];
      assert channels.Keys == s.index.Keys + {channel.fd};
      assert forall g :: g in channels ==> channels[g].index == s.index[channel.fd := ADDED][g];
      assert View().index == s.index[channel.fd := ADDED];
    }

    /** The branch of updateChannel for a channel in the kernel's set. */
    method ModifyOrDelete(channel: Channel, ghost s: Interest)
      requires s == View() && channel.fd in s.index && s.index[channel.fd] == ADDED && channel.fd in kernel
      requires channels[channel.fd] == channel
      requires forall g :: g in channels && g != channel.fd ==> channels[g] != channel
      modifies this`kernel, this`refused, channel`index
      ensures View() == EPollChange(s, channel.fd, channel.events)
    {
      if channel.events == 0 {
        Update(CtlDel, channel);
        channel.index := DELETED;
        assert channels.Keys == s.index.Keys;
        assert forall g :: g in channels ==> channels[g].index == s.index[channel.fd := DELETED][g];
        assert View().index == s.index[channel.fd := DELETED];
      } else {
        Update(CtlMod, channel);
        assert View().index == s.index;
      }
    }

    /** removeChannel: the channel is new again. */
    method RemoveChannel(channel: Channel)
      requires Valid() && channel.fd in channels && channels[channel.fd] == channel
      modifies this, channel`index
      ensures Valid() && View() == EPollRemove(old(View()), channel.fd)
      ensures channels == old(channels) - {channel.fd} && channel.index == NEW
    {
      ghost var s := View();
      EPollRemoveKeeps(s, channel.fd);
      assert forall g :: g in channels && g != channel.fd ==> channels[g] != channel;
      var index := channel.index;
      assert index == s.index[channel.fd];
      channels := channels - {channel.fd};
      if index == ADDED {
        Update(CtlDel, channel);
      }
      channel.index := NEW;
      assert View().index == s.index - {channel.fd};
    }
  }
}
