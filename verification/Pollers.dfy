/**
  Two representations of one interest map, from file descriptors to event masks:
  PollPoller's dense array with back-indices, and EPollPoller's three-state index
  over the set the kernel keeps.
*/
module Pollers {

  type Mask = bv16

  const POLLIN: Mask := 1
  const POLLPRI: Mask := 2
  const POLLOUT: Mask := 4
  const NONE_EVENT: Mask := 0
  const READ_EVENT: Mask := POLLIN | POLLPRI
  const WRITE_EVENT: Mask := POLLOUT

  datatype Op = EnableReading | DisableReading | EnableWriting | DisableWriting | DisableAll

  function Apply(events: Mask, op: Op): Mask {
    match op
    case EnableReading => events | READ_EVENT
    case DisableReading => events & !READ_EVENT
    case EnableWriting => events | WRITE_EVENT
    case DisableWriting => events & !WRITE_EVENT
    case DisableAll => NONE_EVENT
  }

  predicate IsReading(events: Mask) {
    events & READ_EVENT != 0
  }

  predicate IsWriting(events: Mask) {
    events & WRITE_EVENT != 0
  }

  /** Each operation settles one interest and leaves the other alone, and no operation asks for anything else. */
  lemma MaskAlgebra(events: Mask, op: Op)
    requires events & !(READ_EVENT | WRITE_EVENT) == 0 && (IsReading(events) ==> events & READ_EVENT == READ_EVENT)
    ensures var e := Apply(events, op);
      && e & !(READ_EVENT | WRITE_EVENT) == 0 && (IsReading(e) ==> e & READ_EVENT == READ_EVENT)
      && IsReading(e) == (if op.EnableReading? then true else if op.DisableReading? || op.DisableAll? then false
         else IsReading(events))
      && IsWriting(e) == (if op.EnableWriting? then true else if op.DisableWriting? || op.DisableAll? then false
         else IsWriting(events))
      && (e == NONE_EVENT <==> !IsReading(e) && !IsWriting(e))
  {
  }

  class Channel {
    const fd: nat
    var events: Mask
    var revents: Mask
    var index: int

    constructor (fd: nat)
      ensures this.fd == fd && events == NONE_EVENT && revents == 0 && index == -1
    {
      this.fd := fd;
      events, revents, index := NONE_EVENT, 0, -1;
    }

    predicate IsNoneEvent()
      reads `events
    {
      events == NONE_EVENT
    }
  }

  // ----- the one map both pollers stand for -----

  type Interest = map<nat, Mask>

  function Updated(m: Interest, fd: nat, events: Mask): Interest {
    if events == NONE_EVENT then m - {fd} else m[fd := events]
  }

  // ----- poll(2) -----

  datatype PollFd = PollFd(fd: int, events: Mask, revents: Mask)

  /** An ignored entry holds -fd-1, so that descriptor 0 can be ignored too. */
  function Parked(fd: int): int {
    -fd - 1
  }

  function FdOf(p: PollFd): nat {
    if p.fd < 0 then Parked(p.fd) else p.fd
  }

  /** Index and slot are inverse to each other: swap-remove keeps a bijection. */
  ghost predicate Bijection(pollfds: seq<PollFd>, index: map<nat, int>) {
    && (forall fd :: fd in index ==> 0 <= index[fd] < |pollfds| && FdOf(pollfds[index[fd]]) == fd)
    && (forall i :: 0 <= i < |pollfds| ==> FdOf(pollfds[i]) in index && index[FdOf(pollfds[i])] == i)
  }

  /** What poll(2) is asked for: a negative descriptor is ignored. */
  ghost function Asked(pollfds: seq<PollFd>, index: map<nat, int>): Interest {
    map fd | fd in index && 0 <= index[fd] < |pollfds| && pollfds[index[fd]].fd >= 0
      && pollfds[index[fd]].events != NONE_EVENT
      :: pollfds[index[fd]].events
  }

  /** Every empty mask is ignored, and only those, but for the descriptors whose first mask was empty. */
  ghost predicate Parking(pollfds: seq<PollFd>, bare: set<nat>) {
    forall i :: 0 <= i < |pollfds| ==>
      (pollfds[i].fd < 0 <==> pollfds[i].events == NONE_EVENT && FdOf(pollfds[i]) !in bare)
  }

  /** A descriptor is bare from a first update with an empty mask until its next update. */
  function Bared(bare: set<nat>, fd: nat, first: bool, events: Mask): set<nat> {
    if first && events == NONE_EVENT then bare + {fd} else bare - {fd}
  }

  function SwapRemove<T>(s: seq<T>, i: nat): seq<T>
    requires i < |s|
  {
    s[i := s[|s| - 1]][..|s| - 1]
  }

  /** Each entry holds its channel's mask; `but` are channels whose mask has just changed. */
  ghost predicate Synced(pollfds: seq<PollFd>, index: map<nat, int>, masks: map<nat, Mask>, but: set<nat>) {
    forall fd :: fd in index && fd !in but ==>
      0 <= index[fd] < |pollfds| && fd in masks
      && pollfds[index[fd]].events == masks[fd]
  }

  function NewEntry(fd: nat, events: Mask): PollFd {
    PollFd(if events == NONE_EVENT then Parked(fd) else fd, events, 0)
  }

  lemma AddEntry(pollfds: seq<PollFd>, index: map<nat, int>, masks: map<nat, Mask>,
                 bare: set<nat>, fd: nat, events: Mask)
    requires Bijection(pollfds, index) && fd !in index
    ensures var p := pollfds + [PollFd(fd, events, 0)]; var x := index[fd := |pollfds|];
      && Bijection(p, x)
      && (Synced(pollfds, index, masks, {}) ==> Synced(p, x, masks[fd := events], {}))
      && (Parking(pollfds, bare) ==> Parking(p, Bared(bare, fd, true, events)))
  {
    var p := pollfds + [PollFd(fd, events, 0)];
    assert p[|pollfds|] == PollFd(fd, events, 0);
    assert forall i :: 0 <= i < |pollfds| ==> p[i] == pollfds[i];
  }

  lemma AddAsked(pollfds: seq<PollFd>, index: map<nat, int>, fd: nat, events: Mask)
    requires Bijection(pollfds, index) && fd !in index
    ensures Asked(pollfds + [PollFd(fd, events, 0)], index[fd := |pollfds|]) ==
      Updated(Asked(pollfds, index), fd, events)
  {
    var p := pollfds + [PollFd(fd, events, 0)];
    assert p[|pollfds|] == PollFd(fd, events, 0);
    assert forall g :: g in index ==> p[index[g]] == pollfds[index[g]];
  }

  /** The assertions of updateChannel about the entry of a registered channel. */
  lemma OwnEntry(pollfds: seq<PollFd>, index: map<nat, int>, fd: nat)
    requires Bijection(pollfds, index) && fd in index
    ensures 0 <= index[fd] < |pollfds| && (pollfds[index[fd]].fd == fd || pollfds[index[fd]].fd == Parked(fd))
  {
  }

  lemma SetEntry(pollfds: seq<PollFd>, index: map<nat, int>, masks: map<nat, Mask>,
                 bare: set<nat>, fd: nat, events: Mask)
    requires Bijection(pollfds, index) && fd in index
    ensures var p := pollfds[index[fd] := NewEntry(fd, events)];
      && Bijection(p, index)
      && (Synced(pollfds, index, masks, {fd}) ==> Synced(p, index, masks[fd := events], {}))
      && (Parking(pollfds, bare) ==> Parking(p, Bared(bare, fd, false, events)))
  {
  }

  lemma SetAsked(pollfds: seq<PollFd>, index: map<nat, int>, fd: nat, events: Mask)
    requires Bijection(pollfds, index) && fd in index
    ensures Asked(pollfds[index[fd] := NewEntry(fd, events)], index) == Updated(Asked(pollfds, index), fd, events)
  {
    var p := pollfds[index[fd] := NewEntry(fd, events)];
    assert forall g :: g in index && g != fd ==> index[g] != index[fd] && p[index[g]] == pollfds[index[g]];
  }

  /** The channel that owned the last slot gets slot i. */
  function Moved(pollfds: seq<PollFd>, index: map<nat, int>, i: int): map<nat, int> {
    if pollfds == [] || i == |pollfds| - 1 then index
    else index[FdOf(pollfds[|pollfds| - 1]) := i]
  }

  lemma RemoveEntry(pollfds: seq<PollFd>, index: map<nat, int>, masks: map<nat, Mask>, bare: set<nat>, fd: nat)
    requires Bijection(pollfds, index) && fd in index && Synced(pollfds, index, masks, {})
    ensures var p := SwapRemove(pollfds, index[fd]); var x := Moved(pollfds, index, index[fd]) - {fd};
      Bijection(p, x) && Synced(p, x, masks - {fd}, {}) && (Parking(pollfds, bare) ==> Parking(p, bare))
    ensures var end := FdOf(pollfds[|pollfds| - 1]); end in index && index[end] == |pollfds| - 1
  {
    SwapRemoveAt(pollfds, index[fd]);
  }

  lemma SwapRemoveAt<T>(s: seq<T>, i: nat)
    requires i < |s|
    ensures |SwapRemove(s, i)| == |s| - 1
    ensures forall j :: 0 <= j < |s| - 1 ==> SwapRemove(s, i)[j] == if j == i then s[|s| - 1] else s[j]
  {
  }

  lemma AskedWithout(p: seq<PollFd>, x: map<nat, int>, pollfds: seq<PollFd>, index: map<nat, int>, fd: nat)
    requires x.Keys == index.Keys - {fd}
    requires forall g :: g in x ==> 0 <= x[g] < |p| && 0 <= index[g] < |pollfds| && p[x[g]] == pollfds[index[g]]
    ensures Asked(p, x) == Asked(pollfds, index) - {fd}
  {
  }

  lemma RemoveAsked(pollfds: seq<PollFd>, index: map<nat, int>, fd: nat)
    requires Bijection(pollfds, index) && fd in index
    ensures Asked(SwapRemove(pollfds, index[fd]), Moved(pollfds, index, index[fd]) - {fd}) ==
      Asked(pollfds, index) - {fd}
  {
    hide SwapRemove, Asked;
    SwapRemoveAt(pollfds, index[fd]);
    var p, x := SwapRemove(pollfds, index[fd]), Moved(pollfds, index, index[fd]) - {fd};
    forall g | g in x ensures 0 <= x[g] < |p| && 0 <= index[g] < |pollfds| && p[x[g]] == pollfds[index[g]] {
      assert FdOf(pollfds[index[g]]) == g;
    }
    AskedWithout(p, x, pollfds, index, fd);
  }

  /** The assertion of removeChannel about the entry it is about to drop holds exactly if the descriptor is not bare. */
  lemma ParkedEntry(pollfds: seq<PollFd>, index: map<nat, int>, masks: map<nat, Mask>, bare: set<nat>, fd: nat)
    requires Bijection(pollfds, index) && Synced(pollfds, index, masks, {}) && Parking(pollfds, bare)
    requires fd in index && fd in masks && masks[fd] == NONE_EVENT
    ensures 0 <= index[fd] < |pollfds| && pollfds[index[fd]].events == NONE_EVENT
    ensures pollfds[index[fd]].fd == Parked(fd) <==> fd !in bare
    ensures fd !in Asked(pollfds, index)
  {
  }

  /** The descriptors poll reported, in the order of their entries. */
  function Ready(pollfds: seq<PollFd>): seq<nat> {
    if pollfds == [] then []
    else
      var n := |pollfds| - 1;
      Ready(pollfds[..n]) + (if pollfds[n].revents != 0 then [FdOf(pollfds[n])] else [])
  }

  lemma {:induction false} ReadyPrefix(pollfds: seq<PollFd>, i: nat)
    requires i <= |pollfds|
    ensures Ready(pollfds[..i]) <= Ready(pollfds)
  {
    if i == |pollfds| {
      assert pollfds[..i] == pollfds;
    } else {
      var n := |pollfds| - 1;
      ReadyPrefix(pollfds[..n], i);
      assert pollfds[..n][..i] == pollfds[..i];
    }
  }

  lemma ReadyStep(pollfds: seq<PollFd>, i: nat)
    requires i < |pollfds|
    ensures Ready(pollfds[..i + 1]) ==
      Ready(pollfds[..i]) + (if pollfds[i].revents != 0 then [FdOf(pollfds[i])] else [])
  {
    assert pollfds[..i + 1][..i] == pollfds[..i];
  }

  function Fds(active: seq<Channel>): (r: seq<nat>)
    ensures |r| == |active|
  {
    seq(|active|, i requires 0 <= i < |active| => active[i].fd)
  }

  lemma NoneReady(pollfds: seq<PollFd>)
    ensures Ready(pollfds[..0]) == [] && Fds([]) == []
  {
  }

  lemma FdsAppend(active: seq<Channel>, c: Channel)
    ensures Fds(active + [c]) == Fds(active) + [c.fd]
  {
  }

  // ----- runs of commands -----

  datatype Command = Change(channel: Channel, op: Op) | Remove(channel: Channel)

  /**
    What the callers know: every channel's mask, which channel each registered
    descriptor belongs to, which channels were removed, and which descriptors have had
    no update but a first one with an empty mask.  A descriptor may belong to one
    channel after another.
  */
  datatype Book = Book(masks: map<Channel, Mask>, owner: map<nat, Channel>, retired: set<Channel>, bare: set<nat>)

  predicate Owns(owner: map<nat, Channel>, c: Channel) {
    c.fd in owner && owner[c.fd] == c
  }

  /** The interest map both pollers stand for: the non-empty masks of the registered channels. */
  function Wanted(masks: map<Channel, Mask>, owner: map<nat, Channel>): Interest {
    map fd | fd in owner && owner[fd] in masks && masks[owner[fd]] != NONE_EVENT :: masks[owner[fd]]
  }

  /** A descriptor has one channel at a time, and a channel is removed without interest. */
  predicate Legal(b: Book, c: Command) {
    && c.channel in b.masks
    && (c.Change? ==> c.channel.fd in b.owner ==> Owns(b.owner, c.channel))
    && (c.Remove? ==> Owns(b.owner, c.channel) && b.masks[c.channel] == NONE_EVENT)
  }

  /** PollPoller's assertions ask more: a removed channel stays removed, and a bare descriptor is not removed. */
  predicate LegalForPoll(b: Book, c: Command) {
    && Legal(b, c)
    && (c.Change? && c.channel.fd !in b.owner ==> c.channel !in b.retired)
    && (c.Remove? ==> c.channel.fd !in b.bare)
  }

  function Next(b: Book, c: Command): Book
    requires Legal(b, c)
  {
    var fd := c.channel.fd;
    match c
    case Change(channel, op) =>
      var events := Apply(b.masks[channel], op);
      b.(masks := b.masks[channel := events], owner := b.owner[fd := channel],
         bare := Bared(b.bare, fd, fd !in b.owner, events))
    case Remove(channel) => b.(owner := b.owner - {fd}, retired := b.retired + {channel})
  }

  /** The book after the commands; nothing is promised once one was not legal. */
  function After(b: Book, cmds: seq<Command>): (r: Book)
    ensures r.masks.Keys == b.masks.Keys
  {
    if cmds == [] then b
    else
      var t := After(b, cmds[..|cmds| - 1]);
      var c := cmds[|cmds| - 1];
      if Legal(t, c) then Next(t, c) else t
  }

  lemma AfterNone(b: Book, cmds: seq<Command>)
    ensures After(b, cmds[..0]) == b
  {
  }

  lemma AfterStep(b: Book, cmds: seq<Command>, i: nat)
    requires i < |cmds| && Legal(After(b, cmds[..i]), cmds[i])
    ensures After(b, cmds[..i + 1]) == Next(After(b, cmds[..i]), cmds[i])
  {
    assert cmds[..i + 1][..i] == cmds[..i];
  }

  ghost predicate LegalRun(b: Book, cmds: seq<Command>) {
    forall i :: 0 <= i < |cmds| ==> Legal(After(b, cmds[..i]), cmds[i])
  }

  ghost predicate LegalRunForPoll(b: Book, cmds: seq<Command>) {
    forall i :: 0 <= i < |cmds| ==> LegalForPoll(After(b, cmds[..i]), cmds[i])
  }

  /** A channel whose descriptor is its own, or nobody's, can always change its mask; ... */
  lemma CanChange(b: Book, c: Channel, op: Op)
    requires c in b.masks && (c.fd in b.owner ==> Owns(b.owner, c)) && (c.fd !in b.owner ==> c !in b.retired)
    ensures LegalForPoll(b, Change(c, op))
    ensures var t := Next(b, Change(c, op));
      Owns(t.owner, c) && t.masks == b.masks[c := Apply(b.masks[c], op)] && t.retired == b.retired
  {
  }

  /** ... and once it wants nothing, after an update that was not its first, it can go. */
  lemma CanGo(b: Book, c: Channel)
    requires c in b.masks && Owns(b.owner, c)
    ensures var t := Next(b, Change(c, DisableAll));
      LegalForPoll(t, Remove(c)) && Next(t, Remove(c)).owner == b.owner - {c.fd}
  {
    var t := Next(b, Change(c, DisableAll));
    assert t.owner == b.owner;
  }

  /** A descriptor number that is handed out again: its old channel is removed, a new one takes it over. */
  lemma HandOver(b: Book, first: Channel, second: Channel, op: Op)
    requires first in b.masks && second in b.masks && first != second && first.fd == second.fd
    requires LegalForPoll(b, Remove(first)) && second !in b.retired
    ensures var cmds := [Remove(first), Change(second, op)];
      LegalRunForPoll(b, cmds) && Owns(After(b, cmds).owner, second)
  {
    var cmds := [Remove(first), Change(second, op)];
    AfterNone(b, cmds);
    AfterStep(b, cmds, 0);
    AfterStep(b, cmds, 1);
    assert cmds[..2] == cmds;
  }

  /**
    The input that fails: a channel whose only update left its mask empty may be removed,
    but PollPoller's assertion about its entry fails.
  */
  lemma BareRemovalFails(c: Channel)
    ensures var b := Book(map[c := NONE_EVENT], map[], {}, {});
      var cmds := [Change(c, DisableAll)];
      LegalRunForPoll(b, cmds) && Legal(After(b, cmds), Remove(c)) && !LegalForPoll(After(b, cmds), Remove(c))
  {
    var b := Book(map[c := NONE_EVENT], map[], {}, {});
    var cmds := [Change(c, DisableAll)];
    AfterNone(b, cmds);
    AfterStep(b, cmds, 0);
    assert cmds[..1] == cmds;
  }

  ghost predicate OwnersOK(owner: map<nat, Channel>, fleet: set<Channel>) {
    forall fd :: fd in owner ==> owner[fd].fd == fd && owner[fd] in fleet
  }

  lemma WantedChange(masks: map<Channel, Mask>, owner: map<nat, Channel>, c: Channel, events: Mask)
    requires OwnersOK(owner, masks.Keys) && (c.fd in owner ==> Owns(owner, c))
    ensures Wanted(masks[c := events], owner[c.fd := c]) == Updated(Wanted(masks, owner), c.fd, events)
    ensures c in masks ==> OwnersOK(owner[c.fd := c], masks.Keys)
  {
  }

  lemma WantedRemove(masks: map<Channel, Mask>, owner: map<nat, Channel>, c: Channel)
    requires OwnersOK(owner, masks.Keys) && Owns(owner, c) && c in masks && masks[c] == NONE_EVENT
    ensures Wanted(masks, owner - {c.fd}) == Wanted(masks, owner)
    ensures OwnersOK(owner - {c.fd}, masks.Keys)
    ensures forall d :: d in masks && d != c ==> (Owns(owner - {c.fd}, d) <==> Owns(owner, d))
    ensures forall d :: d in masks ==> (Owns(owner, d) <==> d in owner.Values)
  {
  }

  ghost function IndexOf(fleet: set<Channel>): map<Channel, int>
    reads fleet`index
  {
    map c | c in fleet :: c.index
  }

  /** PollPoller's index: not negative while registered, negative as long as it never was. */
  ghost predicate PollIndex(index: map<Channel, int>, owner: map<nat, Channel>, retired: set<Channel>) {
    forall c :: c in index ==> if Owns(owner, c) then index[c] >= 0 else c !in retired ==> index[c] < 0
  }

  lemma PollIndexChange(index: map<Channel, int>, owner: map<nat, Channel>, retired: set<Channel>, c: Channel, i: nat)
    requires PollIndex(index, owner, retired) && c in index && (c.fd in owner ==> Owns(owner, c))
    ensures PollIndex(index[c := i], owner[c.fd := c], retired)
    ensures if Owns(owner, c) then index[c] >= 0 else c !in retired ==> index[c] < 0
  {
  }

  lemma NextChange(b: Book, c: Channel, op: Op)
    requires Legal(b, Change(c, op))
    ensures var e := Apply(b.masks[c], op);
      Next(b, Change(c, op)) == b.(masks := b.masks[c := e], owner := b.owner[c.fd := c],
                                   bare := Bared(b.bare, c.fd, c.fd !in b.owner, e))
    ensures c in b.masks && (c.fd in b.owner ==> Owns(b.owner, c))
  {
  }

  ghost function EventsOf(fleet: set<Channel>): map<Channel, Mask>
    reads fleet`events
  {
    map c | c in fleet :: c.events
  }

  ghost function IndicesOf(channels: map<nat, Channel>): map<nat, int>
    reads channels.Values`index
  {
    map fd | fd in channels :: channels[fd].index
  }

  ghost function MasksOf(channels: map<nat, Channel>): map<nat, Mask>
    reads channels.Values`events
  {
    map fd | fd in channels :: channels[fd].events
  }

  lemma SyncedBut(pollfds: seq<PollFd>, index: map<nat, int>, masks: map<nat, Mask>, fd: nat, events: Mask)
    requires Synced(pollfds, index, masks, {})
    ensures Synced(pollfds, index, masks, {fd}) && Synced(pollfds, index, masks[fd := events], {fd})
  {
  }

  class PollPoller {
    var pollfds: seq<PollFd>
    var channels: map<nat, Channel>
    /** The descriptors that poll is made to watch for nothing: their first mask was empty. */
    ghost var bare: set<nat>

    ghost function Interest(): Interest
      reads this, channels.Values`index
    {
      Asked(pollfds, IndicesOf(channels))
    }

    /** Everything agrees, except that the channels in `but` have just had their masks changed. */
    ghost predicate Settled(but: set<nat>)
      reads this, channels.Values`index, channels.Values`events
    {
      && (forall fd :: fd in channels ==> channels[fd].fd == fd)
      && Bijection(pollfds, IndicesOf(channels)) && Synced(pollfds, IndicesOf(channels), MasksOf(channels), but)
      && Parking(pollfds, bare)
    }

    constructor ()
      ensures Settled({}) && bare == {} && channels == map[] && pollfds == [] && Interest() == map[]
    {
      pollfds, channels, bare := [], map[], {};
    }

    method AddChannel(channel: Channel)
      requires Settled({}) && channel.fd !in channels && forall fd :: fd in channels ==> channels[fd] != channel
      modifies this, channel`index
      ensures Settled({}) && channels == old(channels)[channel.fd := channel]
      ensures Interest() == Updated(old(Interest()), channel.fd, channel.events)
      ensures bare == Bared(old(bare), channel.fd, true, channel.events)
    {
      hide Bijection, Synced, Parking, Asked, Updated, Bared;
      AddEntry(pollfds, IndicesOf(channels), MasksOf(channels), bare, channel.fd, channel.events);
      AddAsked(pollfds, IndicesOf(channels), channel.fd, channel.events);
      pollfds := pollfds + [PollFd(channel.fd, channel.events, 0)];
      channel.index := |pollfds| - 1;
      channels := channels[channel.fd := channel];
      bare := Bared(bare, channel.fd, true, channel.events);
      assert IndicesOf(channels) == old(IndicesOf(channels))[channel.fd := |pollfds| - 1];
      assert MasksOf(channels) == old(MasksOf(channels))[channel.fd := channel.events];
    }

    method SetChannel(channel: Channel)
      requires Settled({channel.fd}) && channel.fd in channels && channels[channel.fd] == channel
      modifies `pollfds, `bare
      ensures Settled({})
      ensures Interest() == Updated(old(Interest()), channel.fd, channel.events)
      ensures bare == Bared(old(bare), channel.fd, false, channel.events)
    {
      hide Bijection, Synced, Parking, Asked, Updated, Bared;
      SetEntry(pollfds, IndicesOf(channels), MasksOf(channels), bare, channel.fd, channel.events);
      SetAsked(pollfds, IndicesOf(channels), channel.fd, channel.events);
      var idx := channel.index;
      OwnEntry(pollfds, IndicesOf(channels), channel.fd);
      assert pollfds[idx].fd == channel.fd || pollfds[idx].fd == Parked(channel.fd);
      pollfds := pollfds[idx := PollFd(channel.fd, channel.events, 0)];
      if channel.IsNoneEvent() {
        pollfds := pollfds[idx := pollfds[idx].(fd := Parked(channel.fd))];
      }
      bare := Bared(bare, channel.fd, false, channel.events);
      assert pollfds == old(pollfds)[idx := NewEntry(channel.fd, channel.events)];
      assert IndicesOf(channels) == old(IndicesOf(channels)) && IndicesOf(channels)[channel.fd] == idx;
      assert MasksOf(channels) == old(MasksOf(channels))[channel.fd := channel.events];
    }

    method UpdateChannel(channel: Channel)
      requires Settled({channel.fd})
      requires if channel.index < 0 then channel.fd !in channels
        && (forall fd :: fd in channels ==> channels[fd] != channel)
               else channel.fd in channels && channels[channel.fd] == channel
      modifies this, channel`index
      ensures Settled({}) && channels == old(channels)[channel.fd := channel]
      ensures Interest() == Updated(old(Interest()), channel.fd, channel.events)
      ensures bare == Bared(old(bare), channel.fd, old(channel.index) < 0, channel.events)
    {
      hide Bijection, Parking, Asked, Updated;
      if channel.index < 0 {
        AddChannel(channel);
      } else {
        SetChannel(channel);
        assert channels == old(channels)[channel.fd := channel];
      }
    }

    /** channels_.erase: the other channels keep their indices and masks. */
    method Erase(fd: nat)
      modifies `channels
      ensures channels == old(channels) - {fd}
      ensures IndicesOf(channels) == old(IndicesOf(channels)) - {fd}
      ensures MasksOf(channels) == old(MasksOf(channels)) - {fd}
    {
      channels := channels - {fd};
    }

    /** set_index on a registered channel. */
    method SetIndex(channel: Channel, idx: nat)
      requires channel.fd in channels && channels[channel.fd] == channel && forall g :: g in channels ==>
        channels[g].fd == g
      modifies channel`index
      ensures IndicesOf(channels) == old(IndicesOf(channels))[channel.fd := idx]
      ensures MasksOf(channels) == old(MasksOf(channels))
    {
      channel.index := idx;
    }

    /** The swap and pop, with the back-index of the channel that moved. */
    method Drop(idx: nat)
      requires (forall g :: g in channels ==> channels[g].fd == g) && idx < |pollfds|
      requires var end := FdOf(pollfds[|pollfds| - 1]);
        end in IndicesOf(channels) && IndicesOf(channels)[end] == |pollfds| - 1
      modifies `pollfds, channels.Values`index
      ensures pollfds == SwapRemove(old(pollfds), idx) && MasksOf(channels) == old(MasksOf(channels))
      ensures IndicesOf(channels) == Moved(old(pollfds), old(IndicesOf(channels)), idx)
    {
      if idx == |pollfds| - 1 {
        pollfds := pollfds[..|pollfds| - 1];
        assert IndicesOf(channels) == old(IndicesOf(channels));
      } else {
        var channelAtEnd := FdOf(pollfds[|pollfds| - 1]);
        pollfds := pollfds[idx := pollfds[|pollfds| - 1]][|pollfds| - 1 := pollfds[idx]];
        SetIndex(channels[channelAtEnd], idx);
        pollfds := pollfds[..|pollfds| - 1];
      }
    }

    method RemoveChannel(channel: Channel)
      requires Settled({}) && channel.fd in channels && channels[channel.fd] == channel && channel.IsNoneEvent()
      requires channel.fd !in bare
      modifies `pollfds, `channels, channels.Values`index
      ensures Settled({}) && channels == old(channels) - {channel.fd}
      ensures Interest() == old(Interest())
    {
      hide Bijection, Synced, Parking, Asked, SwapRemove, Moved;
      var idx := channel.index;
      ghost var index := IndicesOf(channels);
      ghost var masks := MasksOf(channels);
      RemoveEntry(pollfds, index, masks, bare, channel.fd);
      RemoveAsked(pollfds, index, channel.fd);
      ParkedEntry(pollfds, index, masks, bare, channel.fd);
      assert pollfds[idx].fd == Parked(channel.fd) && pollfds[idx].events == channel.events;
      Drop(idx);
      Erase(channel.fd);
    }

    /** The channel of a reported entry. */
    method Activate(i: nat) returns (channel: Channel)
      requires Settled({}) && i < |pollfds| && pollfds[i].fd >= 0
      modifies channels.Values`revents
      ensures channel.fd == FdOf(pollfds[i]) && channel.fd in channels && channels[channel.fd] == channel
      ensures channel.index == i && channel.revents == pollfds[i].revents
      ensures forall c :: c in channels.Values && c != channel ==> c.revents == old(c.revents)
    {
      assert FdOf(pollfds[i]) in IndicesOf(channels) && IndicesOf(channels)[FdOf(pollfds[i])] == i;
      channel := channels[pollfds[i].fd];
      assert channel.fd == pollfds[i].fd;
      channel.revents := pollfds[i].revents;
    }

    /** The channels poll reported, each once, in the order of their entries, with what was reported for it. */
    method FillActiveChannels(numEvents: nat) returns (active: seq<Channel>)
      requires Settled({}) && numEvents == |Ready(pollfds)|
      requires forall i :: 0 <= i < |pollfds| && pollfds[i].revents != 0 ==> pollfds[i].fd >= 0
      modifies channels.Values`revents
      ensures Fds(active) == Ready(pollfds)
      ensures forall c :: c in active ==> c.fd in channels && channels[c.fd] == c
      ensures forall c :: c in active ==> 0 <= c.index < |pollfds| && c.revents == pollfds[c.index].revents != 0
    {
      hide Settled, Ready, Fds, FdOf;
      active := [];
      var i, left := 0, numEvents;
      NoneReady(pollfds);
      while i < |pollfds| && left > 0
        invariant 0 <= i <= |pollfds| && left + |active| == numEvents
        invariant Fds(active) == Ready(pollfds[..i])
        invariant forall c :: c in active ==> c.fd in channels && channels[c.fd] == c
        invariant forall c :: c in active ==> 0 <= c.index < i && c.revents == pollfds[c.index].revents != 0
      {
        ReadyStep(pollfds, i);
        if pollfds[i].revents != 0 {
          left := left - 1;
          var channel := Activate(i);
          FdsAppend(active, channel);
          active := active + [channel];
        }
        i := i + 1;
      }
      ReadyPrefix(pollfds, i);
      assert pollfds[..|pollfds|] == pollfds;
    }

    /** A mask operation of a channel. */
    method ChangeMask(channel: Channel, op: Op)
      requires Settled({})
      requires if channel.index < 0 then channel.fd !in channels else Owns(channels, channel)
      modifies this, channel`index, channel`events
      ensures Settled({}) && channels == old(channels)[channel.fd := channel]
      ensures channel.events == Apply(old(channel.events), op)
      ensures Interest() == Updated(old(Interest()), channel.fd, channel.events)
      ensures bare == Bared(old(bare), channel.fd, old(channel.index) < 0, channel.events)
    {
      hide Bijection, Synced, Parking, Asked, Updated, Apply, Bared;
      assert channel.index < 0 ==> forall fd :: fd in channels ==> channels[fd] != channel;
      SyncedBut(pollfds, IndicesOf(channels), MasksOf(channels), channel.fd, Apply(channel.events, op));
      channel.events := Apply(channel.events, op);
      assert IndicesOf(channels) == old(IndicesOf(channels));
      assert channel.fd !in channels ==> MasksOf(channels) == old(MasksOf(channels));
      assert Owns(channels, channel) ==> MasksOf(channels) == old(MasksOf(channels))[channel.fd := channel.events];
      UpdateChannel(channel);
    }

    /** All that holds between two commands of a run; fleet is every channel the run is about. */
    ghost predicate Following(fleet: set<Channel>, b: Book)
      reads this, channels.Values`index, channels.Values`events, fleet`index, fleet`events
    {
      && Settled({}) && channels == b.owner && bare == b.bare && EventsOf(fleet) == b.masks
      && OwnersOK(b.owner, fleet) && Interest() == Wanted(b.masks, b.owner)
      && PollIndex(IndexOf(fleet), b.owner, b.retired)
    }

    /** A new poller and any channels not yet registered can start a run. */
    lemma Starts(fleet: set<Channel>)
      requires Settled({}) && channels == map[] && pollfds == [] && bare == {} && forall c :: c in fleet ==> c.index < 0
      ensures Following(fleet, Book(EventsOf(fleet), map[], {}, {}))
    {
    }

    lemma IndexNonNegative(fd: nat)
      requires Settled({}) && fd in channels
      ensures 0 <= channels[fd].index < |pollfds|
    {
      assert IndicesOf(channels)[fd] == channels[fd].index;
    }

    method PerformChange(channel: Channel, op: Op, ghost fleet: set<Channel>, ghost b: Book)
      requires Following(fleet, b) && LegalForPoll(b, Change(channel, op))
      modifies this, channel`index, channel`events
      ensures Following(fleet, Next(b, Change(channel, op)))
    {
      hide Settled, Interest, Asked, Updated, Apply, Wanted, Bared, Next, PollIndex, OwnersOK;
      ghost var e := Apply(b.masks[channel], op);
      ghost var index := IndexOf(fleet);
      assert fleet == b.masks.Keys;
      NextChange(b, channel, op);
      WantedChange(b.masks, b.owner, channel, e);
      PollIndexChange(index, b.owner, b.retired, channel, 0);
      ChangeMask(channel, op);
      assert EventsOf(fleet) == b.masks[channel := e];
      IndexNonNegative(channel.fd);
      PollIndexChange(index, b.owner, b.retired, channel, channel.index);
      assert IndexOf(fleet) == index[channel := channel.index];
    }

    method PerformRemove(channel: Channel, ghost fleet: set<Channel>, ghost b: Book)
      requires Following(fleet, b) && LegalForPoll(b, Remove(channel))
      modifies this, fleet`index
      ensures Following(fleet, Next(b, Remove(channel)))
    {
      hide Bijection, Synced, Parking, Asked, Updated, Apply, Wanted;
      assert fleet == b.masks.Keys;
      WantedRemove(b.masks, b.owner, channel);
      RemoveChannel(channel);
      forall g | g in channels ensures channels[g].index >= 0 {
        IndexNonNegative(g);
      }
      assert EventsOf(fleet) == b.masks;
    }

    method Perform(c: Command, ghost fleet: set<Channel>, ghost b: Book)
      requires Following(fleet, b) && LegalForPoll(b, c)
      modifies this, fleet`index, fleet`events
      ensures Following(fleet, Next(b, c))
    {
      hide Settled, Wanted, OwnersOK, Apply, Next;
      match c {
        case Change(channel, op) => PerformChange(channel, op, fleet, b);
        case Remove(channel) => PerformRemove(channel, fleet, b);
      }
    }

    /**
      Any legal run, descriptors being handed from one channel to another included,
      leaves the poller asking for exactly the non-empty masks of the registered channels.
    */
    method Run(cmds: seq<Command>, ghost fleet: set<Channel>, ghost b: Book)
      requires Following(fleet, b) && LegalRunForPoll(b, cmds)
      modifies this, fleet`index, fleet`events
      ensures Following(fleet, After(b, cmds))
      ensures Interest() == Wanted(After(b, cmds).masks, After(b, cmds).owner)
    {
      hide Settled, Asked, Wanted, OwnersOK, Apply, After, Next;
      var i := 0;
      AfterNone(b, cmds);
      while i < |cmds|
        invariant 0 <= i <= |cmds| && Following(fleet, After(b, cmds[..i]))
      {
        ghost var t := After(b, cmds[..i]);
        assert LegalForPoll(t, cmds[i]);
        AfterStep(b, cmds, i);
        Perform(cmds[i], fleet, t);
        i := i + 1;
      }
      assert cmds[..i] == cmds;
    }
  }

  // ----- epoll(7) -----

  const NEW := -1
  const ADDED := 1
  const DELETED := 2

  /** Whether the kernel has a descriptor after an update: only an empty mask for one it had takes it out. */
  predicate InKernelAfter(before: bool, wanted: bool) {
    wanted || !before
  }

  /** What the kernel keeps for a descriptor: the mask, and the channel handed back with each event. */
  datatype Registration = Registration(events: Mask, channel: Channel)

  datatype Operation = CtlAdd | CtlMod | CtlDel

  ghost function KernelAsked(kernel: map<nat, Registration>): Interest {
    map fd | fd in kernel && kernel[fd].events != NONE_EVENT :: kernel[fd].events
  }

  /** Index and kernel membership say the same thing; `but` are channels whose mask has just changed. */
  ghost predicate Tracks(kernel: map<nat, Registration>, channels: map<nat, Channel>, index: map<nat, int>,
      masks: map<nat, Mask>, but: set<nat>) {
    && index.Keys == channels.Keys && masks.Keys == channels.Keys
    && (forall fd :: fd in index ==> index[fd] == ADDED || index[fd] == DELETED)
    && (forall fd :: fd in kernel <==> fd in index && index[fd] == ADDED)
    && (forall fd :: fd in kernel ==> kernel[fd].channel == channels[fd])
    && (forall fd :: fd in masks && fd !in but ==> masks[fd] == if fd in kernel then kernel[fd].events else NONE_EVENT)
  }

  /** The kernel is not made to watch a descriptor nobody wants anything from. */
  ghost predicate NoEmptyMask(kernel: map<nat, Registration>) {
    forall fd :: fd in kernel ==> kernel[fd].events != NONE_EVENT
  }

  lemma TrackEnter(kernel: map<nat, Registration>, channels: map<nat, Channel>, index: map<nat, int>,
      masks: map<nat, Mask>, fd: nat, r: Registration)
    requires Tracks(kernel, channels, index, masks, {fd}) && (fd in index ==> index[fd] == DELETED)
    ensures var k := kernel[fd := r];
      && fd !in kernel && Tracks(k, channels[fd := r.channel], index[fd := ADDED], masks[fd := r.events], {})
      && (NoEmptyMask(kernel) ==> (NoEmptyMask(k) <==> r.events != NONE_EVENT))
  {
    assert kernel[fd := r][fd] == r;
  }

  lemma TrackModify(kernel: map<nat, Registration>, channels: map<nat, Channel>, index: map<nat, int>,
      masks: map<nat, Mask>, fd: nat, r: Registration)
    requires Tracks(kernel, channels, index, masks, {fd}) && fd in index && index[fd] == ADDED
      && channels[fd] == r.channel
    ensures var k := kernel[fd := r];
      && fd in kernel && Tracks(k, channels, index, masks[fd := r.events], {})
      && (NoEmptyMask(kernel) && r.events != NONE_EVENT ==> NoEmptyMask(k))
  {
  }

  lemma TrackDelete(kernel: map<nat, Registration>, channels: map<nat, Channel>, index: map<nat, int>,
      masks: map<nat, Mask>, fd: nat)
    requires Tracks(kernel, channels, index, masks, {fd}) && fd in index && index[fd] == ADDED
    ensures var k := kernel - {fd};
      && fd in kernel && Tracks(k, channels, index[fd := DELETED], masks[fd := NONE_EVENT], {})
      && Tracks(k, channels - {fd}, index - {fd}, masks - {fd}, {})
      && (NoEmptyMask(kernel) ==> NoEmptyMask(k))
  {
  }

  lemma AskedSet(kernel: map<nat, Registration>, fd: nat, r: Registration)
    ensures KernelAsked(kernel[fd := r]) == Updated(KernelAsked(kernel), fd, r.events)
  {
  }

  lemma AskedDelete(kernel: map<nat, Registration>, fd: nat)
    ensures KernelAsked(kernel - {fd}) == Updated(KernelAsked(kernel), fd, NONE_EVENT)
    ensures fd !in KernelAsked(kernel) ==> KernelAsked(kernel - {fd}) == KernelAsked(kernel)
  {
  }

  lemma TrackForget(kernel: map<nat, Registration>, channels: map<nat, Channel>, index: map<nat, int>,
      masks: map<nat, Mask>, fd: nat)
    requires Tracks(kernel, channels, index, masks, {}) && fd in index
    ensures fd in kernel <==> index[fd] == ADDED
    ensures index[fd] == DELETED ==> Tracks(kernel, channels - {fd}, index - {fd}, masks - {fd}, {})
    ensures masks[fd] == NONE_EVENT ==> fd !in KernelAsked(kernel)
    ensures index[fd] == ADDED || index[fd] == DELETED
  {
  }

  lemma TrackBut(kernel: map<nat, Registration>, channels: map<nat, Channel>, index: map<nat, int>,
      masks: map<nat, Mask>, fd: nat, events: Mask)
    requires Tracks(kernel, channels, index, masks, {})
    ensures Tracks(kernel, channels, index, masks, {fd})
    ensures fd in masks ==> Tracks(kernel, channels, index, masks[fd := events], {fd})
  {
  }

  class EPollPoller {
    var kernel: map<nat, Registration>
    var channels: map<nat, Channel>

    ghost function Interest(): Interest
      reads `kernel
    {
      KernelAsked(kernel)
    }

    ghost predicate Settled(but: set<nat>)
      reads this, channels.Values`index, channels.Values`events
    {
      && (forall fd :: fd in channels ==> channels[fd].fd == fd)
      && Tracks(kernel, channels, IndicesOf(channels), MasksOf(channels), but)
    }

    constructor ()
      ensures Settled({}) && NoEmptyMask(kernel) && channels == map[] && kernel == map[] && Interest() == map[]
    {
      kernel, channels := map[], map[];
    }

    /** epoll_ctl: each operation meets the condition under which the kernel accepts it. */
    method Update(operation: Operation, channel: Channel)
      requires operation.CtlAdd? <==> channel.fd !in kernel
      modifies `kernel
      ensures kernel == if operation.CtlDel? then old(kernel) - {channel.fd}
                        else old(kernel)[channel.fd := Registration(channel.events, channel)]
    {
      if operation.CtlDel? {
        kernel := kernel - {channel.fd};
      } else {
        kernel := kernel[channel.fd := Registration(channel.events, channel)];
      }
    }

    /** A new channel, or one taken out before: EPOLL_CTL_ADD. */
    method EnterKernel(channel: Channel)
      requires Settled({channel.fd})
      requires channel.fd in channels ==> channels[channel.fd] == channel && channel.index == DELETED
      requires channel.fd !in channels ==> forall fd :: fd in channels ==> channels[fd] != channel
      modifies this, channel`index
      ensures Settled({}) && channels == old(channels)[channel.fd := channel] && channel.fd in kernel
      ensures Interest() == Updated(old(Interest()), channel.fd, channel.events)
      ensures old(NoEmptyMask(kernel)) ==> (NoEmptyMask(kernel) <==> channel.events != NONE_EVENT)
    {
      hide Tracks, NoEmptyMask, KernelAsked, Updated;
      var fd := channel.fd;
      TrackEnter(kernel, channels, IndicesOf(channels), MasksOf(channels), fd, Registration(channel.events, channel));
      AskedSet(kernel, fd, Registration(channel.events, channel));
      channels := channels[fd := channel];
      channel.index := ADDED;
      Update(CtlAdd, channel);
      assert IndicesOf(channels) == old(IndicesOf(channels))[fd := ADDED];
      assert MasksOf(channels) == old(MasksOf(channels))[fd := channel.events];
    }

    /** A channel the kernel has: EPOLL_CTL_MOD, or EPOLL_CTL_DEL once its mask is empty. */
    method ModifyKernel(channel: Channel)
      requires Settled({channel.fd}) && channel.fd in channels && channels[channel.fd] == channel
        && channel.index == ADDED
      modifies `kernel, channel`index
      ensures Settled({}) && (channel.fd in kernel <==> channel.events != NONE_EVENT)
      ensures Interest() == Updated(old(Interest()), channel.fd, channel.events)
      ensures old(NoEmptyMask(kernel)) ==> NoEmptyMask(kernel)
    {
      hide Tracks, NoEmptyMask, KernelAsked, Updated;
      var fd := channel.fd;
      TrackModify(kernel, channels, IndicesOf(channels), MasksOf(channels), fd, Registration(channel.events, channel));
      TrackDelete(kernel, channels, IndicesOf(channels), MasksOf(channels), fd);
      AskedSet(kernel, fd, Registration(channel.events, channel));
      AskedDelete(kernel, fd);
      if channel.IsNoneEvent() {
        Update(CtlDel, channel);
        channel.index := DELETED;
        assert IndicesOf(channels) == old(IndicesOf(channels))[fd := DELETED];
      } else {
        Update(CtlMod, channel);
      }
      assert MasksOf(channels) == old(MasksOf(channels))[fd := channel.events];
    }

    method UpdateChannel(channel: Channel)
      requires Settled({channel.fd})
      requires if channel.index == NEW then channel.fd !in channels
        && (forall fd :: fd in channels ==> channels[fd] != channel)
               else channel.fd in channels && channels[channel.fd] == channel
      modifies this, channel`index
      ensures Settled({}) && channels == old(channels)[channel.fd := channel]
      ensures Interest() == Updated(old(Interest()), channel.fd, channel.events)
      ensures channel.fd in kernel <==> InKernelAfter(old(channel.index) == ADDED, channel.events != NONE_EVENT)
      ensures old(NoEmptyMask(kernel)) ==>
        (NoEmptyMask(kernel) <==> channel.events != NONE_EVENT || old(channel.index) == ADDED)
    {
      hide Tracks, NoEmptyMask, KernelAsked, Updated;
      if channel.index != NEW {
        IndexKnown({channel.fd}, channel.fd);
      }
      if channel.index == NEW || channel.index == DELETED {
        EnterKernel(channel);
      } else {
        ModifyKernel(channel);
        assert channels == old(channels)[channel.fd := channel];
      }
    }

    method RemoveChannel(channel: Channel)
      requires Settled({}) && channel.fd in channels && channels[channel.fd] == channel && channel.IsNoneEvent()
      modifies this, channel`index
      ensures Settled({}) && channels == old(channels) - {channel.fd} && channel.index == NEW && channel.fd !in kernel
      ensures Interest() == old(Interest()) && (old(NoEmptyMask(kernel)) ==> NoEmptyMask(kernel))
    {
      hide Tracks, NoEmptyMask, KernelAsked;
      var fd := channel.fd;
      ghost var was, index, masks := channels, IndicesOf(channels), MasksOf(channels);
      assert index[fd] == channel.index && masks[fd] == NONE_EVENT;
      TrackForget(kernel, was, index, masks, fd);
      channels := channels - {fd};
      if channel.index == ADDED {
        TrackBut(kernel, was, index, masks, fd, NONE_EVENT);
        TrackDelete(kernel, was, index, masks, fd);
        AskedDelete(kernel, fd);
        Update(CtlDel, channel);
      }
      channel.index := NEW;
      assert IndicesOf(channels) == index - {fd};
      assert MasksOf(channels) == masks - {fd};
    }

    /** Every event the kernel reports is for a registered channel, so the checked lookup in the source cannot fail. */
    method FillActiveChannels(events: seq<(nat, Mask)>) returns (active: seq<Channel>)
      requires Settled({}) && forall i :: 0 <= i < |events| ==> events[i].0 in kernel
      requires forall i, j :: 0 <= i < j < |events| ==> events[i].0 != events[j].0
      modifies channels.Values`revents
      ensures |active| == |events|
      ensures forall i :: 0 <= i < |events| ==>
        active[i].fd == events[i].0 && active[i].fd in channels && channels[active[i].fd] == active[i]
          && active[i].revents == events[i].1
    {
      active := [];
      for i := 0 to |events|
        invariant |active| == i
        invariant forall k :: 0 <= k < i ==>
          active[k].fd == events[k].0 && active[k].fd in channels && channels[active[k].fd] == active[k]
            && active[k].revents == events[k].1
      {
        var channel := kernel[events[i].0].channel;
        assert channel.fd == events[i].0;
        channel.revents := events[i].1;
        active := active + [channel];
      }
    }

    ghost predicate Following(fleet: set<Channel>, b: Book)
      reads this, channels.Values`index, channels.Values`events, fleet`index, fleet`events
    {
      && Settled({}) && channels == b.owner && EventsOf(fleet) == b.masks
      && OwnersOK(b.owner, fleet) && Interest() == Wanted(b.masks, b.owner)
      && (forall c :: c in fleet && !Owns(b.owner, c) ==> c.index == NEW)
    }

    lemma Starts(fleet: set<Channel>)
      requires Settled({}) && channels == map[] && kernel == map[] && forall c :: c in fleet ==> c.index == NEW
      ensures Following(fleet, Book(EventsOf(fleet), map[], {}, {}))
    {
    }

    /** A mask operation of a channel. */
    method ChangeMask(channel: Channel, op: Op)
      requires Settled({})
      requires if channel.index == NEW then channel.fd !in channels else Owns(channels, channel)
      modifies this, channel`index, channel`events
      ensures Settled({}) && channels == old(channels)[channel.fd := channel]
      ensures channel.events == Apply(old(channel.events), op)
      ensures Interest() == Updated(old(Interest()), channel.fd, channel.events)
    {
      hide Tracks, NoEmptyMask, KernelAsked, Updated, Apply;
      var fd := channel.fd;
      assert channel.index == NEW ==> forall g :: g in channels ==> channels[g] != channel;
      TrackBut(kernel, channels, IndicesOf(channels), MasksOf(channels), fd, Apply(channel.events, op));
      channel.events := Apply(channel.events, op);
      assert IndicesOf(channels) == old(IndicesOf(channels));
      assert fd !in channels ==> MasksOf(channels) == old(MasksOf(channels));
      assert fd in channels && channels[fd] == channel ==>
        MasksOf(channels) == old(MasksOf(channels))[fd := channel.events];
      UpdateChannel(channel);
    }

    lemma IndexKnown(but: set<nat>, fd: nat)
      requires Settled(but) && fd in channels
      ensures channels[fd].index == ADDED || channels[fd].index == DELETED
    {
      assert IndicesOf(channels)[fd] == channels[fd].index;
    }

    method PerformChange(channel: Channel, op: Op, ghost fleet: set<Channel>, ghost b: Book)
      requires Following(fleet, b) && Legal(b, Change(channel, op))
      modifies this, channel`index, channel`events
      ensures Following(fleet, Next(b, Change(channel, op)))
    {
      hide Tracks, Updated, Apply, Wanted, KernelAsked, Bared;
      ghost var e := Apply(b.masks[channel], op);
      assert fleet == b.masks.Keys;
      WantedChange(b.masks, b.owner, channel, e);
      if channel.fd in channels {
        IndexKnown({}, channel.fd);
      }
      ChangeMask(channel, op);
      assert EventsOf(fleet) == b.masks[channel := e];
    }

    method PerformRemove(channel: Channel, ghost fleet: set<Channel>, ghost b: Book)
      requires Following(fleet, b) && Legal(b, Remove(channel))
      modifies this, channel`index
      ensures Following(fleet, Next(b, Remove(channel)))
    {
      hide Tracks, Updated, Apply, Wanted, KernelAsked;
      assert fleet == b.masks.Keys;
      WantedRemove(b.masks, b.owner, channel);
      RemoveChannel(channel);
      assert EventsOf(fleet) == b.masks;
    }

    method Perform(c: Command, ghost fleet: set<Channel>, ghost b: Book)
      requires Following(fleet, b) && Legal(b, c)
      modifies this, fleet`index, fleet`events
      ensures Following(fleet, Next(b, c))
    {
      hide Settled, Wanted, OwnersOK, Apply, Next;
      match c {
        case Change(channel, op) => PerformChange(channel, op, fleet, b);
        case Remove(channel) => PerformRemove(channel, fleet, b);
      }
    }

    /** Any run legal for PollPoller, and more, leaves the kernel asked for exactly the same map. */
    method Run(cmds: seq<Command>, ghost fleet: set<Channel>, ghost b: Book)
      requires Following(fleet, b) && LegalRun(b, cmds)
      modifies this, fleet`index, fleet`events
      ensures Following(fleet, After(b, cmds))
      ensures Interest() == Wanted(After(b, cmds).masks, After(b, cmds).owner)
    {
      hide Settled, Wanted, OwnersOK, Apply, After, Next;
      var i := 0;
      AfterNone(b, cmds);
      while i < |cmds|
        invariant 0 <= i <= |cmds| && Following(fleet, After(b, cmds[..i]))
      {
        ghost var t := After(b, cmds[..i]);
        assert Legal(t, cmds[i]);
        AfterStep(b, cmds, i);
        Perform(cmds[i], fleet, t);
        i := i + 1;
      }
      assert cmds[..i] == cmds;
    }
  }
}
