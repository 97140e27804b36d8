/** What holds of the ICMPv4 handles of one socket over every run of calls. */
module Runs4 {
  import opened Prelude
  import opened Icmpv4
  import opened Icmpv4Checksum
  import opened Icmpv4Build
  import opened Filter
  import opened OsSockets
  import opened HandleSteps
  import opened Machines
  import opened World4

  // ---------------------------------------------------------------- a handle's own profile

  /** What a handle's own calls decide, which is all a user can see of it. Its transport never changes. */
  datatype Profile = Profile(
    mode: Mode, transport: Transport, bound: Option<Ipv4>, identifier: U16, settings: Settings)

  function Configured(p: Profile, c: Command): Profile {
    if p.mode == Gone then p else
    match c
    case SetReadBufferSize(size) => p.(settings := p.settings.(size := size))
    case SetMaxHops(hops) => p.(settings := p.settings.(opts := p.settings.opts.(hops := hops)))
    case SetTimeout(timeout) => p.(settings := p.settings.(opts := p.settings.opts.(timeout := timeout)))
    case Bind(addr, granted, portRead) =>
      var recorded := if granted.Some? || p.mode == Async then p.(bound := Some(addr)) else p;
      if granted.Some? && portRead && p.transport == Dgram then recorded.(identifier := granted.value) else recorded
    case IntoAsync(switched, registered) =>
      if p.mode == Async then p else p.(mode := if switched && registered then Async else Gone)
    case _ => p
  }

  function ProfileOf(h: Handle): Profile {
    Profile(h.mode, h.transport, h.core.bound, h.identifier, SettingsOf(h.core))
  }

  /** The profile of handle i after a run, read off the calls addressed to it and nothing else. */
  function OwnProfile(w: State, calls: seq<Call<Command>>, i: nat): Profile
    requires i < |w.handles|
  {
    Own(Configured, ProfileOf(w.handles[i]), i, calls)
  }

  lemma ConfiguredReact(h: Handle, os: Os4, c: Command)
    ensures ProfileOf(React(h, os, c).handle) == Configured(ProfileOf(h), c)
  {
    if c.Bind? {
      BindConfigures(h, os, c);
    } else if c.RcvFrom? || c.RcvFromWithMeta? {
      ReceiveConfigures(h, os, c);
    } else {
      OtherConfigures(h, os, c);
    }
  }

  lemma BindConfigures(h: Handle, os: Os4, c: Command)
    requires c.Bind?
    ensures ProfileOf(React(h, os, c).handle) == Configured(ProfileOf(h), c)
  {
  }

  lemma ReceiveConfigures(h: Handle, os: Os4, c: Command)
    requires c.RcvFrom? || c.RcvFromWithMeta?
    ensures ProfileOf(React(h, os, c).handle) == Configured(ProfileOf(h), c)
  {
  }

  lemma OtherConfigures(h: Handle, os: Os4, c: Command)
    requires !c.Bind? && !c.RcvFrom? && !c.RcvFromWithMeta?
    ensures ProfileOf(React(h, os, c).handle) == Configured(ProfileOf(h), c)
  {
  }

  /** No receive, clone or other handle's call moves a handle's mode, address, identifier, buffer size or options. */
  lemma SettingsAreOwn(w: State, calls: seq<Call<Command>>, i: nat)
    requires i < |w.handles|
    ensures ProfileOf(Run(w, calls).0.handles[i]) == OwnProfile(w, calls, i)
  {
    forall h: Handle, os: Os4, c: Command
      ensures ProfileOf(React(h, os, c).handle) == Configured(ProfileOf(h), c)
    {
      ConfiguredReact(h, os, c);
    }
    OwnOverRuns(React, Unavailable, ProfileOf, Configured, w, calls, i);
  }

  // ---------------------------------------------------------------- receiving

  /**
    What a receive call must answer, from the datagram and the configured size alone: the
    system's error, a missing peer where Linux metadata needs one, truncation, the parser's
    error, or the packet and its sender.
   */
  function MeantReceive(c: Command, size: nat): Outcome
    requires c.RcvFrom? || c.RcvFromWithMeta?
  {
    match c.arrival
    case NoArrival(kind) => Failed(OsError(kind))
    case Arrived(datagram, peer, named) =>
      if c.RcvFromWithMeta? && c.linux && !named then Failed(MissingPeer)
      else if |datagram| >= size then Failed(Truncated)
      else
        match ParseAuto(datagram)
        case Ok(packet) => Got(packet, peer)
        case Err(e) => Failed(Malformed(e))
  }

  lemma ReceiveReact(h: Handle, os: Os4, c: Command)
    requires h.mode != Gone && (c.RcvFrom? || c.RcvFromWithMeta?)
    ensures var r := React(h, os, c);
            && r.outcome == (if h.mode == Blocking && !c.timeoutAccepted then Failed(OsError(Refused))
                             else MeantReceive(c, |h.core.buf.store|))
            && |r.handle.core.buf.store| == |h.core.buf.store|
            && (h.mode == Blocking && c.timeoutAccepted ==>
                  r.os.trace == os.trace + if os.nonblocking then [] else [Waited(h.core.opts.timeout)])
  {
    ReactMatches(h, os, c);
  }

  /**
    After any run, every receive path (blocking or async, plain or with metadata, either
    platform) answers from the datagram and the last configured size. Nothing left in the
    reused buffer shows, and the capacity is still that size.
   */
  lemma ReceiveAfterAnyRun(w: State, calls: seq<Call<Command>>, i: nat, c: Command)
    requires i < |w.handles| && OwnProfile(w, calls, i).mode != Gone
    requires c.RcvFrom? || c.RcvFromWithMeta?
    ensures var own := OwnProfile(w, calls, i);
            var (after, outcome) := Step(Run(w, calls).0, Call(i, c));
            && outcome == (if own.mode == Blocking && !c.timeoutAccepted then Failed(OsError(Refused))
                           else MeantReceive(c, own.settings.size))
            && |after.handles[i].core.buf.store| == own.settings.size
  {
    SettingsAreOwn(w, calls, i);
    var before := Run(w, calls).0;
    ReceiveReact(before.handles[i], before.os, c);
  }

  /** A conversion that got as far as switching the shared socket, registered or not. */
  predicate Switches(c: Command, outcome: Outcome) {
    c.IntoAsync? && c.switched && outcome != Unavailable
  }

  lemma SwitchReact(h: Handle, os: Os4, c: Command)
    ensures var r := React(h, os, c);
            r.os.nonblocking == (os.nonblocking || Switches(c, r.outcome))
  {
  }

  /** The shared socket is nonblocking after a run exactly if some conversion in it made the switch. */
  lemma NonblockingExactly(w: State, calls: seq<Call<Command>>)
    ensures var (after, outcomes) := Run(w, calls);
            after.os.nonblocking == (w.os.nonblocking || Happened(Switches, calls, outcomes))
  {
    var nonblocking := (os: Os4) => os.nonblocking;
    forall h: Handle, os: Os4, c: Command
      ensures nonblocking(React(h, os, c).os) == (nonblocking(os) || Switches(c, React(h, os, c).outcome))
    {
      SwitchReact(h, os, c);
    }
    HappenedOverRuns(React, Unavailable, nonblocking, Switches, w, calls);
  }

  /**
    On a socket opened blocking, an accepted receive of a blocking handle waits exactly if
    no conversion in the run, of whichever clone, switched the socket. When it waits, it is
    under the handle's own timeout, whatever its clones last wrote.
   */
  lemma WaitsExactly(w: State, calls: seq<Call<Command>>, i: nat, c: Command)
    requires i < |w.handles| && OwnProfile(w, calls, i).mode == Blocking
    requires (c.RcvFrom? || c.RcvFromWithMeta?) && c.timeoutAccepted && !w.os.nonblocking
    ensures var (before, outcomes) := Run(w, calls);
            Step(before, Call(i, c)).0.os.trace ==
            before.os.trace + if Happened(Switches, calls, outcomes) then []
                              else [Waited(OwnProfile(w, calls, i).settings.opts.timeout)]
  {
    SettingsAreOwn(w, calls, i);
    NonblockingExactly(w, calls);
    var before := Run(w, calls).0;
    ReceiveReact(before.handles[i], before.os, c);
  }

  // ---------------------------------------------------------------- sending and delivery

  /** The packet a send call puts on the wire, before its checksum is filled. */
  function PacketOf(h: Handle, c: Command): Packet
    requires c.SendPacket? || c.SendEcho?
  {
    if c.SendPacket? then c.packet else WithEchoRequest(h.identifier, c.sequence, c.payload).value
  }

  function ImageOf(h: Handle, c: Command): seq<Byte>
    requires c.SendPacket? || c.SendEcho?
  {
    PacketImage(PacketOf(h, c))
  }

  lemma SendReact(h: Handle, os: Os4, c: Command)
    requires c.SendPacket? || c.SendEcho?
    ensures var r := React(h, os, c);
            r.outcome == Done ==> r.os.trace == os.trace + [Sent(c.dest, ImageOf(h, c), h.core.opts.hops)]
  {
  }

  /** Every datagram leaves under the sending handle's own hop limit. */
  lemma SendUsesOwnHops(w: State, calls: seq<Call<Command>>, i: nat, c: Command)
    requires i < |w.handles|
    requires c.SendPacket? || c.SendEcho?
    ensures var before := Run(w, calls).0;
            var (after, outcome) := Step(before, Call(i, c));
            outcome == Done ==>
              after.os.trace ==
              before.os.trace
              + [Sent(c.dest, ImageOf(before.handles[i], c), OwnProfile(w, calls, i).settings.opts.hops)]
  {
    SettingsAreOwn(w, calls, i);
    var before := Run(w, calls).0;
    SendReact(before.handles[i], before.os, c);
  }

  /**
    A well-formed packet sent raw, or any echo request sent by a datagram handle, received
    in time into a larger buffer behind any header, arrives filled, on every receive path
    and after any runs on both sides.
   */
  lemma DeliveryEndToEnd(
    ws: State, i: nat, send: Command, wr: State, calls: seq<Call<Command>>, j: nat, header: seq<Byte>, c: Command)
    requires i < |ws.handles| && (send.SendEcho? || (send.SendPacket? && WellFormed(send.packet)))
    requires header == [] || Ipv4HeaderOfOwnLength(header)
    requires j < |wr.handles| && (c.RcvFrom? || c.RcvFromWithMeta?) && c.arrival.Arrived?
    requires OwnProfile(wr, calls, j).mode == Async || (OwnProfile(wr, calls, j).mode == Blocking && c.timeoutAccepted)
    requires c.RcvFromWithMeta? && c.linux ==> c.arrival.named
    ensures var (sent, outcome) := Step(ws, Call(i, send));
            var packet, image := PacketOf(ws.handles[i], send), ImageOf(ws.handles[i], send);
            outcome == Done ==>
              && sent.os.trace == ws.os.trace + [Sent(send.dest, image, ws.handles[i].core.opts.hops)]
              && (c.arrival.datagram == header + image
                  && |c.arrival.datagram| < OwnProfile(wr, calls, j).settings.size ==>
                    && Step(Run(wr, calls).0, Call(j, c)).1 == Got(Filled(packet), c.arrival.peer)
                    && Verifies(Filled(packet)))
  {
    var packet := PacketOf(ws.handles[i], send);
    SendReact(ws.handles[i], ws.os, send);
    ReceiveAfterAnyRun(wr, calls, j, c);
    FilledVerifies(packet);
    AutoDetectionUnambiguous(Filled(packet), header);
  }

  // ---------------------------------------------------------------- clones and conversions

  /** A clone is made exactly of a bound blocking handle the system lets duplicate, and is its ideal equal. */
  lemma CloneIsEqual(w: State, i: nat, dupAccepted: bool)
    requires i < |w.handles|
    ensures var h := w.handles[i];
            var (w', outcome) := Step(w, Call(i, TryClone(dupAccepted)));
            && (outcome == Done <==> h.mode == Blocking && h.core.bound.Some? && dupAccepted)
            && w'.os == w.os
            && (outcome == Done ==>
                  |w'.handles| == |w.handles| + 1
                  && w'.handles[..|w.handles|] == w.handles
                  && Idealize(w'.handles[|w.handles|]) == Idealize(h))
            && (outcome != Done ==> w' == w)
  {
  }

  /**
    A conversion keeps the buffer size, address, options and identifier, at whatever length
    the buffer was left, and touches no other handle. In the shared socket it makes the
    nonblocking switch and nothing else, and that switch outlives a failure to register.
   */
  lemma ConversionKeeps(w: State, i: nat, switched: bool, registered: bool)
    requires i < |w.handles| && w.handles[i].mode == Blocking
    ensures var (w', outcome) := Step(w, Call(i, IntoAsync(switched, registered)));
            && (outcome == Done <==> switched && registered)
            && w'.os == w.os.(nonblocking := w.os.nonblocking || switched)
            && Idealize(w'.handles[i])
            == Idealize(w.handles[i]).(mode := if switched && registered then Async else Gone)
            && |w'.handles| == |w.handles|
            && forall j :: 0 <= j < |w.handles| && j != i ==> w'.handles[j] == w.handles[j]
  {
  }

  /** From the moment it is made, no sequence of calls tells a clone from its original. */
  lemma CloneIndistinguishable(w: State, i: nat, cs: seq<Command>)
    requires i < |w.handles|
    ensures var (w', outcome) := Step(w, Call(i, TryClone(true)));
            var onOriginal, onClone := Run(w', AllOn(i, cs)), Run(w', AllOn(|w.handles|, cs));
            outcome == Done ==>
              && onOriginal.1 == onClone.1
              && onOriginal.0.os.trace == onClone.0.os.trace
              && onOriginal.0.os.nonblocking == onClone.0.os.nonblocking
  {
    CloneIsEqual(w, i, true);
    var (w', outcome) := Step(w, Call(i, TryClone(true)));
    if outcome == Done {
      var v := IdealizeState(w');
      RunMatches(w', AllOn(i, cs));
      RunMatches(w', AllOn(|w.handles|, cs));
      EqualHandlesRunAlike(IdealReact, Unavailable, v, v, i, |w.handles|, cs);
    }
  }

  /** Calls that do not depend on the mode: no clone or conversion, and the system lets timeouts through. */
  predicate ModeBlind(c: Command) {
    && !c.TryClone? && !c.IntoAsync?
    && (c.RcvFrom? || c.RcvFromWithMeta? ==> c.timeoutAccepted)
  }

  /** What a peer sees of a trace. */
  ghost function SentOnly(trace: seq<Event<Ipv4>>): seq<Event<Ipv4>> {
    if trace == [] then []
    else SentOnly(trace[..|trace| - 1]) + if trace[|trace| - 1].Sent? then [trace[|trace| - 1]] else []
  }

  lemma SentOnlyLast(trace: seq<Event<Ipv4>>, event: Event<Ipv4>)
    ensures SentOnly(trace + [event]) == SentOnly(trace) + if event.Sent? then [event] else []
  {
    assert (trace + [event])[..|trace|] == trace;
  }

  ghost predicate SameToPeers(v: IdealOs, w: IdealOs) {
    v.port == w.port && v.passing == w.passing && SentOnly(v.trace) == SentOnly(w.trace)
  }

  /** The async handle is the blocking one, but for the address a refused bind leaves recorded. */
  ghost predicate Converted(h: Ideal, async: Ideal) {
    h.mode == Blocking && async == h.(mode := Async, bound := async.bound)
  }

  ghost predicate ReactAlike(blocking: IdealReacted, async: IdealReacted) {
    && blocking.outcome == async.outcome
    && SameToPeers(blocking.os, async.os)
    && Converted(blocking.handle, async.handle)
    && blocking.clone.None? && async.clone.None?
  }

  lemma EventAlike(v: IdealOs, w: IdealOs, event: Event<Ipv4>)
    requires SameToPeers(v, w)
    ensures SameToPeers(v.With(event), w.With(event))
    ensures event.Waited? ==> SameToPeers(v.With(event), w)
  {
    SentOnlyLast(v.trace, event);
    SentOnlyLast(w.trace, event);
  }

  lemma ModesSendAlike(
    h: Ideal, g: Ideal, v: IdealOs, w: IdealOs, dest: Ipv4, image: Result<seq<Byte>, IoError>, accepted: bool)
    requires Converted(h, g) && SameToPeers(v, w)
    ensures ReactAlike(IdealSend(h, v, dest, image, accepted), IdealSend(g, w, dest, image, accepted))
  {
    if image.Ok? {
      EventAlike(v, w, Sent(dest, image.value, h.opts.hops));
    }
  }

  lemma ModesBindAlike(h: Ideal, g: Ideal, v: IdealOs, w: IdealOs, addr: Ipv4, granted: Option<U16>, portRead: bool)
    requires Converted(h, g) && SameToPeers(v, w)
    ensures ReactAlike(IdealBind(h, v, addr, granted, portRead), IdealBind(g, w, addr, granted, portRead))
  {
    if granted.Some? {
      EventAlike(v.(port := granted.value), w.(port := granted.value), Bound(addr, granted.value));
    }
  }

  lemma ModesReceiveAlike(h: Ideal, g: Ideal, v: IdealOs, w: IdealOs, read: Result<(seq<Byte>, Ipv4), IoError>)
    requires Converted(h, g) && SameToPeers(v, w)
    ensures ReactAlike(IdealReceive(h, v, true, read), IdealReceive(g, w, true, read))
  {
    EventAlike(v, w, Waited(h.opts.timeout));
  }

  lemma ModesOwnAlike(h: Ideal, g: Ideal, v: IdealOs, w: IdealOs, c: Command)
    requires Converted(h, g) && SameToPeers(v, w)
    requires c.SetReadBufferSize? || c.SetMaxHops? || c.SetTimeout? || c.SetAllowedTypes? || c.ClearTypeFilter?
    ensures ReactAlike(IdealReact(h, v, c), IdealReact(g, w, c))
  {
  }

  lemma ModesPacketAlike(h: Ideal, g: Ideal, v: IdealOs, w: IdealOs, c: Command)
    requires Converted(h, g) && SameToPeers(v, w) && c.SendPacket?
    ensures ReactAlike(IdealReact(h, v, c), IdealReact(g, w, c))
  {
    ModesSendAlike(h, g, v, w, c.dest, Ok(PacketImage(c.packet)), c.hopsAccepted && c.sendAccepted);
  }

  lemma ModesEchoAlike(h: Ideal, g: Ideal, v: IdealOs, w: IdealOs, c: Command)
    requires Converted(h, g) && SameToPeers(v, w) && c.SendEcho?
    ensures ReactAlike(IdealReact(h, v, c), IdealReact(g, w, c))
  {
    ModesSendAlike(h, g, v, w, c.dest, EchoImage(h.identifier, c.sequence, c.payload),
                   c.hopsAccepted && c.sendAccepted);
  }

  lemma ModesRcvAlike(h: Ideal, g: Ideal, v: IdealOs, w: IdealOs, c: Command)
    requires Converted(h, g) && SameToPeers(v, w) && c.RcvFrom? && c.timeoutAccepted
    ensures ReactAlike(IdealReact(h, v, c), IdealReact(g, w, c))
  {
    var read := Delivered(c.arrival, h.size);
    assert IdealReact(h, v, c) == IdealReceive(h, v, true, read);
    assert IdealReact(g, w, c) == IdealReceive(g, w, true, read);
    ModesReceiveAlike(h, g, v, w, read);
  }

  lemma ModesMetaAlike(h: Ideal, g: Ideal, v: IdealOs, w: IdealOs, c: Command)
    requires Converted(h, g) && SameToPeers(v, w) && c.RcvFromWithMeta? && c.timeoutAccepted
    ensures ReactAlike(IdealReact(h, v, c), IdealReact(g, w, c))
  {
    var read := DeliveredMeta(c.linux, c.arrival, h.size);
    assert IdealReact(h, v, c) == IdealReceive(h, v, true, read);
    assert IdealReact(g, w, c) == IdealReceive(g, w, true, read);
    ModesReceiveAlike(h, g, v, w, read);
  }

  lemma ModesReactAlike(h: Ideal, g: Ideal, v: IdealOs, w: IdealOs, c: Command)
    requires Converted(h, g) && SameToPeers(v, w) && ModeBlind(c)
    ensures ReactAlike(IdealReact(h, v, c), IdealReact(g, w, c))
  {
    if c.Bind? {
      ModesBindAlike(h, g, v, w, c.addr, c.granted, c.portRead);
    } else if c.SendPacket? {
      ModesPacketAlike(h, g, v, w, c);
    } else if c.SendEcho? {
      ModesEchoAlike(h, g, v, w, c);
    } else if c.RcvFrom? {
      ModesRcvAlike(h, g, v, w, c);
    } else if c.RcvFromWithMeta? {
      ModesMetaAlike(h, g, v, w, c);
    } else {
      ModesOwnAlike(h, g, v, w, c);
    }
  }

  lemma {:induction false} ModesRunAlike(v: IdealState, w: IdealState, i: nat, cs: seq<Command>)
    requires i < |v.handles| && i < |w.handles|
    requires Converted(v.handles[i], w.handles[i]) && SameToPeers(v.os, w.os)
    requires forall k :: 0 <= k < |cs| ==> ModeBlind(cs[k])
    ensures IdealRun(v, AllOn(i, cs)).1 == IdealRun(w, AllOn(i, cs)).1
    ensures SameToPeers(IdealRun(v, AllOn(i, cs)).0.os, IdealRun(w, AllOn(i, cs)).0.os)
    decreases |cs|
  {
    if cs != [] {
      assert AllOn(i, cs)[1..] == AllOn(i, cs[1..]);
      ModesReactAlike(v.handles[i], w.handles[i], v.os, w.os, cs[0]);
      ModesRunAlike(IdealStep(v, Call(i, cs[0])).0, IdealStep(w, Call(i, cs[0])).0, i, cs[1..]);
    }
  }

  /** A converted handle gives the results, datagrams and filter its blocking original would have. */
  lemma ConversionIndistinguishable(w: State, i: nat, cs: seq<Command>)
    requires i < |w.handles| && w.handles[i].mode == Blocking
    requires forall k :: 0 <= k < |cs| ==> ModeBlind(cs[k])
    ensures var converted := Step(w, Call(i, IntoAsync(true, true))).0;
            var stayed, moved := Run(w, AllOn(i, cs)), Run(converted, AllOn(i, cs));
            && stayed.1 == moved.1
            && SameToPeers(IdealizeOs(stayed.0.os), IdealizeOs(moved.0.os))
  {
    var converted := Step(w, Call(i, IntoAsync(true, true))).0;
    ConversionKeeps(w, i, true, true);
    RunMatches(w, AllOn(i, cs));
    RunMatches(converted, AllOn(i, cs));
    ModesRunAlike(IdealizeState(w), IdealizeState(converted), i, cs);
  }

  // ---------------------------------------------------------------- bound addresses

  /** A live handle's recorded address is one the system accepted. */
  ghost predicate Backed(h: Handle, os: Os4) {
    h.mode != Gone && h.core.bound.Some? ==> Accepted(os.trace, h.core.bound.value)
  }

  predicate Unbound(w: State) {
    forall k :: 0 <= k < |w.handles| ==> w.handles[k].core.bound == None
  }

  /** The calls that bring an address into the trace. */
  function GrantsOf(addr: Ipv4): (Command, Outcome) -> bool {
    (c: Command, r: Outcome) => c.Bind? && c.addr == addr && c.granted.Some? && r != Unavailable
  }

  ghost predicate Unbinding(before: seq<Event<Ipv4>>, after: seq<Event<Ipv4>>) {
    |after| == |before| + 1 && after[..|before|] == before && !after[|before|].Bound?
  }

  /** What a reaction adds to the trace. */
  lemma TraceReact(h: Handle, os: Os4, c: Command)
    ensures var r := React(h, os, c);
            && (c.Bind? && c.granted.Some? && r.outcome != Unavailable ==>
                  r.os.trace == os.trace + [Bound(c.addr, c.granted.value)])
            && (!(c.Bind? && c.granted.Some? && r.outcome != Unavailable) ==>
                  r.os.trace == os.trace || Unbinding(os.trace, r.os.trace))
  {
    ReactMatches(h, os, c);
    IdealTraceReact(Idealize(h), IdealizeOs(os), c);
  }

  lemma IdealTraceReact(h: Ideal, os: IdealOs, c: Command)
    ensures var r := IdealReact(h, os, c);
            && (c.Bind? && c.granted.Some? && r.outcome != Unavailable ==>
                  r.os.trace == os.trace + [Bound(c.addr, c.granted.value)])
            && (!(c.Bind? && c.granted.Some? && r.outcome != Unavailable) ==>
                  r.os.trace == os.trace || Unbinding(os.trace, r.os.trace))
  {
  }

  lemma AcceptedReact(h: Handle, os: Os4, c: Command, addr: Ipv4)
    ensures var r := React(h, os, c);
            Accepted(r.os.trace, addr) == (Accepted(os.trace, addr) || GrantsOf(addr)(c, r.outcome))
  {
    var r := React(h, os, c);
    TraceReact(h, os, c);
    if c.Bind? && c.granted.Some? && r.outcome != Unavailable {
      AcceptedLast(os.trace, Bound(c.addr, c.granted.value), addr);
    } else if r.os.trace != os.trace {
      var last := r.os.trace[|os.trace|];
      assert r.os.trace == os.trace + [last];
      AcceptedLast(os.trace, last, addr);
    }
  }

  /** Exactly which addresses a run gets accepted. */
  lemma AcceptedExactly(w: State, calls: seq<Call<Command>>, addr: Ipv4)
    ensures var (after, outcomes) := Run(w, calls);
            Accepted(after.os.trace, addr) == (Accepted(w.os.trace, addr) || Happened(GrantsOf(addr), calls, outcomes))
  {
    var accepted := (os: Os4) => Accepted(os.trace, addr);
    forall h: Handle, os: Os4, c: Command
      ensures accepted(React(h, os, c).os) == (accepted(os) || GrantsOf(addr)(c, React(h, os, c).outcome))
    {
      AcceptedReact(h, os, c, addr);
    }
    HappenedOverRuns(React, Unavailable, accepted, GrantsOf(addr), w, calls);
  }

  /** The handles whose address was last recorded by a bind the system refused, which only async handles do. */
  ghost function UnaskedStep(w: State, unasked: set<nat>, call: Call<Command>): set<nat> {
    if call.on >= |w.handles| || !call.command.Bind? || w.handles[call.on].mode == Gone then unasked
    else if call.command.granted.Some? then unasked - {call.on}
    else if w.handles[call.on].mode == Async then unasked + {call.on}
    else unasked
  }

  ghost function Unasked(w: State, unasked: set<nat>, calls: seq<Call<Command>>): set<nat>
    decreases |calls|
  {
    if calls == [] then unasked
    else Unasked(Step(w, calls[0]).0, UnaskedStep(w, unasked, calls[0]), calls[1..])
  }

  ghost predicate BackedOutside(w: State, unasked: set<nat>) {
    && (forall t :: t in unasked ==> t < |w.handles| && w.handles[t].mode != Blocking)
    && (forall i :: 0 <= i < |w.handles| && i !in unasked ==> Backed(w.handles[i], w.os))
  }

  /** Only a bind moves the recorded address, and a clone, made of a blocking handle, copies it. */
  lemma AddressReact(h: Handle, os: Os4, c: Command)
    ensures var r := React(h, os, c);
            && r.handle.core.bound == (if !c.Bind? || h.mode == Gone then h.core.bound
                                       else if c.granted.Some? || h.mode == Async then Some(c.addr)
                                       else h.core.bound)
            && (r.handle.mode == Blocking ==> h.mode == Blocking)
            && (h.mode == Gone ==> r.handle.mode == Gone)
            && (r.clone.Some? ==> h.mode == Blocking && !c.Bind? && r.clone.value.core.bound == h.core.bound)
  {
    if c.Bind? {
      BindAddress(h, os, c);
    } else {
      OtherAddress(h, os, c);
    }
  }

  lemma BindAddress(h: Handle, os: Os4, c: Command)
    requires c.Bind?
    ensures var r := React(h, os, c);
            && r.handle.core.bound == (if h.mode == Gone then h.core.bound
                                       else if c.granted.Some? || h.mode == Async then Some(c.addr)
                                       else h.core.bound)
            && r.handle.mode == h.mode && r.clone.None?
  {
  }

  lemma OtherAddress(h: Handle, os: Os4, c: Command)
    requires !c.Bind?
    ensures var r := React(h, os, c);
            && r.handle.core.bound == h.core.bound
            && (r.handle.mode == Blocking ==> h.mode == Blocking)
            && (h.mode == Gone ==> r.handle.mode == Gone)
            && (r.clone.Some? ==> h.mode == Blocking && r.clone.value.core.bound == h.core.bound)
  {
  }

  lemma BackedLater(h: Handle, os: Os4, c: Command, other: Handle)
    requires Backed(other, os)
    ensures Backed(other, React(h, os, c).os)
  {
    if other.core.bound.Some? {
      AcceptedReact(h, os, c, other.core.bound.value);
    }
  }

  lemma BackedReact(h: Handle, os: Os4, c: Command)
    requires Backed(h, os) || (c.Bind? && c.granted.Some?)
    requires !(c.Bind? && c.granted.None? && h.mode == Async)
    ensures var r := React(h, os, c);
            Backed(r.handle, r.os) && (r.clone.Some? ==> Backed(r.clone.value, r.os))
  {
    AddressReact(h, os, c);
    var r := React(h, os, c);
    if h.mode != Gone && r.handle.core.bound.Some? {
      AcceptedReact(h, os, c, r.handle.core.bound.value);
    }
  }

  lemma BackedStep(w: State, unasked: set<nat>, call: Call<Command>)
    requires BackedOutside(w, unasked)
    ensures BackedOutside(Step(w, call).0, UnaskedStep(w, unasked, call))
  {
    if call.on < |w.handles| {
      var h, c := w.handles[call.on], call.command;
      var w', unasked' := Step(w, call).0, UnaskedStep(w, unasked, call);
      AddressReact(h, w.os, c);
      if call.on !in unasked' || c.TryClone? {
        if call.on !in unasked || (c.Bind? && c.granted.Some?) {
          BackedReact(h, w.os, c);
        }
      }
      forall i | 0 <= i < |w'.handles| && i !in unasked'
        ensures Backed(w'.handles[i], w'.os)
      {
        if i < |w.handles| && i != call.on {
          assert w'.handles[i] == w.handles[i] && i !in unasked;
          BackedLater(h, w.os, c, w.handles[i]);
        }
      }
    }
  }

  lemma {:induction false} BackedOverRuns(w: State, unasked: set<nat>, calls: seq<Call<Command>>)
    requires BackedOutside(w, unasked)
    ensures BackedOutside(Run(w, calls).0, Unasked(w, unasked, calls))
    decreases |calls|
  {
    if calls != [] {
      BackedStep(w, unasked, calls[0]);
      BackedOverRuns(Step(w, calls[0]).0, UnaskedStep(w, unasked, calls[0]), calls[1..]);
    }
  }

  /**
    From an unbound start, a live handle's address was accepted unless an async handle
    recorded it on a refused bind and no bind of that address, through any handle, was ever
    granted. Blocking handles are never in doubt.
   */
  lemma AddressAcceptedExactly(w: State, calls: seq<Call<Command>>, i: nat)
    requires Unbound(w) && i < |Run(w, calls).0.handles|
    requires Run(w, calls).0.handles[i].mode != Gone && Run(w, calls).0.handles[i].core.bound.Some?
    ensures var (after, outcomes) := Run(w, calls);
            var addr := after.handles[i].core.bound.value;
            && (Accepted(after.os.trace, addr)
                <==> (i in Unasked(w, {}, calls) ==>
                        Accepted(w.os.trace, addr) || Happened(GrantsOf(addr), calls, outcomes)))
            && (after.handles[i].mode == Blocking ==> i !in Unasked(w, {}, calls))
  {
    BackedOverRuns(w, {}, calls);
    var after := Run(w, calls).0;
    assert i !in Unasked(w, {}, calls) ==> Backed(after.handles[i], after.os);
    AcceptedExactly(w, calls, after.handles[i].core.bound.value);
  }

  /** Without a refused bind on an async handle nothing is in doubt. */
  lemma {:induction false} NothingUnasked(w: State, calls: seq<Call<Command>>)
    requires forall k :: 0 <= k < |calls| && calls[k].command.Bind? && OwnModeBefore(w, calls, k) == Async ==>
                           calls[k].command.granted.Some?
    ensures Unasked(w, {}, calls) == {}
    decreases |calls|
  {
    if calls != [] {
      var w' := Step(w, calls[0]).0;
      assert calls[..0] == [];
      assert UnaskedStep(w, {}, calls[0]) == {};
      forall k | 0 <= k < |calls[1..]|
        ensures OwnModeBefore(w', calls[1..], k) == OwnModeBefore(w, calls, k + 1)
      {
        assert calls[..k + 1][1..] == calls[1..][..k];
      }
      NothingUnasked(w', calls[1..]);
    }
  }

  /** The mode of the handle a call is addressed to, when its turn comes. */
  function OwnModeBefore(w: State, calls: seq<Call<Command>>, k: nat): Mode
    requires k < |calls|
  {
    var before := Run(w, calls[..k]).0;
    if calls[k].on < |before.handles| then before.handles[calls[k].on].mode else Gone
  }

  /** A refused bind of an address nobody was ever granted is recorded by an async handle, and by no blocking one. */
  lemma RefusedBindRecordedOnlyByAsync(w: State, calls: seq<Call<Command>>, i: nat, addr: Ipv4, portRead: bool)
    requires i < |w.handles| && OwnProfile(w, calls, i).mode != Gone
    ensures var (before, outcomes) := Run(w, calls);
            var (after, outcome) := Step(before, Call(i, Bind(addr, None, portRead)));
            && outcome == Failed(OsError(Refused))
            && after.os == before.os
            && after.handles[i].core.bound
            == (if OwnProfile(w, calls, i).mode == Async then Some(addr) else before.handles[i].core.bound)
            && (Accepted(after.os.trace, addr)
                <==> Accepted(w.os.trace, addr) || Happened(GrantsOf(addr), calls, outcomes))
  {
    SettingsAreOwn(w, calls, i);
    AcceptedExactly(w, calls, addr);
  }

  // ---------------------------------------------------------------- datagram identifiers

  /** Handles keep an identifier, and pass it to their clones, until their own next successful bind. */
  ghost function CarriersStep(w: State, carriers: set<nat>, call: Call<Command>): set<nat> {
    var (w', outcome) := Step(w, call);
    (if call.command.Bind? && outcome == Done then carriers - {call.on} else carriers)
    + (if call.on in carriers && |w'.handles| > |w.handles| then {|w.handles|} else {})
  }

  ghost function Carriers(w: State, carriers: set<nat>, calls: seq<Call<Command>>): set<nat>
    decreases |calls|
  {
    if calls == [] then carriers
    else Carriers(Step(w, calls[0]).0, CarriersStep(w, carriers, calls[0]), calls[1..])
  }

  ghost predicate AllIdentify(w: State, carriers: set<nat>, identifier: U16) {
    forall j :: j in carriers ==> j < |w.handles| && w.handles[j].identifier == identifier
  }

  lemma IdentifierReact(h: Handle, os: Os4, c: Command)
    ensures var r := React(h, os, c);
            && (!(c.Bind? && r.outcome == Done) ==> r.handle.identifier == h.identifier)
            && (r.clone.Some? ==> r.clone.value.identifier == h.identifier)
  {
    ReactMatches(h, os, c);
  }

  lemma IdentifierStep(w: State, carriers: set<nat>, call: Call<Command>, identifier: U16)
    requires AllIdentify(w, carriers, identifier)
    ensures AllIdentify(Step(w, call).0, CarriersStep(w, carriers, call), identifier)
  {
    if call.on < |w.handles| {
      IdentifierReact(w.handles[call.on], w.os, call.command);
    }
  }

  /** Over every run, refused binds, rebinds of clones and rebinds of originals included. */
  lemma {:induction false} IdentifierPersists(
    w: State, carriers: set<nat>, calls: seq<Call<Command>>, identifier: U16)
    requires AllIdentify(w, carriers, identifier)
    ensures AllIdentify(Run(w, calls).0, Carriers(w, carriers, calls), identifier)
    decreases |calls|
  {
    if calls != [] {
      IdentifierStep(w, carriers, calls[0], identifier);
      IdentifierPersists(Step(w, calls[0]).0, CarriersStep(w, carriers, calls[0]), calls[1..], identifier);
    }
  }

  /** One more datagram went out: a verifying echo request with this identifier and the call's own content. */
  predicate EchoOnTheWire(before: seq<Event<Ipv4>>, after: seq<Event<Ipv4>>, identifier: U16, send: Command)
    requires send.SendEcho?
  {
    && |after| == |before| + 1 && after[..|before|] == before
    && after[|before|].Sent?
    && after[|before|].dest == send.dest
    && var got := ParseAuto(after[|before|].bytes);
    && got.Ok?
    && got.value.message == Echo(identifier, send.sequence, send.payload)
    && Verifies(got.value)
  }

  function BindDgram(addr: Ipv4, port: U16): Command {
    Bind(addr, Some(port), true)
  }

  lemma BindIdentifies(w: State, i: nat, addr: Ipv4, port: U16)
    requires i < |w.handles| && w.handles[i].transport == Dgram
    ensures Step(w, Call(i, BindDgram(addr, port))).1 == Done ==>
              AllIdentify(Step(w, Call(i, BindDgram(addr, port))).0, {i}, port)
  {
  }

  /**
    After a datagram handle's bind returned Ok, every echo request sent by the handle, its
    clones or their conversions, each until its own next successful bind, carries the port
    of that bind and verifies.
   */
  lemma EchoCarriesBoundPort(
    w: State, i: nat, addr: Ipv4, port: U16, calls: seq<Call<Command>>, j: nat, send: Command)
    requires i < |w.handles| && w.handles[i].transport == Dgram && send.SendEcho?
    ensures var (bound, out) := Step(w, Call(i, BindDgram(addr, port)));
            var before := Run(bound, calls).0;
            var (after, sent) := Step(before, Call(j, send));
            out == Done && j in Carriers(bound, {i}, calls) && sent == Done ==>
              EchoOnTheWire(before.os.trace, after.os.trace, port, send)
  {
    var (bound, out) := Step(w, Call(i, BindDgram(addr, port)));
    if out == Done && j in Carriers(bound, {i}, calls) {
      BindIdentifies(w, i, addr, port);
      IdentifierPersists(bound, {i}, calls, port);
      EchoSent(Run(bound, calls).0, j, port, send);
    }
  }

  lemma EchoSent(w: State, j: nat, port: U16, send: Command)
    requires j < |w.handles| && w.handles[j].identifier == port && send.SendEcho?
    ensures var (after, sent) := Step(w, Call(j, send));
            sent == Done ==> EchoOnTheWire(w.os.trace, after.os.trace, port, send)
  {
    SendReact(w.handles[j], w.os, send);
    EchoImageParses(port, send.sequence, send.payload);
  }

  lemma EchoImageParses(identifier: U16, sequence: U16, payload: seq<Byte>)
    ensures var got := ParseAuto(PacketImage(WithEchoRequest(identifier, sequence, payload).value));
            got.Ok? && got.value.message == Echo(identifier, sequence, payload) && Verifies(got.value)
  {
    var p := WithEchoRequest(identifier, sequence, payload).value;
    FilledVerifies(p);
    AutoDetectionUnambiguous(Filled(p), []);
    assert [] + Bytes(Filled(p), true) == Bytes(Filled(p), true);
  }

  // ---------------------------------------------------------------- the receive filter

  /** Only a filter call that succeeded changes what passes. */
  ghost function Passing(start: iset<bv8>, c: Command, outcome: Outcome): iset<bv8> {
    if outcome != Done then start else
    match c
    case SetAllowedTypes(allowed, _) => PassingOf(allowed)
    case ClearTypeFilter(_) => AllTypes()
    case _ => start
  }

  lemma PassingReact(h: Ideal, os: IdealOs, c: Command)
    ensures var r := IdealReact(h, os, c);
            r.os.passing == Passing(os.passing, c, r.outcome)
  {
  }

  /** After any run through any of the handles, the kernel filter denotes the last successful call. */
  lemma FilterIsLastCall(w: State, calls: seq<Call<Command>>, typ: bv8)
    ensures Passes4(Run(w, calls).0.os.filter, typ)
       <==> typ in Carried(Passing, IdealizeOs(w.os).passing, calls, Run(w, calls).1)
  {
    var passing := (os: IdealOs) => os.passing;
    forall h: Ideal, os: IdealOs, c: Command
      ensures passing(IdealReact(h, os, c).os) == Passing(passing(os), c, IdealReact(h, os, c).outcome)
    {
      PassingReact(h, os, c);
    }
    RunMatches(w, calls);
    ObservedOverRuns(IdealReact, Unavailable, passing, Passing, IdealizeState(w), calls);
  }

  /** A list naming any type above 31 fails, wherever in the list it stands, and changes nothing. */
  lemma UnfilterableListChangesNothing(w: State, i: nat, allowed: seq<bv8>, accepted: bool)
    requires i < |w.handles| && w.handles[i].mode != Gone && w.handles[i].transport == Raw
    ensures Step(w, Call(i, SetAllowedTypes(allowed, accepted))).1 == Failed(InvalidInput)
       <==> exists t :: t in allowed && t >= 32
    ensures Step(w, Call(i, SetAllowedTypes(allowed, accepted))).1 == Failed(InvalidInput) ==>
              Step(w, Call(i, SetAllowedTypes(allowed, accepted))).0 == w
  {
    if !Filterable4(allowed) {
      var k :| 0 <= k < |allowed| && allowed[k] >= 32;
      assert allowed[k] in allowed;
    }
  }
}
