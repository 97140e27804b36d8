/**
  What every call on an ICMPv4 handle answers and puts on the wire after any run, in terms
  of the datagram's octets, the handle's own earlier calls and what the system accepted.
 */
module Answers4 {
  import opened Prelude
  import opened Checksum
  import opened Icmpv4
  import opened Icmpv4Checksum
  import opened Octets4
  import opened OsSockets
  import opened HandleSteps
  import opened Machines
  import opened World4
  import opened Runs4

  // ---------------------------------------------------------------- results

  /** Whether a call that needs one acceptance got it. */
  function Granted(accepted: bool): Outcome {
    if accepted then Done else Failed(OsError(Refused))
  }

  /** The result of every call, from what the handle's own calls decided. */
  function Answer(own: Profile, c: Command): Outcome {
    if own.mode == Gone then Unavailable else
    match c
    case SetReadBufferSize(_) => Done
    case SetMaxHops(_) => Done
    case SetTimeout(_) => Done
    case Bind(_, granted, portRead) => Granted(granted.Some? && (own.transport == Raw || portRead))
    case SendPacket(_, _, hopsAccepted, sendAccepted) =>
      if own.transport == Raw then Granted(hopsAccepted && sendAccepted) else Unavailable
    case SendEcho(_, _, _, hopsAccepted, sendAccepted) =>
      if own.transport == Dgram then Granted(hopsAccepted && sendAccepted) else Unavailable
    case RcvFrom(timeoutAccepted, _, _) =>
      if own.mode == Blocking && !timeoutAccepted then Failed(OsError(Refused)) else MeantReceive(c, own.settings.size)
    case RcvFromWithMeta(_, timeoutAccepted, _, _) =>
      if own.mode == Blocking && !timeoutAccepted then Failed(OsError(Refused)) else MeantReceive(c, own.settings.size)
    case TryClone(dupAccepted) =>
      if own.mode == Async then Unavailable
      else if own.bound.None? then Failed(InvalidInput)
      else Granted(dupAccepted)
    case IntoAsync(switched, registered) =>
      if own.mode == Async then Unavailable else Granted(switched && registered)
    case SetAllowedTypes(allowed, filterAccepted) =>
      if own.transport == Dgram then Unavailable
      else if exists k :: 0 <= k < |allowed| && allowed[k] >= 32 then Failed(InvalidInput)
      else Granted(filterAccepted)
    case ClearTypeFilter(filterAccepted) =>
      if own.transport == Raw then Granted(filterAccepted) else Unavailable
  }

  lemma SettingAnswers(h: Handle, os: Os4, c: Command)
    requires c.SetReadBufferSize? || c.SetMaxHops? || c.SetTimeout? || c.Bind?
    ensures React(h, os, c).outcome == Answer(ProfileOf(h), c)
  {
  }

  lemma SendAnswers(h: Handle, os: Os4, c: Command)
    requires c.SendPacket? || c.SendEcho?
    ensures React(h, os, c).outcome == Answer(ProfileOf(h), c)
  {
  }

  lemma OtherAnswers(h: Handle, os: Os4, c: Command)
    requires c.TryClone? || c.IntoAsync? || c.SetAllowedTypes? || c.ClearTypeFilter?
    ensures React(h, os, c).outcome == Answer(ProfileOf(h), c)
  {
  }

  lemma ReceiveAnswers(h: Handle, os: Os4, c: Command)
    requires c.RcvFrom? || c.RcvFromWithMeta?
    ensures React(h, os, c).outcome == Answer(ProfileOf(h), c)
  {
    if h.mode != Gone {
      ReceiveReact(h, os, c);
    }
  }

  /** After any run, the result of every call, whatever ran through other handles. */
  lemma AnswersExactly(w: State, calls: seq<Call<Command>>, i: nat, c: Command)
    requires i < |w.handles|
    ensures Step(Run(w, calls).0, Call(i, c)).1 == Answer(OwnProfile(w, calls, i), c)
  {
    SettingsAreOwn(w, calls, i);
    var before := Run(w, calls).0;
    if c.RcvFrom? || c.RcvFromWithMeta? {
      ReceiveAnswers(before.handles[i], before.os, c);
    } else if c.SendPacket? || c.SendEcho? {
      SendAnswers(before.handles[i], before.os, c);
    } else if c.TryClone? || c.IntoAsync? || c.SetAllowedTypes? || c.ClearTypeFilter? {
      OtherAnswers(before.handles[i], before.os, c);
    } else {
      SettingAnswers(before.handles[i], before.os, c);
    }
  }

  /**
    When a receive the system lets through gives each of its results: the system's error
    iff nothing arrived, a missing peer iff Linux metadata has none, truncation iff the
    datagram fills the buffer, and else the packet or the error of exactly its bytes.
   */
  lemma ReceiveResults(w: State, calls: seq<Call<Command>>, i: nat, c: Command)
    requires i < |w.handles| && (c.RcvFrom? || c.RcvFromWithMeta?)
    requires OwnProfile(w, calls, i).mode == Async || (OwnProfile(w, calls, i).mode == Blocking && c.timeoutAccepted)
    ensures var outcome := Step(Run(w, calls).0, Call(i, c)).1;
            var unnamed := c.RcvFromWithMeta? && c.linux && c.arrival.Arrived? && !c.arrival.named;
            var readable := c.arrival.Arrived? && !unnamed
                         && |c.arrival.datagram| < OwnProfile(w, calls, i).settings.size;
            && (forall kind :: outcome == Failed(OsError(kind)) <==> c.arrival == NoArrival(kind))
            && (outcome == Failed(MissingPeer) <==> unnamed)
            && (outcome == Failed(Truncated) <==> c.arrival.Arrived? && !unnamed && !readable)
            && (forall packet, peer ::
                  outcome == Got(packet, peer)
                  <==> readable && ParseAuto(c.arrival.datagram) == Ok(packet) && peer == c.arrival.peer)
            && (forall e :: outcome == Failed(Malformed(e)) <==> readable && ParseAuto(c.arrival.datagram) == Err(e))
  {
    ReceiveAfterAnyRun(w, calls, i, c);
  }

  // ---------------------------------------------------------------- what goes out

  /** The image of a raw send is the packet's own octets under its checksum, and nothing more. */
  lemma ImageOctets(p: Packet)
    ensures var checksum := PacketChecksum(p);
            var image := PacketImage(p);
            && image == [p.typ, p.code] + Two(checksum) + Layout(p.message)
            && (|image| <= 131_076 ==> RfcAccepts(image))
            && (WellFormed(p) ==> ParseIcmp(image) == Ok(p.(checksum := checksum)) && Tail(image) == [])
  {
    var filled := p.(checksum := PacketChecksum(p));
    PacketOctets(filled);
    FilledVerifies(p);
    VerifyMeansRfcTest(filled);
    if WellFormed(p) {
      SameTypeParses(filled, Bytes(filled, true));
    }
  }

  lemma RawSendReact(h: Handle, os: Os4, c: Command)
    requires c.SendPacket? && h.mode != Gone && h.transport == Raw
    ensures var r := React(h, os, c);
            && r.outcome == Granted(c.hopsAccepted && c.sendAccepted)
            && r.os.trace == os.trace +
                 if r.outcome == Done then [Sent(c.dest, PacketImage(c.packet), h.core.opts.hops)] else []
  {
  }

  /**
    After any run, what a raw send puts out: nothing if the system refuses, else exactly one
    datagram, of the packet's octets under its checksum, with the handle's own hop limit.
   */
  lemma RawSendPutsOut(w: State, calls: seq<Call<Command>>, i: nat, c: Command)
    requires i < |w.handles| && c.SendPacket?
    requires OwnProfile(w, calls, i).mode != Gone && OwnProfile(w, calls, i).transport == Raw
    ensures var before := Run(w, calls).0;
            var (after, outcome) := Step(before, Call(i, c));
            var p, checksum := c.packet, PacketChecksum(c.packet);
            var octets := [p.typ, p.code] + Two(checksum) + Layout(p.message);
            && outcome == Granted(c.hopsAccepted && c.sendAccepted)
            && after.os.trace == before.os.trace +
                 (if c.hopsAccepted && c.sendAccepted
                  then [Sent(c.dest, octets, OwnProfile(w, calls, i).settings.opts.hops)] else [])
            && (|octets| <= 131_076 ==> RfcAccepts(octets))
            && (WellFormed(p) ==> ParseIcmp(octets) == Ok(p.(checksum := checksum)) && Tail(octets) == [])
  {
    SettingsAreOwn(w, calls, i);
    var before := Run(w, calls).0;
    RawSendReact(before.handles[i], before.os, c);
    ImageOctets(c.packet);
  }

  lemma EchoImageOctets(identifier: U16, sequence: U16, payload: seq<Byte>)
    ensures var p := Packet(8, 0, 0, Echo(identifier, sequence, payload));
            var octets := [8, 0] + Two(PacketChecksum(p)) + (Two(identifier) + Two(sequence) + payload);
            EchoImage(identifier, sequence, payload) == Ok(octets)
  {
    var p := Packet(8, 0, 0, Echo(identifier, sequence, payload));
    assert EchoImage(identifier, sequence, payload) == Ok(PacketImage(p));
    ImageOctets(p);
  }

  lemma EchoSendReact(h: Handle, os: Os4, c: Command)
    requires c.SendEcho? && h.mode != Gone && h.transport == Dgram
    requires EchoImage(h.identifier, c.sequence, c.payload).Ok?
    ensures var r := React(h, os, c);
            var image := EchoImage(h.identifier, c.sequence, c.payload).value;
            && r.outcome == Granted(c.hopsAccepted && c.sendAccepted)
            && r.os.trace == os.trace + if r.outcome == Done then [Sent(c.dest, image, h.core.opts.hops)] else []
  {
  }

  /** The same of a datagram send: an echo request with the handle's identifier and the call's sequence and payload. */
  lemma EchoSendPutsOut(w: State, calls: seq<Call<Command>>, i: nat, c: Command)
    requires i < |w.handles| && c.SendEcho?
    requires OwnProfile(w, calls, i).mode != Gone && OwnProfile(w, calls, i).transport == Dgram
    ensures var before := Run(w, calls).0;
            var (after, outcome) := Step(before, Call(i, c));
            var identifier := OwnProfile(w, calls, i).identifier;
            var checksum := PacketChecksum(Packet(8, 0, 0, Echo(identifier, c.sequence, c.payload)));
            var octets := [8, 0] + Two(checksum) + (Two(identifier) + Two(c.sequence) + c.payload);
            && outcome == Granted(c.hopsAccepted && c.sendAccepted)
            && after.os.trace == before.os.trace +
                 if c.hopsAccepted && c.sendAccepted
                 then [Sent(c.dest, octets, OwnProfile(w, calls, i).settings.opts.hops)] else []
  {
    SettingsAreOwn(w, calls, i);
    var before := Run(w, calls).0;
    EchoImageOctets(before.handles[i].identifier, c.sequence, c.payload);
    EchoSendReact(before.handles[i], before.os, c);
  }

  /** What a call adds to the trace; what a blocking receive waits for depends on the shared mode. */
  function Traffic(own: Profile, nonblocking: bool, c: Command): seq<Event<Ipv4>> {
    if own.mode == Gone then [] else
    match c
    case Bind(addr, granted, _) => if granted.Some? then [Bound(addr, granted.value)] else []
    case SendPacket(dest, p, hopsAccepted, sendAccepted) =>
      if own.transport == Raw && hopsAccepted && sendAccepted
      then [Sent(dest, [p.typ, p.code] + Two(PacketChecksum(p)) + Layout(p.message), own.settings.opts.hops)] else []
    case SendEcho(dest, sequence, payload, hopsAccepted, sendAccepted) =>
      if own.transport == Dgram && hopsAccepted && sendAccepted then
        var checksum := PacketChecksum(Packet(8, 0, 0, Echo(own.identifier, sequence, payload)));
        [Sent(dest, [8, 0] + Two(checksum) + (Two(own.identifier) + Two(sequence) + payload),
              own.settings.opts.hops)]
      else []
    case RcvFrom(timeoutAccepted, _, _) => Waits(own, nonblocking, timeoutAccepted)
    case RcvFromWithMeta(_, timeoutAccepted, _, _) => Waits(own, nonblocking, timeoutAccepted)
    case _ => []
  }

  function Waits(own: Profile, nonblocking: bool, timeoutAccepted: bool): seq<Event<Ipv4>> {
    if own.mode == Blocking && timeoutAccepted && !nonblocking then [Waited(own.settings.opts.timeout)] else []
  }

  lemma BindTraffic(h: Handle, os: Os4, c: Command)
    requires c.Bind?
    ensures React(h, os, c).os.trace == os.trace + Traffic(ProfileOf(h), os.nonblocking, c)
  {
  }

  lemma ReceiveTraffic(h: Handle, os: Os4, c: Command)
    requires c.RcvFrom? || c.RcvFromWithMeta?
    ensures React(h, os, c).os.trace == os.trace + Traffic(ProfileOf(h), os.nonblocking, c)
  {
  }

  lemma PacketTraffic(h: Handle, os: Os4, c: Command)
    requires c.SendPacket?
    ensures React(h, os, c).os.trace == os.trace + Traffic(ProfileOf(h), os.nonblocking, c)
  {
    if h.mode != Gone && h.transport == Raw {
      RawSendReact(h, os, c);
      ImageOctets(c.packet);
    }
  }

  lemma EchoTraffic(h: Handle, os: Os4, c: Command)
    requires c.SendEcho?
    ensures React(h, os, c).os.trace == os.trace + Traffic(ProfileOf(h), os.nonblocking, c)
  {
    EchoImageOctets(h.identifier, c.sequence, c.payload);
    if h.mode != Gone && h.transport == Dgram {
      EchoSendReact(h, os, c);
    }
  }

  lemma OtherTraffic(h: Handle, os: Os4, c: Command)
    requires !c.Bind? && !c.RcvFrom? && !c.RcvFromWithMeta? && !c.SendPacket? && !c.SendEcho?
    ensures React(h, os, c).os.trace == os.trace + Traffic(ProfileOf(h), os.nonblocking, c)
  {
  }

  /** After any run, exactly what every call adds to the trace: a call on an async handle never waits. */
  lemma TrafficExactly(w: State, calls: seq<Call<Command>>, i: nat, c: Command)
    requires i < |w.handles|
    ensures var before := Run(w, calls).0;
            var traffic := Traffic(OwnProfile(w, calls, i), before.os.nonblocking, c);
            Step(before, Call(i, c)).0.os.trace == before.os.trace + traffic
  {
    SettingsAreOwn(w, calls, i);
    var before := Run(w, calls).0;
    var h := before.handles[i];
    if c.Bind? {
      BindTraffic(h, before.os, c);
    } else if c.RcvFrom? || c.RcvFromWithMeta? {
      ReceiveTraffic(h, before.os, c);
    } else if c.SendPacket? {
      PacketTraffic(h, before.os, c);
    } else if c.SendEcho? {
      EchoTraffic(h, before.os, c);
    } else {
      OtherTraffic(h, before.os, c);
    }
  }

  // ---------------------------------------------------------------- new handles

  predicate Configures(c: Command) {
    c.SetReadBufferSize? || c.SetMaxHops? || c.SetTimeout? || c.IntoAsync?
  }

  predicate SameButBound(p: Profile, q: Profile) {
    p.mode == q.mode && p.transport == q.transport && p.settings == q.settings
  }

  lemma {:induction false} Unconfigured(own: Profile, i: nat, calls: seq<Call<Command>>)
    requires forall k :: 0 <= k < |calls| && calls[k].on == i ==> !Configures(calls[k].command)
    ensures SameButBound(Own(Configured, own, i, calls), own)
    decreases |calls|
  {
    if calls != [] {
      assert !(calls[0].on == i && Configures(calls[0].command));
      Unconfigured(if calls[0].on == i then Configured(own, calls[0].command) else own, i, calls[1..]);
    }
  }

  /** A new handle that has not been configured is blocking, with 2048 bytes, 50 hops and no timeout. */
  lemma NewHandleProfile(w: State, transport: Transport, calls: seq<Call<Command>>)
    requires w.handles == [Handle(Blocking, transport, NewCore(), 0)]
    requires forall k :: 0 <= k < |calls| && calls[k].on == 0 ==> !Configures(calls[k].command)
    ensures SameButBound(OwnProfile(w, calls, 0), Profile(Blocking, transport, None, 0, Settings(2048, Opts(50, None))))
    ensures ProfileOf(w.handles[0]) == Profile(Blocking, transport, None, 0, Settings(2048, Opts(50, None)))
  {
    NewCoreIs<Ipv4>();
    Unconfigured(ProfileOf(w.handles[0]), 0, calls);
  }

  /**
    Its receives hand on every datagram of up to 2047 bytes as parsed, report truncation
    from 2048 on, and wait without a timeout; its sends leave under hop limit 50.
   */
  lemma NewHandleDefaults(w: State, transport: Transport, calls: seq<Call<Command>>, c: Command)
    requires w.handles == [Handle(Blocking, transport, NewCore(), 0)] && !w.os.nonblocking
    requires forall k :: 0 <= k < |calls| && calls[k].on == 0 ==> !Configures(calls[k].command)
    ensures var (before, outcomes) := Run(w, calls);
            var (after, outcome) := Step(before, Call(0, c));
            && ((c.RcvFrom? || c.RcvFromWithMeta?) && c.timeoutAccepted && c.arrival.Arrived? && c.arrival.named ==>
                  outcome == if |c.arrival.datagram| >= 2048 then Failed(Truncated) else
                             match ParseAuto(c.arrival.datagram)
                             case Ok(packet) => Got(packet, c.arrival.peer)
                             case Err(e) => Failed(Malformed(e)))
            && ((c.RcvFrom? || c.RcvFromWithMeta?) && c.timeoutAccepted && !Happened(Switches, calls, outcomes) ==>
                  after.os.trace == before.os.trace + [Waited(None)])
            && ((c.SendPacket? || c.SendEcho?) && outcome == Done ==>
                  |after.os.trace| > 0 && after.os.trace[|after.os.trace| - 1].Sent?
                  && after.os.trace[|after.os.trace| - 1].hops == 50)
  {
    NewHandleProfile(w, transport, calls);
    if (c.RcvFrom? || c.RcvFromWithMeta?) && c.timeoutAccepted {
      ReceiveAfterAnyRun(w, calls, 0, c);
      WaitsExactly(w, calls, 0, c);
    } else if c.SendPacket? || c.SendEcho? {
      SendUsesOwnHops(w, calls, 0, c);
    }
  }
}
