/**
  What every call on an ICMPv6 handle answers and puts on the wire after any run, in terms
  of the datagram's octets, the handle's own earlier calls and what the system accepted.
 */
module Answers6 {
  import opened Prelude
  import opened Checksum
  import opened Icmpv6
  import opened Octets4
  import opened OsSockets
  import opened HandleSteps
  import opened Machines
  import opened World6
  import opened Runs6
  import Octets6

  // ---------------------------------------------------------------- results

  function Granted(accepted: bool): Outcome {
    if accepted then Done else Failed(OsError(Refused))
  }

  /** The result of every call, from the handle's own settings and whether it is bound. */
  function Answer(own: Settings, bound: bool, c: Command): Outcome {
    match c
    case SetReadBufferSize(_) => Done
    case SetMaxHops(_) => Done
    case SetTimeout(_) => Done
    case Bind(_, granted) => Granted(granted.Some?)
    case SendTo(_, _, hopsAccepted, sendAccepted) =>
      if bound then Granted(hopsAccepted && sendAccepted) else Failed(NotBound)
    case RcvFrom(timeoutAccepted, _) =>
      if timeoutAccepted then MeantReceive(c, own.size) else Failed(OsError(Refused))
    case RcvFromWithMeta(_, timeoutAccepted, _) =>
      if timeoutAccepted then MeantReceive(c, own.size) else Failed(OsError(Refused))
    case TryClone(dupAccepted) => if bound then Granted(dupAccepted) else Failed(InvalidInput)
    case SetAllowedTypes(_, filterAccepted) => Granted(filterAccepted)
    case ClearTypeFilter(filterAccepted) => Granted(filterAccepted)
  }

  lemma OtherAnswers(h: Handle, os: Os6, c: Command)
    requires !c.RcvFrom? && !c.RcvFromWithMeta?
    ensures React(h, os, c).outcome == Answer(SettingsOf(h), h.bound.Some?, c)
  {
  }

  /** After any run, the result of every call, whatever ran through other handles. */
  lemma AnswersExactly(w: State, calls: seq<Call<Command>>, i: nat, c: Command)
    requires i < |w.handles|
    ensures Step(Run(w, calls).0, Call(i, c)).1
         == Answer(OwnSettings(w, calls, i), OwnAddress(w, calls, i).Some?, c)
  {
    if c.RcvFrom? || c.RcvFromWithMeta? {
      ReceiveAfterAnyRun(w, calls, i, c);
    } else {
      SettingsAreOwn(w, calls, i);
      AddressIsOwn(w, calls, i);
      var before := Run(w, calls).0;
      OtherAnswers(before.handles[i], before.os, c);
    }
  }

  /**
    When a receive the system lets through gives each of its results. The plain receive
    reads what fits, the metadata one the whole of a datagram shorter than the buffer;
    the packet or the error is that of exactly the bytes read.
   */
  lemma ReceiveResults(w: State, calls: seq<Call<Command>>, i: nat, c: Command)
    requires i < |w.handles| && (c.RcvFrom? || c.RcvFromWithMeta?) && c.timeoutAccepted
    ensures var outcome, size := Step(Run(w, calls).0, Call(i, c)).1, OwnSettings(w, calls, i).size;
            var unnamed := c.RcvFromWithMeta? && c.linux && c.arrival.Arrived? && !c.arrival.named;
            var full := c.RcvFromWithMeta? && c.arrival.Arrived? && |c.arrival.datagram| >= size;
            var readable := c.arrival.Arrived? && !unnamed && !full;
            var bytes := if c.arrival.NoArrival? then [] else
                         if |c.arrival.datagram| <= size then c.arrival.datagram else c.arrival.datagram[..size];
            && (forall kind :: outcome == Failed(OsError(kind)) <==> c.arrival == NoArrival(kind))
            && (outcome == Failed(MissingPeer) <==> unnamed)
            && (outcome == Failed(Truncated) <==> full && !unnamed)
            && (forall packet, peer ::
                  outcome == Got(packet, peer) <==> readable && Parse(bytes) == Ok(packet) && peer == c.arrival.peer)
            && (forall e :: outcome == Failed(Malformed(e)) <==> readable && Parse(bytes) == Err(e))
  {
    ReceiveAfterAnyRun(w, calls, i, c);
  }

  // ---------------------------------------------------------------- what goes out

  /** The image of a send is the packet's own octets under its checksum, and nothing more. */
  lemma ImageOctets(p: Packet, source: Ipv6Addr, dest: Ipv6Addr)
    ensures var checksum := PacketChecksum(p, source, dest);
            var image := PacketImage(p, source, dest);
            && image == [p.typ, p.code] + Two(checksum) + Octets6.Layout(p.message)
            && (|image| <= 131_039 ==> RfcAccepts(PseudoHeader(source, dest, |image|) + image))
            && (WellFormed(p) ==> Parse(image) == Ok(p.(checksum := checksum)))
  {
    var filled := Filled(p, source, dest);
    Octets6.PacketOctets(filled);
    FilledVerifies(p, source, dest);
    if |Bytes(filled, true)| <= 131_039 {
      VerifyMeansRfcTest(filled, source, dest);
    }
  }

  lemma SendReact(h: Handle, os: Os6, c: Command)
    requires c.SendTo? && h.bound.Some?
    ensures var r := React(h, os, c);
            var image := PacketImage(c.packet, h.bound.value, c.dest);
            r.os.trace == os.trace + if c.hopsAccepted && c.sendAccepted then [Sent(c.dest, image, h.opts.hops)] else []
  {
  }

  /**
    After any run, what a send puts out: nothing if the handle is unbound or the system
    refuses, else exactly one datagram, of the packet's octets under the checksum for the
    handle's own address and the destination, with its own hop limit.
   */
  lemma SendPutsOut(w: State, calls: seq<Call<Command>>, i: nat, c: Command)
    requires i < |w.handles| && c.SendTo?
    ensures var before := Run(w, calls).0;
            var (after, outcome) := Step(before, Call(i, c));
            match OwnAddress(w, calls, i)
            case None => outcome == Failed(NotBound) && after.os.trace == before.os.trace
            case Some(source) =>
              var p, checksum := c.packet, PacketChecksum(c.packet, source, c.dest);
              var octets := [p.typ, p.code] + Two(checksum) + Octets6.Layout(p.message);
              && outcome == Granted(c.hopsAccepted && c.sendAccepted)
              && after.os.trace == before.os.trace +
                   (if c.hopsAccepted && c.sendAccepted
                    then [Sent(c.dest, octets, OwnSettings(w, calls, i).opts.hops)] else [])
              && (|octets| <= 131_039 ==> RfcAccepts(PseudoHeader(source, c.dest, |octets|) + octets))
              && (WellFormed(p) ==> Parse(octets) == Ok(p.(checksum := checksum)))
  {
    SettingsAreOwn(w, calls, i);
    AddressIsOwn(w, calls, i);
    AnswersExactly(w, calls, i, c);
    var before := Run(w, calls).0;
    if before.handles[i].bound.Some? {
      SendReact(before.handles[i], before.os, c);
      ImageOctets(c.packet, before.handles[i].bound.value, c.dest);
    }
  }

  /** What a call other than a send adds to the trace. */
  function Traffic(own: Settings, nonblocking: bool, c: Command): seq<Event<Ipv6Addr>>
    requires !c.SendTo?
  {
    match c
    case Bind(addr, granted) => if granted.Some? then [Bound(addr, granted.value)] else []
    case RcvFrom(timeoutAccepted, _) =>
      if timeoutAccepted && !nonblocking then [Waited(own.opts.timeout)] else []
    case RcvFromWithMeta(_, timeoutAccepted, _) =>
      if timeoutAccepted && !nonblocking then [Waited(own.opts.timeout)] else []
    case _ => []
  }

  lemma TrafficReact(h: Handle, os: Os6, c: Command)
    requires !c.SendTo?
    ensures React(h, os, c).os.trace == os.trace + Traffic(SettingsOf(h), os.nonblocking, c)
  {
  }

  /** After any run, exactly what every other call adds to the trace. */
  lemma TrafficExactly(w: State, calls: seq<Call<Command>>, i: nat, c: Command)
    requires i < |w.handles| && !c.SendTo?
    ensures var before := Run(w, calls).0;
            var traffic := Traffic(OwnSettings(w, calls, i), before.os.nonblocking, c);
            Step(before, Call(i, c)).0.os.trace == before.os.trace + traffic
  {
    SettingsAreOwn(w, calls, i);
    var before := Run(w, calls).0;
    TrafficReact(before.handles[i], before.os, c);
  }

  // ---------------------------------------------------------------- new handles

  predicate Configures(c: Command) {
    c.SetReadBufferSize? || c.SetMaxHops? || c.SetTimeout?
  }

  lemma {:induction false} Unconfigured(own: Settings, i: nat, calls: seq<Call<Command>>)
    requires forall k :: 0 <= k < |calls| && calls[k].on == i ==> !Configures(calls[k].command)
    ensures Own(Configured, own, i, calls) == own
    decreases |calls|
  {
    if calls != [] {
      assert !(calls[0].on == i && Configures(calls[0].command));
      Unconfigured(own, i, calls[1..]);
    }
  }

  /** A new handle that has not been configured has 2048 bytes, 50 hops and no timeout. */
  lemma NewHandleSettings(w: State, calls: seq<Call<Command>>)
    requires w.handles == [NewCore()]
    requires forall k :: 0 <= k < |calls| && calls[k].on == 0 ==> !Configures(calls[k].command)
    ensures OwnSettings(w, calls, 0) == Settings(2048, Opts(50, None))
  {
    NewCoreIs<Ipv6Addr>();
    Unconfigured(SettingsOf(w.handles[0]), 0, calls);
  }

  /**
    Its metadata receives hand on every datagram of up to 2047 bytes as parsed and report
    truncation from 2048 on, its plain ones read up to 2048; they wait without a timeout,
    and its sends leave under hop limit 50.
   */
  lemma NewHandleDefaults(w: State, calls: seq<Call<Command>>, c: Command)
    requires w.handles == [NewCore()] && !w.os.nonblocking
    requires forall k :: 0 <= k < |calls| && calls[k].on == 0 ==> !Configures(calls[k].command)
    ensures var before := Run(w, calls).0;
            var (after, outcome) := Step(before, Call(0, c));
            && (c.RcvFromWithMeta? && c.timeoutAccepted && c.arrival.Arrived? && c.arrival.named ==>
                  outcome == if |c.arrival.datagram| >= 2048 then Failed(Truncated)
                             else Read(c.arrival.datagram, c.arrival.peer))
            && (c.RcvFrom? && c.timeoutAccepted && c.arrival.Arrived? ==>
                  outcome == Read(if |c.arrival.datagram| <= 2048 then c.arrival.datagram
                                  else c.arrival.datagram[..2048], c.arrival.peer))
            && ((c.RcvFrom? || c.RcvFromWithMeta?) && c.timeoutAccepted ==>
                  after.os.trace == before.os.trace + [Waited(None)])
            && (c.SendTo? && outcome == Done ==>
                  |after.os.trace| > 0 && after.os.trace[|after.os.trace| - 1].Sent?
                  && after.os.trace[|after.os.trace| - 1].hops == 50)
  {
    NewHandleSettings(w, calls);
    if c.RcvFrom? || c.RcvFromWithMeta? {
      ReceiveAfterAnyRun(w, calls, 0, c);
    } else if c.SendTo? {
      SendAfterAnyRun(w, calls, 0, c);
    }
  }
}
