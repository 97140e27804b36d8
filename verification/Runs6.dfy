/** What holds of the ICMPv6 handles of one socket over every run of calls. */
module Runs6 {
  import opened Prelude
  import opened Icmpv6
  import opened Filter
  import opened OsSockets
  import opened HandleSteps
  import opened Machines
  import opened World6

  function Configured(s: Settings, c: Command): Settings {
    match c
    case SetReadBufferSize(size) => s.(size := size)
    case SetMaxHops(hops) => s.(opts := s.opts.(hops := hops))
    case SetTimeout(timeout) => s.(opts := s.opts.(timeout := timeout))
    case _ => s
  }

  function Settled(h: Handle): Settings {
    SettingsOf(h)
  }

  /** The settings of handle i after a run, read off the calls addressed to it and nothing else. */
  function OwnSettings(w: State, calls: seq<Call<Command>>, i: nat): Settings
    requires i < |w.handles|
  {
    Own(Configured, Settled(w.handles[i]), i, calls)
  }

  lemma ConfiguredReact(h: Handle, os: Os6, c: Command)
    ensures Settled(React(h, os, c).handle) == Configured(Settled(h), c)
  {
  }

  /** No receive, clone or other handle's call ever moves a handle's buffer size or options. */
  lemma SettingsAreOwn(w: State, calls: seq<Call<Command>>, i: nat)
    requires i < |w.handles|
    ensures SettingsOf(Run(w, calls).0.handles[i]) == OwnSettings(w, calls, i)
  {
    forall h: Handle, os: Os6, c: Command
      ensures Settled(React(h, os, c).handle) == Configured(Settled(h), c)
    {
      ConfiguredReact(h, os, c);
    }
    OwnOverRuns(React, Unavailable, Settled, Configured, w, calls, i);
  }

  /** The address of handle i after a run: that of its own last granted bind. */
  function Addressed(bound: Option<Ipv6Addr>, c: Command): Option<Ipv6Addr> {
    if c.Bind? && c.granted.Some? then Some(c.addr) else bound
  }

  function AddressOf(h: Handle): Option<Ipv6Addr> {
    h.bound
  }

  function OwnAddress(w: State, calls: seq<Call<Command>>, i: nat): Option<Ipv6Addr>
    requires i < |w.handles|
  {
    Own(Addressed, AddressOf(w.handles[i]), i, calls)
  }

  lemma AddressedReact(h: Handle, os: Os6, c: Command)
    ensures AddressOf(React(h, os, c).handle) == Addressed(AddressOf(h), c)
  {
  }

  /** No clone or other handle's bind ever moves a handle's address. */
  lemma AddressIsOwn(w: State, calls: seq<Call<Command>>, i: nat)
    requires i < |w.handles|
    ensures Run(w, calls).0.handles[i].bound == OwnAddress(w, calls, i)
  {
    forall h: Handle, os: Os6, c: Command
      ensures AddressOf(React(h, os, c).handle) == Addressed(AddressOf(h), c)
    {
      AddressedReact(h, os, c);
    }
    OwnOverRuns(React, Unavailable, AddressOf, Addressed, w, calls, i);
  }

  lemma StaysBlocking(w: State, calls: seq<Call<Command>>)
    ensures Run(w, calls).0.os.nonblocking == w.os.nonblocking
  {
    var nonblocking := (os: Os6) => os.nonblocking;
    var never := (c: Command, r: Outcome) => false;
    HappenedOverRuns(React, Unavailable, nonblocking, never, w, calls);
  }

  // ---------------------------------------------------------------- receiving

  /** What the parser makes of received bytes. */
  function Read(bytes: seq<Byte>, peer: Ipv6Addr): Outcome {
    match Parse(bytes)
    case Ok(packet) => Got(packet, peer)
    case Err(e) => Failed(Malformed(e))
  }

  /** What a receive call must answer. The plain receive reads what fits; only the metadata one reports truncation. */
  function MeantReceive(c: Command, size: nat): Outcome
    requires c.RcvFrom? || c.RcvFromWithMeta?
  {
    match c.arrival
    case NoArrival(kind) => Failed(OsError(kind))
    case Arrived(datagram, peer, named) =>
      if c.RcvFrom? then Read(if |datagram| <= size then datagram else datagram[..size], peer)
      else if c.linux && !named then Failed(MissingPeer)
      else if |datagram| >= size then Failed(Truncated)
      else Read(datagram, peer)
  }

  lemma ReceiveReact(h: Handle, os: Os6, c: Command)
    requires (c.RcvFrom? || c.RcvFromWithMeta?) && c.timeoutAccepted
    ensures var r := React(h, os, c);
            && r.outcome == MeantReceive(c, |h.buf.store|)
            && |r.handle.buf.store| == |h.buf.store|
            && r.os.trace == os.trace + if os.nonblocking then [] else [Waited(h.opts.timeout)]
  {
    ReadsDeliver(h.buf, c.RcvFromWithMeta? && c.linux, c.arrival);
    UncheckedDelivers(h.buf, c.arrival);
    if c.arrival.Arrived? {
      assert c.arrival.datagram[..|c.arrival.datagram|] == c.arrival.datagram;
    }
  }

  /**
    After any run a receive answers from the datagram and the last configured size. On a
    socket opened blocking it always waits, and under the handle's own timeout. A refused
    timeout fails the call before it touches anything.
   */
  lemma ReceiveAfterAnyRun(w: State, calls: seq<Call<Command>>, i: nat, c: Command)
    requires i < |w.handles|
    requires c.RcvFrom? || c.RcvFromWithMeta?
    ensures var before := Run(w, calls).0;
            var own := OwnSettings(w, calls, i);
            var (after, outcome) := Step(before, Call(i, c));
            && outcome == (if c.timeoutAccepted then MeantReceive(c, own.size) else Failed(OsError(Refused)))
            && |after.handles[i].buf.store| == own.size
            && (!c.timeoutAccepted ==> after == before)
            && (!w.os.nonblocking && c.timeoutAccepted ==>
                  after.os.trace == before.os.trace + [Waited(own.opts.timeout)])
  {
    SettingsAreOwn(w, calls, i);
    StaysBlocking(w, calls);
    var before := Run(w, calls).0;
    if c.timeoutAccepted {
      ReceiveReact(before.handles[i], before.os, c);
    } else {
      assert before.handles[i := before.handles[i]] + [] == before.handles;
    }
  }

  /** The plain receive never reports truncation, whatever arrives. */
  lemma RcvFromNeverReportsTruncation(h: Handle, os: Os6, timeoutAccepted: bool, arrival: Arrival6)
    ensures React(h, os, RcvFrom(timeoutAccepted, arrival)).outcome != Failed(Truncated)
  {
    UncheckedDelivers(h.buf, arrival);
  }

  /**
    Exactly when the plain receive parses as the whole datagram would: it fits, or both
    are rejected for the same unknown type. Otherwise a long enough prefix of a known type
    is returned as a partial packet.
   */
  lemma RcvFromExact(h: Handle, os: Os6, datagram: seq<Byte>, peer: Ipv6Addr, named: bool)
    ensures var outcome := React(h, os, RcvFrom(true, Arrived(datagram, peer, named))).outcome;
            var size := |h.buf.store|;
            && (outcome == Read(datagram, peer)
                <==> |datagram| <= size || (size >= 8 && !KnownType(datagram[0])))
            && (outcome.Got? && Bytes(outcome.packet, true) != datagram
                <==> |datagram| > size && size >= 8 && KnownType(datagram[0]))
  {
    var arrival := Arrived(datagram, peer, named);
    UncheckedDelivers(h.buf, arrival);
    var cut := datagram[..Min(|datagram|, |h.buf.store|)];
    ParseThenPrint(cut);
    ParseThenPrint(datagram);
    if |datagram| <= |h.buf.store| {
      assert cut == datagram;
    }
  }

  // ---------------------------------------------------------------- sending and delivery

  lemma SendReact(h: Handle, os: Os6, c: Command)
    requires c.SendTo?
    ensures var r := React(h, os, c);
            r.outcome == Done ==>
              && h.bound.Some?
              && r.os.trace
              == os.trace + [Sent(c.dest, PacketImage(c.packet, h.bound.value, c.dest), h.opts.hops)]
  {
  }

  /** Every packet leaves under the sender's own hop limit, filled for its bound address and this destination. */
  lemma SendAfterAnyRun(w: State, calls: seq<Call<Command>>, i: nat, c: Command)
    requires i < |w.handles| && c.SendTo?
    ensures var before := Run(w, calls).0;
            var (after, outcome) := Step(before, Call(i, c));
            outcome == Done ==>
              && before.handles[i].bound.Some?
              && var source := before.handles[i].bound.value;
              && after.os.trace
              == before.os.trace
               + [Sent(c.dest, PacketImage(c.packet, source, c.dest), OwnSettings(w, calls, i).opts.hops)]
              && Verifies(Filled(c.packet, source, c.dest), source, c.dest)
              && (WellFormed(c.packet) ==>
                    Parse(PacketImage(c.packet, source, c.dest)) == Ok(Filled(c.packet, source, c.dest)))
  {
    SettingsAreOwn(w, calls, i);
    var before := Run(w, calls).0;
    SendReact(before.handles[i], before.os, c);
    if before.handles[i].bound.Some? {
      FilledVerifies(c.packet, before.handles[i].bound.value, c.dest);
    }
  }

  /** A well-formed packet reaches any handle with a larger buffer, and verifies for the two addresses. */
  lemma DeliveryEndToEnd(
    ws: State, i: nat, send: Command, wr: State, calls: seq<Call<Command>>, j: nat, c: Command)
    requires i < |ws.handles| && send.SendTo? && WellFormed(send.packet)
    requires j < |wr.handles| && (c.RcvFrom? || c.RcvFromWithMeta?) && c.timeoutAccepted && c.arrival.Arrived?
    requires c.RcvFromWithMeta? && c.linux ==> c.arrival.named
    ensures var (sent, outcome) := Step(ws, Call(i, send));
            outcome == Done ==>
              && ws.handles[i].bound.Some?
              && var source := ws.handles[i].bound.value;
              && var image := PacketImage(send.packet, source, send.dest);
              && sent.os.trace == ws.os.trace + [Sent(send.dest, image, ws.handles[i].opts.hops)]
              && (c.arrival.datagram == image && |image| < OwnSettings(wr, calls, j).size ==>
                    && Step(Run(wr, calls).0, Call(j, c)).1
                    == Got(Filled(send.packet, source, send.dest), c.arrival.peer)
                    && Verifies(Filled(send.packet, source, send.dest), source, send.dest))
  {
    SendReact(ws.handles[i], ws.os, send);
    ReceiveAfterAnyRun(wr, calls, j, c);
    assert c.arrival.datagram[..|c.arrival.datagram|] == c.arrival.datagram;
    if ws.handles[i].bound.Some? {
      FilledVerifies(send.packet, ws.handles[i].bound.value, send.dest);
    }
  }

  // ---------------------------------------------------------------- clones

  /** Exactly a bound handle the system lets duplicate is cloned, and no calls tell the clone from its original. */
  lemma CloneIndistinguishable(w: State, i: nat, dupAccepted: bool, cs: seq<Command>)
    requires i < |w.handles|
    ensures var (w', outcome) := Step(w, Call(i, TryClone(dupAccepted)));
            && (outcome == Done <==> w.handles[i].bound.Some? && dupAccepted)
            && (outcome == Done ==>
                  var onOriginal, onClone := Run(w', AllOn(i, cs)), Run(w', AllOn(|w.handles|, cs));
                  onOriginal.1 == onClone.1 && onOriginal.0.os.trace == onClone.0.os.trace)
  {
    var (w', outcome) := Step(w, Call(i, TryClone(dupAccepted)));
    if outcome == Done {
      var v := IdealizeState(w');
      RunMatches(w', AllOn(i, cs));
      RunMatches(w', AllOn(|w.handles|, cs));
      EqualHandlesRunAlike(IdealReact, Unavailable, v, v, i, |w.handles|, cs);
    }
  }

  // ---------------------------------------------------------------- bound addresses

  ghost predicate Backed(h: Handle, os: Os6) {
    h.bound.Some? ==> Accepted(os.trace, h.bound.value)
  }

  lemma BackedReact(h: Handle, os: Os6, c: Command)
    requires Backed(h, os)
    ensures var r := React(h, os, c);
            os.trace <= r.os.trace && Backed(r.handle, r.os) && (r.clone.Some? ==> Backed(r.clone.value, r.os))
  {
    var r := React(h, os, c);
    if c.Bind? && c.granted.Some? {
      AcceptedLast(os.trace, Bound(c.addr, c.granted.value), c.addr);
    } else {
      assert r.handle.bound == h.bound && (r.clone.Some? ==> r.clone.value.bound == h.bound);
      if h.bound.Some? {
        AcceptedInLonger(os.trace, r.os.trace, h.bound.value);
      }
    }
  }

  ghost predicate AllBacked(w: State) {
    forall i :: 0 <= i < |w.handles| ==> Backed(w.handles[i], w.os)
  }

  lemma BackedStep(w: State, call: Call<Command>)
    requires AllBacked(w)
    ensures AllBacked(Step(w, call).0)
  {
    if call.on < |w.handles| {
      var w' := Step(w, call).0;
      BackedReact(w.handles[call.on], w.os, call.command);
      forall i | 0 <= i < |w'.handles|
        ensures Backed(w'.handles[i], w'.os)
      {
        if i < |w.handles| && i != call.on && w.handles[i].bound.Some? {
          AcceptedInLonger(w.os.trace, w'.os.trace, w.handles[i].bound.value);
        }
      }
    }
  }

  /** Over every run each recorded address, the source of that handle's checksums, is one the system accepted. */
  lemma {:induction false} AddressAccepted(w: State, calls: seq<Call<Command>>)
    requires AllBacked(w)
    ensures AllBacked(Run(w, calls).0)
    decreases |calls|
  {
    if calls != [] {
      BackedStep(w, calls[0]);
      AddressAccepted(Step(w, calls[0]).0, calls[1..]);
    }
  }

  // ---------------------------------------------------------------- the receive filter

  /** Only a filter call that succeeded changes what passes. */
  ghost function Passing(start: iset<bv8>, c: Command, outcome: Outcome): iset<bv8> {
    if outcome != Done then start else
    match c
    case SetAllowedTypes(allowed, _) => Members(allowed)
    case ClearTypeFilter(_) => AllTypes()
    case _ => start
  }

  lemma PassingReact(h: Ideal, os: IdealOs, c: Command)
    ensures var r := IdealReact(h, os, c);
            r.os.passing == Passing(os.passing, c, r.outcome)
  {
  }

  /** After any run through any of the handles, the eight filter words denote the last successful call. */
  lemma FilterIsLastCall(w: State, calls: seq<Call<Command>>, typ: bv8)
    ensures Passes6(Run(w, calls).0.os.filter, typ)
       <==> typ in Carried(Passing, IdealizeOs(w.os).passing, calls, Run(w, calls).1)
  {
    var passing := (os: IdealOs) => os.passing;
    forall h: Ideal, os: IdealOs, c: Command
      ensures passing(IdealReact(h, os, c).os) == Passing(passing(os), c, IdealReact(h, os, c).outcome)
    {
      PassingReact(h, os, c);
    }
    RunMatches(w, calls);
    ObservedOverRuns(IdealReact, Unavailable, passing, Passing, IdealizeState(w), calls);
  }
}
