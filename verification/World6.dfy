/**
  All ICMPv6 handles over one operating-system socket, as World4 does for ICMPv4: `React`
  follows the code and `IdealReact` is what a user can rely on, including what the plain
  `rcv_from` does with a datagram larger than its buffer.
 */
module World6 {
  import opened Prelude
  import opened Icmpv6
  import opened Filter
  import opened Buffers
  import opened OsSockets
  import opened HandleSteps
  import opened Machines

  type Mask6 = m: seq<bv32> | |m| == 8 witness [0, 0, 0, 0, 0, 0, 0, 0]
  type Os6 = Os<Ipv6Addr, Mask6>
  type Handle = Core<Ipv6Addr>
  type Arrival6 = Arrival<Ipv6Addr>

  datatype Command =
    | SetReadBufferSize(size: nat)
    | SetMaxHops(hops: U32)
    | SetTimeout(timeout: Option<Duration>)
    | Bind(addr: Ipv6Addr, granted: Option<U16>)
    | SendTo(dest: Ipv6Addr, packet: Packet, hopsAccepted: bool, sendAccepted: bool)
    | RcvFrom(timeoutAccepted: bool, arrival: Arrival6)
    | RcvFromWithMeta(linux: bool, timeoutAccepted: bool, arrival: Arrival6)
    | TryClone(dupAccepted: bool)
    | SetAllowedTypes(allowed: seq<bv8>, filterAccepted: bool)
    | ClearTypeFilter(filterAccepted: bool)

  datatype Outcome =
    | Done
    | Got(packet: Packet, peer: Ipv6Addr)
    | Failed(error: IoError)
    | Unavailable

  function Parsed(read: Result<(seq<Byte>, Ipv6Addr), IoError>): Outcome {
    match read
    case Err(e) => Failed(e)
    case Ok((bytes, peer)) =>
      match Parse(bytes)
      case Err(e) => Failed(Malformed(e))
      case Ok(packet) => Got(packet, peer)
  }

  function Acknowledged(out: Result<(), IoError>): Outcome {
    match out
    case Err(e) => Failed(e)
    case Ok(_) => Done
  }

  /** What a send puts on the wire: the checksum covers the handle's own bound address. */
  function PacketImage(p: Packet, source: Ipv6Addr, dest: Ipv6Addr): seq<Byte> {
    Bytes(Filled(p, source, dest), true)
  }

  function OpenMask(): Mask6 {
    [0, 0, 0, 0, 0, 0, 0, 0]
  }

  // ---------------------------------------------------------------- the code

  type Reacted = Reaction<Os6, Handle, Outcome>

  function Sending(h: Handle, os: Os6, dest: Ipv6Addr, p: Packet, hopsAccepted: bool, sendAccepted: bool): Reacted {
    match h.bound
    case None => Reaction(h, os, Failed(NotBound), None)
    case Some(source) =>
      var e := SendBytes(h, os, dest, PacketImage(p, source, dest), hopsAccepted, sendAccepted);
      Reaction(e.core, e.os, Acknowledged(e.out), None)
  }

  function Receiving(h: Handle, os: Os6, timeoutAccepted: bool, step: (Buf, Result<(seq<Byte>, Ipv6Addr), IoError>))
    : Reacted
  {
    if !timeoutAccepted then Reaction(h, os, Failed(OsError(Refused)), None)
    else Reaction(h.(buf := step.0), Waiting(h, os), Parsed(step.1), None)
  }

  function Filtering(h: Handle, os: Os6, mask: Mask6, accepted: bool): Reacted {
    if accepted then Reaction(h, os.(filter := mask), Done, None)
    else Reaction(h, os, Failed(OsError(Refused)), None)
  }

  function React(h: Handle, os: Os6, c: Command): Reacted {
    match c
    case SetReadBufferSize(size) => Reaction(SetSize(h, size), os, Done, None)
    case SetMaxHops(hops) => Reaction(h.(opts := h.opts.(hops := hops)), os, Done, None)
    case SetTimeout(timeout) => Reaction(h.(opts := h.opts.(timeout := timeout)), os, Done, None)
    case Bind(addr, granted) =>
      var e := BindBlocking(h, os, addr, granted);
      Reaction(e.core, e.os, Acknowledged(e.out), None)
    case SendTo(dest, packet, hopsAccepted, sendAccepted) => Sending(h, os, dest, packet, hopsAccepted, sendAccepted)
    case RcvFrom(timeoutAccepted, arrival) => Receiving(h, os, timeoutAccepted, ReadUnchecked(h.buf, arrival))
    case RcvFromWithMeta(linux, timeoutAccepted, arrival) =>
      Receiving(h, os, timeoutAccepted, ReadMeta(h.buf, linux, arrival))
    case TryClone(dupAccepted) =>
      (match Clone(h, dupAccepted)
       case Err(e) => Reaction(h, os, Failed(e), None)
       case Ok(copy) => Reaction(h, os, Done, Some(copy)))
    case SetAllowedTypes(allowed, filterAccepted) => Filtering(h, os, Cleared6(allowed), filterAccepted)
    case ClearTypeFilter(filterAccepted) => Filtering(h, os, OpenMask(), filterAccepted)
  }

  type State = World<Os6, Handle>

  function Step(w: State, call: Call<Command>): (State, Outcome) {
    StepBy(React, Unavailable, w, call)
  }

  function Run(w: State, calls: seq<Call<Command>>): (State, seq<Outcome>) {
    RunBy(React, Unavailable, w, calls)
  }

  // ---------------------------------------------------------------- the ideal

  datatype Ideal = Ideal(bound: Option<Ipv6Addr>, size: nat, opts: Opts)

  datatype IdealOs = IdealOs(port: U16, nonblocking: bool, passing: iset<bv8>, trace: seq<Event<Ipv6Addr>>) {
    ghost function With(event: Event<Ipv6Addr>): IdealOs {
      this.(trace := trace + [event])
    }
  }

  type IdealReacted = Reaction<IdealOs, Ideal, Outcome>

  /** The bytes the plain receive hands on: a datagram larger than the buffer is cut, and nothing says so. */
  function DeliveredCut(arrival: Arrival6, size: nat): Result<(seq<Byte>, Ipv6Addr), IoError> {
    match arrival
    case NoArrival(kind) => Err(OsError(kind))
    case Arrived(datagram, peer, _) => Ok((datagram[..Min(|datagram|, size)], peer))
  }

  ghost function IdealReceive(
    h: Ideal, os: IdealOs, timeoutAccepted: bool, read: Result<(seq<Byte>, Ipv6Addr), IoError>): IdealReacted
  {
    if !timeoutAccepted then Reaction(h, os, Failed(OsError(Refused)), None)
    else Reaction(h, if os.nonblocking then os else os.With(Waited(h.opts.timeout)), Parsed(read), None)
  }

  ghost function IdealFilter(h: Ideal, os: IdealOs, passing: iset<bv8>, accepted: bool): IdealReacted {
    if accepted then Reaction(h, os.(passing := passing), Done, None)
    else Reaction(h, os, Failed(OsError(Refused)), None)
  }

  ghost function Members(allowed: seq<bv8>): iset<bv8> {
    iset t: bv8 | t in allowed
  }

  ghost function IdealReact(h: Ideal, os: IdealOs, c: Command): IdealReacted {
    match c
    case SetReadBufferSize(size) => Reaction(h.(size := size), os, Done, None)
    case SetMaxHops(hops) => Reaction(h.(opts := h.opts.(hops := hops)), os, Done, None)
    case SetTimeout(timeout) => Reaction(h.(opts := h.opts.(timeout := timeout)), os, Done, None)
    case Bind(addr, granted) =>
      if granted.None? then Reaction(h, os, Failed(OsError(Refused)), None)
      else Reaction(h.(bound := Some(addr)),
                    os.(port := granted.value).With(Bound(addr, granted.value)), Done, None)
    case SendTo(dest, packet, hopsAccepted, sendAccepted) =>
      if h.bound.None? then Reaction(h, os, Failed(NotBound), None)
      else if !hopsAccepted || !sendAccepted then Reaction(h, os, Failed(OsError(Refused)), None)
      else Reaction(h, os.With(Sent(dest, PacketImage(packet, h.bound.value, dest), h.opts.hops)), Done, None)
    case RcvFrom(timeoutAccepted, arrival) => IdealReceive(h, os, timeoutAccepted, DeliveredCut(arrival, h.size))
    case RcvFromWithMeta(linux, timeoutAccepted, arrival) =>
      IdealReceive(h, os, timeoutAccepted, DeliveredMeta(linux, arrival, h.size))
    case TryClone(dupAccepted) =>
      if h.bound.None? then Reaction(h, os, Failed(InvalidInput), None)
      else if !dupAccepted then Reaction(h, os, Failed(OsError(Refused)), None)
      else Reaction(h, os, Done, Some(h))
    case SetAllowedTypes(allowed, filterAccepted) => IdealFilter(h, os, Members(allowed), filterAccepted)
    case ClearTypeFilter(filterAccepted) => IdealFilter(h, os, AllTypes(), filterAccepted)
  }

  type IdealState = World<IdealOs, Ideal>

  ghost function IdealStep(w: IdealState, call: Call<Command>): (IdealState, Outcome) {
    StepBy(IdealReact, Unavailable, w, call)
  }

  ghost function IdealRun(w: IdealState, calls: seq<Call<Command>>): (IdealState, seq<Outcome>) {
    RunBy(IdealReact, Unavailable, w, calls)
  }

  // ---------------------------------------------------------------- the code meets the ideal

  ghost function Idealize(h: Handle): Ideal {
    Ideal(h.bound, |h.buf.store|, h.opts)
  }

  ghost function IdealizeOs(os: Os6): IdealOs {
    IdealOs(os.port, os.nonblocking, (iset t: bv8 | Passes6(os.filter, t)), os.trace)
  }

  ghost function IdealizeState(w: State): IdealState {
    ImageWorld(IdealizeOs, Idealize, w)
  }

  ghost predicate Matches(h: Handle, os: Os6, c: Command) {
    IdealReact(Idealize(h), IdealizeOs(os), c) == ImageReaction(IdealizeOs, Idealize, React(h, os, c))
  }

  lemma ClearedMeans(allowed: seq<bv8>)
    ensures (iset t: bv8 | Passes6(Cleared6(allowed), t)) == Members(allowed)
  {
    forall t: bv8
      ensures Passes6(Cleared6(allowed), t) <==> t in allowed
    {
      Cleared6Passes(allowed, t);
    }
  }

  lemma OpenMeans()
    ensures (iset t: bv8 | Passes6(OpenMask(), t)) == AllTypes()
  {
    forall t: bv8
      ensures Passes6(OpenMask(), t) <==> IsType(t)
    {
      OpenPasses(t);
    }
  }

  lemma OpenPasses(t: bv8)
    ensures Passes6(OpenMask(), t)
  {
    var i := WordIndex(t);
    assert OpenMask()[i] == 0;
    AllOpen(BitIndex(t));
  }

  lemma ReceivingMatches(h: Handle, os: Os6, c: Command)
    requires c.RcvFrom? || c.RcvFromWithMeta?
    ensures Matches(h, os, c)
  {
    ReadsDeliver(h.buf, c.RcvFromWithMeta? && c.linux, c.arrival);
    UncheckedDelivers(h.buf, c.arrival);
  }

  lemma ReactMatches(h: Handle, os: Os6, c: Command)
    ensures Matches(h, os, c)
  {
    if c.RcvFrom? || c.RcvFromWithMeta? {
      ReceivingMatches(h, os, c);
    } else if c.SetAllowedTypes? {
      ClearedMeans(c.allowed);
    } else if c.ClearTypeFilter? {
      OpenMeans();
    }
  }

  lemma ReactMeets()
    ensures Meets(React, IdealReact, IdealizeOs, Idealize)
  {
    forall h: Handle, os: Os6, c: Command
      ensures IdealReact(Idealize(h), IdealizeOs(os), c) == ImageReaction(IdealizeOs, Idealize, React(h, os, c))
    {
      ReactMatches(h, os, c);
    }
  }

  /** Over every run, the code's outcomes, wire traffic and final state are the ideal ones. */
  lemma RunMatches(w: State, calls: seq<Call<Command>>)
    ensures IdealRun(IdealizeState(w), calls) == (IdealizeState(Run(w, calls).0), Run(w, calls).1)
  {
    ReactMeets();
    RunMeets(React, IdealReact, IdealizeOs, Idealize, Unavailable, w, calls);
  }
}
