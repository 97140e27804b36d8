/**
  All ICMPv4 handles over one operating-system socket: a handle, its clones and their async
  conversions. `React` follows the code, with its reused buffer and the option cells every
  handle overwrites before use. `IdealReact` is what a user should be able to rely on: a
  buffer is only a size, options belong to the handle, the filter is a set of types.
 */
module World4 {
  import opened Prelude
  import opened Icmpv4
  import opened Icmpv4Checksum
  import opened Icmpv4Build
  import opened Filter
  import opened OsSockets
  import opened HandleSteps
  import opened Machines

  type Ipv4 = U32
  type Os4 = Os<Ipv4, bv32>
  type Core4 = Core<Ipv4>
  type Arrival4 = Arrival<Ipv4>

  datatype Mode = Blocking | Async | Gone
  datatype Transport = Raw | Dgram

  datatype Handle = Handle(mode: Mode, transport: Transport, core: Core4, identifier: U16)

  /** A call and every answer the system gives while it runs. */
  datatype Command =
    | SetReadBufferSize(size: nat)
    | SetMaxHops(hops: U32)
    | SetTimeout(timeout: Option<Duration>)
    | Bind(addr: Ipv4, granted: Option<U16>, portRead: bool)
    | SendPacket(dest: Ipv4, packet: Packet, hopsAccepted: bool, sendAccepted: bool)
    | SendEcho(dest: Ipv4, sequence: U16, payload: seq<Byte>, hopsAccepted: bool, sendAccepted: bool)
    | RcvFrom(timeoutAccepted: bool, unready: nat, arrival: Arrival4)
    | RcvFromWithMeta(linux: bool, timeoutAccepted: bool, unready: nat, arrival: Arrival4)
    | TryClone(dupAccepted: bool)
    | IntoAsync(switched: bool, registered: bool)
    | SetAllowedTypes(allowed: seq<bv8>, filterAccepted: bool)
    | ClearTypeFilter(filterAccepted: bool)

  /** `Unavailable` marks a call the handle's type does not offer, or a handle already consumed. */
  datatype Outcome =
    | Done
    | Got(packet: Packet, peer: Ipv4)
    | Failed(error: IoError)
    | Unavailable

  function Parsed(read: Result<(seq<Byte>, Ipv4), IoError>): Outcome {
    match read
    case Err(e) => Failed(e)
    case Ok((bytes, peer)) =>
      match ParseAuto(bytes)
      case Err(e) => Failed(Malformed(e))
      case Ok(packet) => Got(packet, peer)
  }

  function Acknowledged(out: Result<(), IoError>): Outcome {
    match out
    case Err(e) => Failed(e)
    case Ok(_) => Done
  }

  /** What a raw send puts on the wire. */
  function PacketImage(p: Packet): seq<Byte> {
    Bytes(Filled(p), true)
  }

  function EchoImage(identifier: U16, sequence: U16, payload: seq<Byte>): Result<seq<Byte>, IoError> {
    match WithEchoRequest(identifier, sequence, payload)
    case Err(e) => Err(Rejected(e))
    case Ok(p) => Ok(PacketImage(p))
  }

  // ---------------------------------------------------------------- the code

  type Reacted = Reaction<Os4, Handle, Outcome>

  function Sending(
    h: Handle, os: Os4, dest: Ipv4, image: Result<seq<Byte>, IoError>, hopsAccepted: bool, sendAccepted: bool): Reacted
  {
    match image
    case Err(e) => Reaction(h, os, Failed(e), None)
    case Ok(bytes) =>
      var e := SendBytes(h.core, os, dest, bytes, hopsAccepted, sendAccepted);
      Reaction(h.(core := e.core), e.os, Acknowledged(e.out), None)
  }

  function Binding(h: Handle, os: Os4, addr: Ipv4, granted: Option<U16>, portRead: bool): Reacted {
    var e := if h.mode == Async then BindAsync(h.core, os, addr, granted) else BindBlocking(h.core, os, addr, granted);
    var h' := h.(core := e.core);
    if e.out.Err? || h.transport == Raw then Reaction(h', e.os, Acknowledged(e.out), None)
    else if !portRead then Reaction(h', e.os, Failed(OsError(Refused)), None)
    else Reaction(h'.(identifier := e.os.port), e.os, Done, None)
  }

  function Receiving(h: Handle, os: Os4, timeoutAccepted: bool, unready: nat, arrival: Arrival4)
    : Reacted
  {
    if h.mode == Async then
      var (buf, read) := PollChecked(h.core.buf, unready, arrival);
      Reaction(h.(core := h.core.(buf := buf)), os, Parsed(read), None)
    else if !timeoutAccepted then Reaction(h, os, Failed(OsError(Refused)), None)
    else
      var (buf, read) := ReadChecked(h.core.buf, arrival);
      Reaction(h.(core := h.core.(buf := buf)), Waiting(h.core, os), Parsed(read), None)
  }

  function ReceivingMeta(h: Handle, os: Os4, linux: bool, timeoutAccepted: bool, unready: nat, arrival: Arrival4)
    : Reacted
  {
    if h.mode == Async then
      var (buf, read) := PollMeta(h.core.buf, linux, unready, arrival);
      Reaction(h.(core := h.core.(buf := buf)), os, Parsed(read), None)
    else if !timeoutAccepted then Reaction(h, os, Failed(OsError(Refused)), None)
    else
      var (buf, read) := ReadMeta(h.core.buf, linux, arrival);
      Reaction(h.(core := h.core.(buf := buf)), Waiting(h.core, os), Parsed(read), None)
  }

  function Cloning(h: Handle, os: Os4, dupAccepted: bool): Reacted {
    match Clone(h.core, dupAccepted)
    case Err(e) => Reaction(h, os, Failed(e), None)
    case Ok(core) => Reaction(h, os, Done, Some(h.(core := core)))
  }

  /**
    `into_async_io` and `into_tokio` consume the handle. They switch the shared socket to
    nonblocking, for every clone, before registering it with the reactor; a failure at
    either point drops the handle, and a switch already made stays.
   */
  function Converting(h: Handle, os: Os4, switched: bool, registered: bool): Reacted {
    if !switched then Reaction(h.(mode := Gone), os, Failed(OsError(Refused)), None) else
    var os1 := os.(nonblocking := true);
    if !registered then Reaction(h.(mode := Gone), os1, Failed(OsError(Refused)), None)
    else Reaction(h.(mode := Async), os1, Done, None)
  }

  function Filtering(h: Handle, os: Os4, allowed: seq<bv8>, filterAccepted: bool): Reacted {
    if !Filterable4(allowed) then Reaction(h, os, Failed(InvalidInput), None)
    else if !filterAccepted then Reaction(h, os, Failed(OsError(Refused)), None)
    else Reaction(h, os.(filter := Cleared4(allowed)), Done, None)
  }

  /** Whether the handle's type has the method. */
  predicate Offers(mode: Mode, transport: Transport, c: Command) {
    && mode != Gone
    && (c.SendPacket? || c.SetAllowedTypes? || c.ClearTypeFilter? ==> transport == Raw)
    && (c.SendEcho? ==> transport == Dgram)
    && (c.TryClone? || c.IntoAsync? ==> mode == Blocking)
  }

  function React(h: Handle, os: Os4, c: Command): Reacted {
    if !Offers(h.mode, h.transport, c) then Reaction(h, os, Unavailable, None) else
    match c
    case SetReadBufferSize(size) => Reaction(h.(core := SetSize(h.core, size)), os, Done, None)
    case SetMaxHops(hops) => Reaction(h.(core := h.core.(opts := h.core.opts.(hops := hops))), os, Done, None)
    case SetTimeout(timeout) => Reaction(h.(core := h.core.(opts := h.core.opts.(timeout := timeout))), os, Done, None)
    case Bind(addr, granted, portRead) => Binding(h, os, addr, granted, portRead)
    case SendPacket(dest, packet, hopsAccepted, sendAccepted) =>
      Sending(h, os, dest, Ok(PacketImage(packet)), hopsAccepted, sendAccepted)
    case SendEcho(dest, sequence, payload, hopsAccepted, sendAccepted) =>
      Sending(h, os, dest, EchoImage(h.identifier, sequence, payload), hopsAccepted, sendAccepted)
    case RcvFrom(timeoutAccepted, unready, arrival) => Receiving(h, os, timeoutAccepted, unready, arrival)
    case RcvFromWithMeta(linux, timeoutAccepted, unready, arrival) =>
      ReceivingMeta(h, os, linux, timeoutAccepted, unready, arrival)
    case TryClone(dupAccepted) => Cloning(h, os, dupAccepted)
    case IntoAsync(switched, registered) => Converting(h, os, switched, registered)
    case SetAllowedTypes(allowed, filterAccepted) => Filtering(h, os, allowed, filterAccepted)
    case ClearTypeFilter(filterAccepted) =>
      if filterAccepted then Reaction(h, os.(filter := 0), Done, None)
      else Reaction(h, os, Failed(OsError(Refused)), None)
  }

  type State = World<Os4, Handle>

  function Step(w: State, call: Call<Command>): (State, Outcome) {
    StepBy(React, Unavailable, w, call)
  }

  function Run(w: State, calls: seq<Call<Command>>): (State, seq<Outcome>) {
    RunBy(React, Unavailable, w, calls)
  }

  // ---------------------------------------------------------------- the ideal

  datatype Ideal = Ideal(mode: Mode, transport: Transport, bound: Option<Ipv4>, size: nat, opts: Opts, identifier: U16)

  datatype IdealOs = IdealOs(port: U16, nonblocking: bool, passing: iset<bv8>, trace: seq<Event<Ipv4>>) {
    ghost function With(event: Event<Ipv4>): IdealOs {
      this.(trace := trace + [event])
    }
  }

  type IdealReacted = Reaction<IdealOs, Ideal, Outcome>

  ghost function IdealSend(h: Ideal, os: IdealOs, dest: Ipv4, image: Result<seq<Byte>, IoError>, accepted: bool)
    : IdealReacted
  {
    if image.Err? then Reaction(h, os, Failed(image.error), None)
    else if !accepted then Reaction(h, os, Failed(OsError(Refused)), None)
    else Reaction(h, os.With(Sent(dest, image.value, h.opts.hops)), Done, None)
  }

  ghost function IdealBind(h: Ideal, os: IdealOs, addr: Ipv4, granted: Option<U16>, portRead: bool): IdealReacted {
    var h' := if granted.Some? || h.mode == Async then h.(bound := Some(addr)) else h;
    if granted.None? then Reaction(h', os, Failed(OsError(Refused)), None) else
    var os' := os.(port := granted.value).With(Bound(addr, granted.value));
    if h.transport == Raw then Reaction(h', os', Done, None)
    else if portRead then Reaction(h'.(identifier := granted.value), os', Done, None)
    else Reaction(h', os', Failed(OsError(Refused)), None)
  }

  ghost function IdealReceive(h: Ideal, os: IdealOs, timeoutAccepted: bool, read: Result<(seq<Byte>, Ipv4), IoError>)
    : IdealReacted
  {
    if h.mode == Async then Reaction(h, os, Parsed(read), None)
    else if !timeoutAccepted then Reaction(h, os, Failed(OsError(Refused)), None)
    else Reaction(h, if os.nonblocking then os else os.With(Waited(h.opts.timeout)), Parsed(read), None)
  }

  /** A copy is the handle itself: same bound address, size, options and identifier. */
  ghost function IdealClone(h: Ideal, os: IdealOs, dupAccepted: bool): IdealReacted {
    if h.bound.None? then Reaction(h, os, Failed(InvalidInput), None)
    else if !dupAccepted then Reaction(h, os, Failed(OsError(Refused)), None)
    else Reaction(h, os, Done, Some(h))
  }

  ghost function IdealFilter(h: Ideal, os: IdealOs, passing: iset<bv8>, accepted: bool): IdealReacted {
    if accepted then Reaction(h, os.(passing := passing), Done, None)
    else Reaction(h, os, Failed(OsError(Refused)), None)
  }

  ghost function PassingOf(allowed: seq<bv8>): iset<bv8> {
    iset t: bv8 | t >= 32 || t in allowed
  }

  ghost function IdealReact(h: Ideal, os: IdealOs, c: Command): IdealReacted {
    if !Offers(h.mode, h.transport, c) then Reaction(h, os, Unavailable, None) else
    match c
    case SetReadBufferSize(size) => Reaction(h.(size := size), os, Done, None)
    case SetMaxHops(hops) => Reaction(h.(opts := h.opts.(hops := hops)), os, Done, None)
    case SetTimeout(timeout) => Reaction(h.(opts := h.opts.(timeout := timeout)), os, Done, None)
    case Bind(addr, granted, portRead) => IdealBind(h, os, addr, granted, portRead)
    case SendPacket(dest, packet, hopsAccepted, sendAccepted) =>
      IdealSend(h, os, dest, Ok(PacketImage(packet)), hopsAccepted && sendAccepted)
    case SendEcho(dest, sequence, payload, hopsAccepted, sendAccepted) =>
      IdealSend(h, os, dest, EchoImage(h.identifier, sequence, payload), hopsAccepted && sendAccepted)
    case RcvFrom(timeoutAccepted, _, arrival) => IdealReceive(h, os, timeoutAccepted, Delivered(arrival, h.size))
    case RcvFromWithMeta(linux, timeoutAccepted, _, arrival) =>
      IdealReceive(h, os, timeoutAccepted, DeliveredMeta(linux, arrival, h.size))
    case TryClone(dupAccepted) => IdealClone(h, os, dupAccepted)
    case IntoAsync(switched, registered) =>
      Reaction(h.(mode := if switched && registered then Async else Gone),
               os.(nonblocking := os.nonblocking || switched),
               if switched && registered then Done else Failed(OsError(Refused)), None)
    case SetAllowedTypes(allowed, filterAccepted) =>
      if !Filterable4(allowed) then Reaction(h, os, Failed(InvalidInput), None)
      else IdealFilter(h, os, PassingOf(allowed), filterAccepted)
    case ClearTypeFilter(filterAccepted) => IdealFilter(h, os, AllTypes(), filterAccepted)
  }

  type IdealState = World<IdealOs, Ideal>

  ghost function IdealStep(w: IdealState, call: Call<Command>): (IdealState, Outcome) {
    StepBy(IdealReact, Unavailable, w, call)
  }

  ghost function IdealRun(w: IdealState, calls: seq<Call<Command>>): (IdealState, seq<Outcome>) {
    RunBy(IdealReact, Unavailable, w, calls)
  }

  // ---------------------------------------------------------------- the code meets the ideal

  ghost function Idealize(h: Handle): Ideal {
    Ideal(h.mode, h.transport, h.core.bound, |h.core.buf.store|, h.core.opts, h.identifier)
  }

  ghost function IdealizeOs(os: Os4): IdealOs {
    IdealOs(os.port, os.nonblocking, (iset t: bv8 | Passes4(os.filter, t)), os.trace)
  }

  ghost function IdealizeState(w: State): IdealState {
    ImageWorld(IdealizeOs, Idealize, w)
  }

  ghost predicate Matches(h: Handle, os: Os4, c: Command) {
    IdealReact(Idealize(h), IdealizeOs(os), c) == ImageReaction(IdealizeOs, Idealize, React(h, os, c))
  }

  lemma FilteringMatches(h: Handle, os: Os4, c: Command)
    requires c.SetAllowedTypes? || c.ClearTypeFilter?
    ensures Matches(h, os, c)
  {
    match c {
      case SetAllowedTypes(allowed, accepted) =>
        if Filterable4(allowed) {
          forall t: bv8
            ensures Passes4(Cleared4(allowed), t) <==> t >= 32 || t in allowed
          {
            Cleared4Passes(allowed, t);
          }
          assert (iset t: bv8 | Passes4(Cleared4(allowed), t)) == PassingOf(allowed);
        }
      case ClearTypeFilter(_) =>
        forall t: bv8
          ensures Passes4(0, t) <==> IsType(t)
        {
          if t < 32 {
            AllOpen(t);
          }
        }
        assert (iset t: bv8 | Passes4(0, t)) == AllTypes();
    }
  }

  lemma ReceivingMatches(h: Handle, os: Os4, c: Command)
    requires c.RcvFrom? || c.RcvFromWithMeta?
    ensures Matches(h, os, c)
  {
    var linux := c.RcvFromWithMeta? && c.linux;
    ReadsDeliver(h.core.buf, linux, c.arrival);
    PollsDeliver(h.core.buf, linux, c.unready, c.arrival);
  }

  lemma IdealizeBound(os: Os4, addr: Ipv4, port: U16)
    ensures IdealizeOs(OsBound(os, addr, port)) == IdealizeOs(os).(port := port).With(Bound(addr, port))
  {
  }

  lemma BindingMeets(h: Handle, os: Os4, addr: Ipv4, granted: Option<U16>, portRead: bool)
    ensures IdealBind(Idealize(h), IdealizeOs(os), addr, granted, portRead)
         == ImageReaction(IdealizeOs, Idealize, Binding(h, os, addr, granted, portRead))
  {
    if granted.Some? {
      IdealizeBound(os, addr, granted.value);
    }
  }

  lemma BindingMatches(h: Handle, os: Os4, c: Command)
    requires c.Bind?
    ensures Matches(h, os, c)
  {
    BindingMeets(h, os, c.addr, c.granted, c.portRead);
  }

  lemma SendingMatches(h: Handle, os: Os4, c: Command)
    requires c.SendPacket? || c.SendEcho?
    ensures Matches(h, os, c)
  {
  }

  lemma ConvertingMatches(h: Handle, os: Os4, c: Command)
    requires c.IntoAsync?
    ensures Matches(h, os, c)
  {
  }

  lemma OwningMatches(h: Handle, os: Os4, c: Command)
    requires c.SetReadBufferSize? || c.SetMaxHops? || c.SetTimeout? || c.TryClone?
    ensures Matches(h, os, c)
  {
  }

  lemma ReactMatches(h: Handle, os: Os4, c: Command)
    ensures Matches(h, os, c)
  {
    if c.SetAllowedTypes? || c.ClearTypeFilter? {
      FilteringMatches(h, os, c);
    } else if c.RcvFrom? || c.RcvFromWithMeta? {
      ReceivingMatches(h, os, c);
    } else if c.Bind? {
      BindingMatches(h, os, c);
    } else if c.SendPacket? || c.SendEcho? {
      SendingMatches(h, os, c);
    } else if c.IntoAsync? {
      ConvertingMatches(h, os, c);
    } else {
      OwningMatches(h, os, c);
    }
  }

  lemma ReactMeets()
    ensures Meets(React, IdealReact, IdealizeOs, Idealize)
  {
    forall h: Handle, os: Os4, c: Command
      ensures IdealReact(Idealize(h), IdealizeOs(os), c) == ImageReaction(IdealizeOs, Idealize, React(h, os, c))
    {
      ReactMatches(h, os, c);
    }
  }

  /** Over every run, the code's outcomes, wire traffic and final state are the ideal ones. */
  lemma RunMatches(w: State, calls: seq<Call<Command>>)
    ensures IdealRun(IdealizeState(w), calls) == (IdealizeState(Run(w, calls).0), Run(w, calls).1)
  {
    ReactMeets();
    RunMeets(React, IdealReact, IdealizeOs, Idealize, Unavailable, w, calls);
  }
}
