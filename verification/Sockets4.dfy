/**
  The ICMPv4 handle classes of src/socket.rs and src/async_common.rs. Each method is proved
  to change its own fields, its own buffer and the shared socket exactly as the step
  functions say.
 */
module Sockets4 {
  import opened Prelude
  import opened Icmpv4
  import opened Icmpv4Build
  import opened Filter
  import opened Buffers
  import opened OsSockets
  import opened HandleSteps
  import opened Machines
  import opened ReceivePaths
  import opened World4
  import Wire = Icmpv4Checksum

  type Socket4 = OsSocket<Ipv4, bv32>

  // ---------------------------------------------------------------- what is sent

  /** `packet.with_checksum().get_bytes(true)`: blocking raw sends and `raw_packet_bytes` alike. */
  method RawPacketBytes(p: Packet) returns (bytes: seq<Byte>)
    ensures bytes == PacketImage(p)
  {
    var filled := Wire.WithChecksum(p);
    bytes := GetBytes(filled, true);
  }

  /** Blocking datagram sends and `dgram_packet_bytes` alike. */
  method DgramPacketBytes(identifier: U16, sequence: U16, payload: seq<Byte>)
    returns (image: Result<seq<Byte>, IoError>)
    ensures image == EchoImage(identifier, sequence, payload)
  {
    match WithEchoRequest(identifier, sequence, payload) {
      case Err(e) =>
        image := Err(Rejected(e));
      case Ok(packet) =>
        var bytes := RawPacketBytes(packet);
        image := Ok(bytes);
    }
  }

  // ---------------------------------------------------------------- src/filter.rs

  method SetAllowedTypesOn(socket: Socket4, allowed: seq<bv8>, filterAccepted: bool) returns (outcome: Outcome)
    modifies socket
    ensures outcome == if !Filterable4(allowed) then Failed(InvalidInput)
                       else if filterAccepted then Done else Failed(OsError(Refused))
    ensures socket.Model() == if outcome == Done then old(socket.Model()).(filter := Cleared4(allowed))
                              else old(socket.Model())
  {
    var mask := AllowMask4(allowed);
    if mask.None? {
      return Failed(InvalidInput);
    }
    var ok := socket.SetFilter(mask.value, filterAccepted);
    outcome := if ok then Done else Failed(OsError(Refused));
  }

  method ClearTypeFilterOn(socket: Socket4, filterAccepted: bool) returns (outcome: Outcome)
    modifies socket
    ensures socket.Model() == old(socket.Model()).(filter := if filterAccepted then 0 else old(socket.filter))
    ensures outcome == if filterAccepted then Done else Failed(OsError(Refused))
  {
    var ok := socket.SetFilter(0, filterAccepted);
    outcome := if ok then Done else Failed(OsError(Refused));
  }

  // ---------------------------------------------------------------- src/socket.rs

  class Icmp4Core {
    const inner: Socket4
    const buf: ByteVec
    var boundTo: Option<Ipv4>
    var opts: Opts

    ghost predicate Valid()
      reads buf
    {
      buf.Valid()
    }

    ghost function Model(): Core4
      requires Valid()
      reads this, buf, buf.data
    {
      Core(boundTo, buf.Model(), opts)
    }

    constructor FromSocket(inner: Socket4)
      ensures Valid() && fresh(buf) && fresh(buf.data)
      ensures this.inner == inner && Model() == NewCore()
      ensures boundTo == None && buf.data.Length == 2048 && opts == Opts(50, None)
    {
      this.inner := inner;
      boundTo := None;
      buf := new ByteVec.Zeroed(DEFAULT_RECV_BUFFER_SIZE);
      opts := Opts(50, None);
    }

    constructor Parts(inner: Socket4, boundTo: Option<Ipv4>, buf: ByteVec, opts: Opts)
      requires buf.Valid()
      ensures this.inner == inner && this.buf == buf && this.boundTo == boundTo && this.opts == opts
    {
      this.inner, this.boundTo, this.buf, this.opts := inner, boundTo, buf, opts;
    }

    method TryClone(dupAccepted: bool) returns (clone: Result<Icmp4Core, IoError>)
      requires Valid()
      ensures clone.Err? ==> HandleSteps.Clone(Model(), dupAccepted) == Err(clone.error)
      ensures clone.Ok? ==>
                var c := clone.value;
                && fresh(c) && fresh(c.buf) && fresh(c.buf.data) && c.inner == inner
                && c.Valid() && HandleSteps.Clone(Model(), dupAccepted) == Ok(c.Model())
    {
      if boundTo.None? {
        return Err(InvalidInput);
      }
      if !dupAccepted {
        return Err(OsError(Refused));
      }
      var copy := new ByteVec.Zeroed(buf.data.Length);
      var c := new Icmp4Core.Parts(inner, boundTo, copy, Opts(opts.hops, opts.timeout));
      clone := Ok(c);
    }

    method Bind(addr: Ipv4, granted: Option<U16>) returns (out: Result<(), IoError>)
      requires Valid()
      modifies this, inner
      ensures Valid()
      ensures Effect(Model(), inner.Model(), out) == BindBlocking(old(Model()), old(inner.Model()), addr, granted)
    {
      var ok := inner.Bind(addr, granted);
      if !ok {
        return Err(OsError(Refused));
      }
      boundTo := Some(addr);
      out := Ok(());
    }

    method SetReadBufferSize(size: nat)
      requires Valid()
      modifies buf, buf.data
      ensures Valid() && (buf.data == old(buf.data) || fresh(buf.data))
      ensures Model() == SetSize(old(Model()), size)
    {
      buf.SetSize(size);
    }

    method SetMaxHops(hops: U32)
      modifies `opts
      ensures opts == old(opts).(hops := hops)
    {
      opts := opts.(hops := hops);
    }

    method SetTimeout(timeout: Option<Duration>)
      modifies `opts
      ensures opts == old(opts).(timeout := timeout)
    {
      opts := opts.(timeout := timeout);
    }

    method LocalIdentifier(portRead: bool) returns (port: Result<U16, IoError>)
      ensures port == if portRead then Ok(inner.port) else Err(OsError(Refused))
    {
      port := if portRead then Ok(inner.port) else Err(OsError(Refused));
    }

    method SendBytes(dest: Ipv4, bytes: seq<Byte>, hopsAccepted: bool, sendAccepted: bool)
      returns (out: Result<(), IoError>)
      requires Valid()
      modifies inner
      ensures Effect(Model(), inner.Model(), out)
           == HandleSteps.SendBytes(old(Model()), old(inner.Model()), dest, bytes, hopsAccepted, sendAccepted)
    {
      var ok := inner.SetHops(opts.hops, hopsAccepted);
      if !ok {
        return Err(OsError(Refused));
      }
      ok := inner.SendTo(bytes, dest, sendAccepted);
      out := if ok then Ok(()) else Err(OsError(Refused));
    }

    method Recv(timeoutAccepted: bool, arrival: Arrival4) returns (outcome: Outcome)
      requires Valid()
      modifies inner, buf, buf.data
      ensures Valid() && buf.data == old(buf.data)
      ensures !timeoutAccepted ==>
                Model() == old(Model()) && inner.Model() == old(inner.Model()) && outcome == Failed(OsError(Refused))
      ensures timeoutAccepted ==>
                && Model() == old(Model()).(buf := ReadChecked(old(buf.Model()), arrival).0)
                && inner.Model() == Waiting(old(Model()), old(inner.Model()))
                && outcome == Parsed(ReadChecked(old(buf.Model()), arrival).1)
    {
      var ok := inner.SetReadTimeout(opts.timeout, timeoutAccepted);
      if !ok {
        return Failed(OsError(Refused));
      }
      buf.Clear();
      inner.BeginWait();
      var readCount, lost := inner.Receive(buf.data, arrival);
      if arrival.NoArrival? {
        return Failed(OsError(arrival.kind));
      }
      if readCount == buf.data.Length {
        return Failed(Truncated);
      }
      buf.SetLen(readCount);
      assert buf.data[..readCount] == buf.data[..][..readCount];
      outcome := Parsed(Ok((buf.data[..readCount], arrival.peer)));
    }

    method RecvWithMeta(linux: bool, timeoutAccepted: bool, arrival: Arrival4) returns (outcome: Outcome)
      requires Valid()
      modifies inner, buf, buf.data
      ensures Valid() && buf.data == old(buf.data)
      ensures !timeoutAccepted ==>
                Model() == old(Model()) && inner.Model() == old(inner.Model()) && outcome == Failed(OsError(Refused))
      ensures timeoutAccepted ==>
                && Model() == old(Model()).(buf := ReadMeta(old(buf.Model()), linux, arrival).0)
                && inner.Model() == Waiting(old(Model()), old(inner.Model()))
                && outcome == Parsed(ReadMeta(old(buf.Model()), linux, arrival).1)
    {
      var ok := inner.SetReadTimeout(opts.timeout, timeoutAccepted);
      if !ok {
        return Failed(OsError(Refused));
      }
      inner.BeginWait();
      var received := PlatformReceive(buf, inner, linux, arrival);
      var read := ReadReceived(buf, received);
      outcome := Parsed(read);
    }
  }

  /** `bind` of a datagram handle: the identifier is read from the port the bind was granted. */
  class DgramIcmpSocket4 {
    const core: Icmp4Core
    var identifier: U16

    ghost predicate Valid()
      reads core.buf
    {
      core.Valid()
    }

    ghost function Model(): Handle
      requires Valid()
      reads this, core, core.buf, core.buf.data
    {
      Handle(Blocking, Dgram, core.Model(), identifier)
    }

    constructor (core: Icmp4Core, identifier: U16)
      ensures this.core == core && this.identifier == identifier
    {
      this.core, this.identifier := core, identifier;
    }

    method Bind(addr: Ipv4, granted: Option<U16>, portRead: bool) returns (outcome: Outcome)
      requires Valid()
      modifies this, core, core.inner
      ensures Valid()
      ensures Reaction(Model(), core.inner.Model(), outcome, None)
           == Binding(old(Model()), old(core.inner.Model()), addr, granted, portRead)
    {
      var bound := core.Bind(addr, granted);
      if bound.Err? {
        return Failed(bound.error);
      }
      var port := core.LocalIdentifier(portRead);
      if port.Err? {
        return Failed(port.error);
      }
      identifier := port.value;
      outcome := Done;
    }

    method Send(dest: Ipv4, sequence: U16, payload: seq<Byte>, hopsAccepted: bool, sendAccepted: bool)
      returns (outcome: Outcome)
      requires Valid()
      modifies core.inner
      ensures Reaction(Model(), core.inner.Model(), outcome, None)
           == Sending(old(Model()), old(core.inner.Model()), dest, EchoImage(identifier, sequence, payload),
                      hopsAccepted, sendAccepted)
    {
      var image := DgramPacketBytes(identifier, sequence, payload);
      match image {
        case Err(e) =>
          outcome := Failed(e);
        case Ok(bytes) =>
          var sent := core.SendBytes(dest, bytes, hopsAccepted, sendAccepted);
          outcome := Acknowledged(sent);
      }
    }
  }

  /** The raw handle adds only the packet it is given to send. */
  class IcmpSocket4 {
    const core: Icmp4Core

    ghost predicate Valid()
      reads core.buf
    {
      core.Valid()
    }

    ghost function Model(): Handle
      requires Valid()
      reads core, core.buf, core.buf.data
    {
      Handle(Blocking, Raw, core.Model(), 0)
    }

    constructor (core: Icmp4Core)
      ensures this.core == core
    {
      this.core := core;
    }

    method SendTo(dest: Ipv4, packet: Packet, hopsAccepted: bool, sendAccepted: bool) returns (outcome: Outcome)
      requires Valid()
      modifies core.inner
      ensures Reaction(Model(), core.inner.Model(), outcome, None)
           == Sending(old(Model()), old(core.inner.Model()), dest, Ok(PacketImage(packet)), hopsAccepted, sendAccepted)
    {
      var bytes := RawPacketBytes(packet);
      var sent := core.SendBytes(dest, bytes, hopsAccepted, sendAccepted);
      outcome := Acknowledged(sent);
    }
  }

  // ---------------------------------------------------------------- src/async_common.rs

  class AsyncIcmp4State {
    const buf: ByteVec
    var boundTo: Option<Ipv4>
    var opts: Opts

    ghost predicate Valid()
      reads buf
    {
      buf.Valid()
    }

    ghost function Model(): Core4
      requires Valid()
      reads this, buf, buf.data
    {
      Core(boundTo, buf.Model(), opts)
    }

    constructor (boundTo: Option<Ipv4>, buf: ByteVec, opts: Opts)
      ensures this.boundTo == boundTo && this.buf == buf && this.opts == opts
    {
      this.boundTo, this.buf, this.opts := boundTo, buf, opts;
    }

    method SetReadBufferSize(size: nat)
      requires Valid()
      modifies buf, buf.data
      ensures Valid() && (buf.data == old(buf.data) || fresh(buf.data))
      ensures Model() == SetSize(old(Model()), size)
    {
      buf.SetSize(size);
    }

    method SetMaxHops(hops: U32)
      modifies `opts
      ensures opts == old(opts).(hops := hops)
    {
      opts := opts.(hops := hops);
    }

    method SetTimeout(timeout: Option<Duration>)
      modifies `opts
      ensures opts == old(opts).(timeout := timeout)
    {
      opts := opts.(timeout := timeout);
    }

    method Bind(socket: Socket4, addr: Ipv4, granted: Option<U16>) returns (out: Result<(), IoError>)
      requires Valid()
      modifies this, socket
      ensures Valid()
      ensures Effect(Model(), socket.Model(), out) == BindAsync(old(Model()), old(socket.Model()), addr, granted)
    {
      boundTo := Some(addr);
      var ok := socket.Bind(addr, granted);
      out := if ok then Ok(()) else Err(OsError(Refused));
    }

    method PrepareSend(socket: Socket4, hopsAccepted: bool) returns (ok: bool)
      modifies socket
      ensures ok == hopsAccepted
      ensures socket.Model() == if ok then old(socket.Model()).(hops := opts.hops) else old(socket.Model())
    {
      ok := socket.SetHops(opts.hops, hopsAccepted);
    }

    /** Hands out the whole allocation as spare capacity. */
    method BeginReceive() returns (spare: array<Byte>)
      requires Valid()
      modifies buf
      ensures Valid() && spare == buf.data == old(buf.data) && buf.Model() == old(buf.Model()).Cleared()
    {
      buf.Clear();
      spare := buf.data;
    }

    /** The count comes from a receive into the spare capacity, so it is at most the capacity. */
    method FinishReceive(readCount: nat, peer: Ipv4) returns (outcome: Outcome)
      requires Valid() && readCount <= buf.data.Length
      modifies buf
      ensures Valid() && buf.data == old(buf.data)
      ensures buf.Model()
           == if readCount == buf.data.Length then old(buf.Model()) else Vec(old(buf.data[..]), readCount)
      ensures outcome == if readCount == buf.data.Length then Failed(Truncated)
                         else Parsed(Ok((old(buf.data[..])[..readCount], peer)))
    {
      if readCount == buf.data.Length {
        return Failed(Truncated);
      }
      buf.SetLen(readCount);
      assert buf.data[0..readCount] == buf.data[..][..readCount];
      outcome := Parsed(Ok((buf.data[0..readCount], peer)));
    }

    method ReceiveWithMeta(socket: Socket4, linux: bool, arrival: Arrival4) returns (outcome: Outcome)
      requires Valid()
      modifies buf, buf.data
      ensures Valid() && buf.data == old(buf.data)
      ensures Model() == old(Model()).(buf := ReadMeta(old(buf.Model()), linux, arrival).0)
      ensures outcome == Parsed(ReadMeta(old(buf.Model()), linux, arrival).1)
    {
      var received := PlatformReceive(buf, socket, linux, arrival);
      var read := ReadReceived(buf, received);
      outcome := Parsed(read);
    }
  }

  /** The async handles: the state above, driven until the socket is ready. */
  class AsyncIcmpV4Socket {
    const inner: Socket4
    const state: AsyncIcmp4State
    const transport: Transport
    var identifier: U16

    ghost predicate Valid()
      reads state.buf
    {
      state.Valid()
    }

    ghost function Model(): Handle
      requires Valid()
      reads this, state, state.buf, state.buf.data
    {
      Handle(Async, transport, state.Model(), identifier)
    }

    constructor (inner: Socket4, state: AsyncIcmp4State, transport: Transport, identifier: U16)
      ensures this.inner == inner && this.state == state
      ensures this.transport == transport && this.identifier == identifier
    {
      this.inner, this.state, this.transport, this.identifier := inner, state, transport, identifier;
    }

    method Bind(addr: Ipv4, granted: Option<U16>, portRead: bool) returns (outcome: Outcome)
      requires Valid()
      modifies this, state, inner
      ensures Valid()
      ensures Reaction(Model(), inner.Model(), outcome, None)
           == Binding(old(Model()), old(inner.Model()), addr, granted, portRead)
    {
      var bound := state.Bind(inner, addr, granted);
      if bound.Err? {
        return Failed(bound.error);
      }
      if transport == Dgram {
        if !portRead {
          return Failed(OsError(Refused));
        }
        identifier := inner.port;
      }
      outcome := Done;
    }

    method SendImage(dest: Ipv4, bytes: seq<Byte>, hopsAccepted: bool, sendAccepted: bool) returns (outcome: Outcome)
      requires Valid()
      modifies inner
      ensures Reaction(Model(), inner.Model(), outcome, None)
           == Sending(old(Model()), old(inner.Model()), dest, Ok(bytes), hopsAccepted, sendAccepted)
    {
      var ok := state.PrepareSend(inner, hopsAccepted);
      if !ok {
        return Failed(OsError(Refused));
      }
      ok := inner.SendTo(bytes, dest, sendAccepted);
      outcome := if ok then Done else Failed(OsError(Refused));
    }

    method RcvFrom(unready: nat, arrival: Arrival4) returns (outcome: Outcome)
      requires Valid()
      modifies state.buf, state.buf.data
      ensures Valid() && state.buf.data == old(state.buf.data)
      ensures state.buf.Model() == PollChecked(old(state.buf.Model()), unready, arrival).0
      ensures outcome == Parsed(PollChecked(old(state.buf.Model()), unready, arrival).1)
    {
      var left := unready;
      while left > 0
        invariant Valid() && state.buf.data == old(state.buf.data)
        invariant PollChecked(state.buf.Model(), left, arrival) == PollChecked(old(state.buf.Model()), unready, arrival)
      {
        ghost var before := state.buf.Model();
        var spare := state.BeginReceive();
        var count, lost := inner.Receive(spare, NoArrival(WouldBlock));
        assert state.buf.Model() == ReadChecked<Ipv4>(before, NoArrival(WouldBlock)).0;
        left := left - 1;
      }
      var spare := state.BeginReceive();
      var count, lost := inner.Receive(spare, arrival);
      if arrival.NoArrival? {
        return Failed(OsError(arrival.kind));
      }
      outcome := state.FinishReceive(count, arrival.peer);
    }

    method RcvFromWithMeta(linux: bool, unready: nat, arrival: Arrival4) returns (outcome: Outcome)
      requires Valid()
      modifies state.buf, state.buf.data
      ensures Valid() && state.buf.data == old(state.buf.data)
      ensures state.buf.Model() == PollMeta(old(state.buf.Model()), linux, unready, arrival).0
      ensures outcome == Parsed(PollMeta(old(state.buf.Model()), linux, unready, arrival).1)
    {
      var left := unready;
      while left > 0
        invariant Valid() && state.buf.data == old(state.buf.data)
        invariant PollMeta(state.buf.Model(), linux, left, arrival)
               == PollMeta(old(state.buf.Model()), linux, unready, arrival)
      {
        var ignored := state.ReceiveWithMeta(inner, linux, NoArrival(WouldBlock));
        left := left - 1;
      }
      outcome := state.ReceiveWithMeta(inner, linux, arrival);
    }
  }
}
