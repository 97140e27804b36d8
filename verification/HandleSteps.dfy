/**
  What each handle operation does to the handle's own state and to the shared socket, on
  values. The classes of Sockets4 and Sockets6 are proved against these functions, and the
  lemmas about runs are proved from them.

  Receive steps stop at the bytes handed to the parser, since both packet versions share them.
 */
module HandleSteps {
  import opened Prelude
  import opened Buffers
  import opened OsSockets

  const DEFAULT_RECV_BUFFER_SIZE: nat := 2048

  datatype Opts = Opts(hops: U32, timeout: Option<Duration>)

  /** The state every handle owns: nothing in it is shared with its clones. */
  datatype Core<A> = Core(bound: Option<A>, buf: Buf, opts: Opts)

  datatype Effect<A, M, R> = Effect(core: Core<A>, os: Os<A, M>, out: Result<R, IoError>)

  function NewCore<A>(): Core<A> {
    Core(None, Fresh(DEFAULT_RECV_BUFFER_SIZE), Opts(50, None))
  }

  /** What every handle starts with. */
  lemma NewCoreIs<A>()
    ensures var c := NewCore<A>();
            c.bound == None && |c.buf.store| == 2048 && c.opts.hops == 50 && c.opts.timeout == None
  {
  }

  /** What the configuration calls of a handle set. */
  datatype Settings = Settings(size: nat, opts: Opts)

  function SettingsOf<A>(c: Core<A>): Settings {
    Settings(|c.buf.store|, c.opts)
  }

  // ---------------------------------------------------------------- configuration

  function SetSize<A>(c: Core<A>, size: nat): Core<A>
  {
    c.(buf := c.buf.Resized(size))
  }

  /** Only a bound handle can be cloned; the copy has a new zeroed buffer of the same capacity. */
  function Clone<A>(c: Core<A>, dupAccepted: bool): Result<Core<A>, IoError> {
    if c.bound.None? then Err(InvalidInput)
    else if !dupAccepted then Err(OsError(Refused))
    else Ok(Core(c.bound, Fresh(|c.buf.store|), c.opts))
  }

  function OsBound<A, M>(os: Os<A, M>, addr: A, port: U16): Os<A, M> {
    os.(port := port, trace := os.trace + [Bound(addr, port)])
  }

  /** A blocking handle records the address once the system has accepted it. */
  function BindBlocking<A, M>(c: Core<A>, os: Os<A, M>, addr: A, granted: Option<U16>): Effect<A, M, ()> {
    match granted
    case None => Effect(c, os, Err(OsError(Refused)))
    case Some(port) => Effect(c.(bound := Some(addr)), OsBound(os, addr, port), Ok(()))
  }

  /** An async handle records the address before it asks the system. */
  function BindAsync<A, M>(c: Core<A>, os: Os<A, M>, addr: A, granted: Option<U16>): Effect<A, M, ()> {
    match granted
    case None => Effect(c.(bound := Some(addr)), os, Err(OsError(Refused)))
    case Some(port) => Effect(c.(bound := Some(addr)), OsBound(os, addr, port), Ok(()))
  }

  // ---------------------------------------------------------------- sending

  /** Every send first writes the handle's own hop limit into the shared socket. */
  function SendBytes<A, M>(c: Core<A>, os: Os<A, M>, dest: A, bytes: seq<Byte>, hopsAccepted: bool, sendAccepted: bool)
    : Effect<A, M, ()>
  {
    if !hopsAccepted then Effect(c, os, Err(OsError(Refused))) else
    var os1 := os.(hops := c.opts.hops);
    if !sendAccepted then Effect(c, os1, Err(OsError(Refused))) else
    Effect(c, os1.(trace := os1.trace + [Sent(dest, bytes, os1.hops)]), Ok(()))
  }

  // ---------------------------------------------------------------- receiving

  /** One non-metadata receive into a cleared buffer, with the source's full-buffer check. */
  function ReadChecked<A>(b: Buf, arrival: Arrival<A>): (r: (Buf, Result<(seq<Byte>, A), IoError>))
    ensures |r.0.store| == |b.store|
  {
    var cleared := b.Cleared();
    match arrival
    case NoArrival(kind) => (cleared, Err(OsError(kind)))
    case Arrived(datagram, peer, _) =>
      var count := Min(|datagram|, |b.store|);
      var filled := cleared.Overwritten(datagram);
      if count == |b.store| then (filled, Err(Truncated)) else
      (Vec(filled.store, count), Ok((filled.store[..count], peer)))
  }

  /** The same without the check, as the ICMPv6 `rcv_from` does it. */
  function ReadUnchecked<A>(b: Buf, arrival: Arrival<A>): (r: (Buf, Result<(seq<Byte>, A), IoError>))
    ensures |r.0.store| == |b.store|
  {
    var cleared := b.Cleared();
    match arrival
    case NoArrival(kind) => (cleared, Err(OsError(kind)))
    case Arrived(datagram, peer, _) =>
      var count := Min(|datagram|, |b.store|);
      var filled := cleared.Overwritten(datagram);
      (Vec(filled.store, count), Ok((filled.store[..count], peer)))
  }

  /** What the platform `receive` functions report. */
  datatype Received<A> = Received(len: nat, peer: A, truncated: bool)

  /** Linux: the buffer is extended to its capacity, and truncation is MSG_TRUNC or a full buffer. */
  function ReceiveLinux<A>(b: Buf, arrival: Arrival<A>): (r: (Buf, Result<Received<A>, IoError>))
    ensures |r.0.store| == |b.store|
    ensures r.1.Ok? ==> r.1.value.len <= r.0.len
  {
    var extended := b.Extended();
    match arrival
    case NoArrival(kind) => (extended, Err(OsError(kind)))
    case Arrived(datagram, peer, named) =>
      var count := Min(|datagram|, |b.store|);
      var filled := extended.Overwritten(datagram);
      if !named then (filled, Err(MissingPeer)) else
      (filled, Ok(Received(count, peer, |datagram| > |b.store| || count >= |b.store|)))
  }

  /** Elsewhere: the buffer is cleared, filled and given the received length. */
  function ReceiveOther<A>(b: Buf, arrival: Arrival<A>): (r: (Buf, Result<Received<A>, IoError>))
    ensures |r.0.store| == |b.store|
    ensures r.1.Ok? ==> r.1.value.len <= r.0.len
  {
    var cleared := b.Cleared();
    match arrival
    case NoArrival(kind) => (cleared, Err(OsError(kind)))
    case Arrived(datagram, peer, _) =>
      var count := Min(|datagram|, |b.store|);
      var filled := cleared.Overwritten(datagram);
      (Vec(filled.store, count), Ok(Received(count, peer, count >= |b.store|)))
  }

  /** The metadata receive up to the parser. */
  function ReadMeta<A>(b: Buf, linux: bool, arrival: Arrival<A>): (r: (Buf, Result<(seq<Byte>, A), IoError>))
    ensures |r.0.store| == |b.store|
  {
    var (b', received) := if linux then ReceiveLinux(b, arrival) else ReceiveOther(b, arrival);
    match received
    case Err(e) => (b', Err(e))
    case Ok(Received(len, peer, truncated)) =>
      if truncated then (b', Err(Truncated)) else (b', Ok((b'.store[..len], peer)))
  }

  /** An async receive polls until the socket is ready; every unready poll still touches the buffer. */
  function PollChecked<A>(b: Buf, unready: nat, arrival: Arrival<A>): (r: (Buf, Result<(seq<Byte>, A), IoError>))
    ensures |r.0.store| == |b.store|
    decreases unready
  {
    if unready == 0 then ReadChecked(b, arrival)
    else PollChecked(ReadChecked<A>(b, NoArrival(WouldBlock)).0, unready - 1, arrival)
  }

  function PollMeta<A>(b: Buf, linux: bool, unready: nat, arrival: Arrival<A>)
    : (r: (Buf, Result<(seq<Byte>, A), IoError>))
    ensures |r.0.store| == |b.store|
    decreases unready
  {
    if unready == 0 then ReadMeta(b, linux, arrival)
    else PollMeta(ReadMeta<A>(b, linux, NoArrival(WouldBlock)).0, linux, unready - 1, arrival)
  }

  /**
    A blocking handle's receive first writes its own timeout into the shared socket. It
    waits only while no conversion of a clone has switched that socket to nonblocking.
   */
  function Waiting<A, M>(c: Core<A>, os: Os<A, M>): Os<A, M> {
    var os1 := os.(readTimeout := c.opts.timeout);
    if os1.nonblocking then os1 else os1.(trace := os1.trace + [Waited(os1.readTimeout)])
  }

  // ---------------------------------------------------------------- what receiving must mean

  /** The bytes a receive may hand on, as a function of the datagram and the buffer size alone. */
  function Delivered<A>(arrival: Arrival<A>, size: nat): Result<(seq<Byte>, A), IoError> {
    match arrival
    case NoArrival(kind) => Err(OsError(kind))
    case Arrived(datagram, peer, _) => if |datagram| >= size then Err(Truncated) else Ok((datagram, peer))
  }

  /** The same for the metadata calls, which on Linux insist on a usable peer address. */
  function DeliveredMeta<A>(linux: bool, arrival: Arrival<A>, size: nat): Result<(seq<Byte>, A), IoError> {
    if linux && arrival.Arrived? && !arrival.named then Err(MissingPeer) else Delivered(arrival, size)
  }

  lemma ReadsDeliver<A>(b: Buf, linux: bool, arrival: Arrival<A>)
    ensures ReadChecked(b, arrival).1 == Delivered(arrival, |b.store|)
    ensures ReadMeta(b, linux, arrival).1 == DeliveredMeta(linux, arrival, |b.store|)
  {
    if arrival.Arrived? && |arrival.datagram| < |b.store| {
      var d := arrival.datagram;
      assert (d[..|d|] + b.store[|d|..])[..|d|] == d;
      assert (d[..|d|] + b.Extended().store[|d|..])[..|d|] == d;
    }
  }

  /** Whatever the buffer held and however often the socket was unready, async receives deliver the same. */
  lemma {:induction false} PollsDeliver<A>(b: Buf, linux: bool, unready: nat, arrival: Arrival<A>)
    ensures PollChecked(b, unready, arrival).1 == Delivered(arrival, |b.store|)
    ensures PollMeta(b, linux, unready, arrival).1 == DeliveredMeta(linux, arrival, |b.store|)
    decreases unready
  {
    if unready == 0 {
      ReadsDeliver(b, linux, arrival);
    } else {
      PollsDeliver(ReadChecked<A>(b, NoArrival(WouldBlock)).0, linux, unready - 1, arrival);
      PollsDeliver(ReadMeta<A>(b, linux, NoArrival(WouldBlock)).0, linux, unready - 1, arrival);
    }
  }

  /** Without the check, an oversized datagram is handed on cut short. */
  lemma UncheckedDelivers<A>(b: Buf, arrival: Arrival<A>)
    ensures arrival.Arrived? ==>
              ReadUnchecked(b, arrival).1 == Ok((arrival.datagram[..Min(|arrival.datagram|, |b.store|)], arrival.peer))
    ensures arrival.NoArrival? ==> ReadUnchecked(b, arrival).1 == Err(OsError(arrival.kind))
  {
    if arrival.Arrived? {
      var cut := arrival.datagram[..Min(|arrival.datagram|, |b.store|)];
      assert (cut + b.store[|cut|..])[..|cut|] == cut;
    }
  }

  // ---------------------------------------------------------------- accepted addresses

  /** Some bind of this address appears in the trace, so the system accepted one. */
  ghost predicate Accepted<A(!new)>(trace: seq<Event<A>>, addr: A) {
    exists port: U16 :: Bound(addr, port) in trace
  }

  lemma AcceptedInLonger<A(!new)>(trace: seq<Event<A>>, longer: seq<Event<A>>, addr: A)
    requires trace <= longer && Accepted(trace, addr)
    ensures Accepted(longer, addr)
  {
    var port: U16 :| Bound(addr, port) in trace;
    assert Bound(addr, port) in longer;
  }

  /** One more event accepts an address exactly when it is a bind of that address. */
  lemma AcceptedLast<A(!new)>(trace: seq<Event<A>>, event: Event<A>, addr: A)
    ensures Accepted(trace + [event], addr) <==> Accepted(trace, addr) || (event.Bound? && event.addr == addr)
  {
    var longer := trace + [event];
    if Accepted(trace, addr) {
      AcceptedInLonger(trace, longer, addr);
    }
    if event.Bound? && event.addr == addr {
      assert longer[|trace|] == Bound(addr, event.port);
    }
    if Accepted(longer, addr) {
      var port: U16 :| Bound(addr, port) in longer;
      if Bound(addr, port) != event {
        assert Bound(addr, port) in trace;
      }
    }
  }
}
