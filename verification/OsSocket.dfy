/**
  The operating-system socket as the handles see it: its option cells, its local address,
  its receive filter and a trace of what was asked of it. A is the address type and M the
  filter mask. Every choice the system makes (fail or not, which port, which datagram) is
  an argument of the call that meets it.
 */
module OsSockets {
  import opened Prelude
  import opened PacketErrors

  type Duration = nat

  datatype ErrorKind = WouldBlock | TimedOut | Refused

  datatype IoError =
    | OsError(kind: ErrorKind)
    | Truncated
    | MissingPeer
    | NotBound
    | InvalidInput
    | Malformed(parse: ParseError)
    | Rejected(build: BuildError)

  /** What a receive call meets. A peer that is not `named` is one recvmsg reports no usable address for. */
  datatype Arrival<A> =
    | Arrived(datagram: seq<Byte>, peer: A, named: bool)
    | NoArrival(kind: ErrorKind)

  datatype Event<A> =
    | Bound(addr: A, port: U16)
    | Sent(dest: A, bytes: seq<Byte>, hops: U32)
    | Waited(timeout: Option<Duration>)

  datatype Os<A, M> = Os(
    hops: U32,
    readTimeout: Option<Duration>,
    nonblocking: bool,
    filter: M,
    port: U16,
    trace: seq<Event<A>>)

  class OsSocket<A, M> {
    var hops: U32
    var readTimeout: Option<Duration>
    var nonblocking: bool
    var filter: M
    var port: U16
    var trace: seq<Event<A>>

    constructor (open: M, defaultHops: U32)
      ensures Model() == Os(defaultHops, None, false, open, 0, [])
    {
      hops, readTimeout, nonblocking, filter, port, trace := defaultHops, None, false, open, 0, [];
    }

    ghost function Model(): Os<A, M>
      reads this
    {
      Os(hops, readTimeout, nonblocking, filter, port, trace)
    }

    /** Binding succeeds with the local port the system granted, or fails. */
    method Bind(addr: A, granted: Option<U16>) returns (ok: bool)
      modifies this
      ensures ok == granted.Some?
      ensures Model() == if ok then old(Model()).(port := granted.value,
                                                  trace := old(trace) + [Bound(addr, granted.value)])
                         else old(Model())
    {
      ok := granted.Some?;
      if ok {
        port := granted.value;
        trace := trace + [Bound(addr, port)];
      }
    }

    method SetHops(value: U32, accepted: bool) returns (ok: bool)
      modifies `hops
      ensures ok == accepted
      ensures hops == if ok then value else old(hops)
    {
      if accepted {
        hops := value;
      }
      ok := accepted;
    }

    method SetReadTimeout(value: Option<Duration>, accepted: bool) returns (ok: bool)
      modifies `readTimeout
      ensures ok == accepted
      ensures readTimeout == if ok then value else old(readTimeout)
    {
      if accepted {
        readTimeout := value;
      }
      ok := accepted;
    }

    /** `set_nonblocking(true)`, which every handle sharing the socket sees. */
    method SetNonblocking(accepted: bool) returns (ok: bool)
      modifies `nonblocking
      ensures ok == accepted
      ensures nonblocking == (ok || old(nonblocking))
    {
      if accepted {
        nonblocking := true;
      }
      ok := accepted;
    }

    method SetFilter(mask: M, accepted: bool) returns (ok: bool)
      modifies `filter
      ensures ok == accepted
      ensures filter == if ok then mask else old(filter)
    {
      if accepted {
        filter := mask;
      }
      ok := accepted;
    }

    /** A datagram leaves with the hop limit in force on the socket. */
    method SendTo(bytes: seq<Byte>, dest: A, accepted: bool) returns (ok: bool)
      modifies `trace
      ensures ok == accepted
      ensures trace == if ok then old(trace) + [Sent(dest, bytes, hops)] else old(trace)
    {
      if accepted {
        trace := trace + [Sent(dest, bytes, hops)];
      }
      ok := accepted;
    }

    /** A receive waits under the read timeout in force, unless the socket has been switched to nonblocking. */
    method BeginWait()
      modifies `trace
      ensures trace == if nonblocking then old(trace) else old(trace) + [Waited(readTimeout)]
    {
      if !nonblocking {
        trace := trace + [Waited(readTimeout)];
      }
    }

    /** Copies as much of the datagram as fits into the whole of an array; says how much, and whether more was lost. */
    method Receive(into: array<Byte>, arrival: Arrival<A>) returns (count: nat, lost: bool)
      modifies into
      ensures arrival.NoArrival? ==> count == 0 && !lost && into[..] == old(into[..])
      ensures arrival.Arrived? ==>
                count == Min(|arrival.datagram|, into.Length)
                && (lost <==> |arrival.datagram| > into.Length)
                && into[..] == arrival.datagram[..count] + old(into[..])[count..]
    {
      count, lost := 0, false;
      if arrival.Arrived? {
        count := Min(|arrival.datagram|, into.Length);
        lost := |arrival.datagram| > into.Length;
        forall i | 0 <= i < count {
          into[i] := arrival.datagram[i];
        }
      }
    }
  }
}
