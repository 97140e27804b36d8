/** The ICMPv6 handle class of src/socket.rs, proved against the step functions of World6. */
module Sockets6 {
  import opened Prelude
  import opened Filter
  import opened Buffers
  import opened OsSockets
  import opened HandleSteps
  import opened Machines
  import opened ReceivePaths
  import opened World6
  import Wire = Icmpv6

  type Socket6 = OsSocket<Ipv6Addr, Mask6>

  class IcmpSocket6 {
    const inner: Socket6
    const buf: ByteVec
    var boundTo: Option<Ipv6Addr>
    var opts: Opts

    ghost predicate Valid()
      reads buf
    {
      buf.Valid()
    }

    ghost function Model(): Handle
      requires Valid()
      reads this, buf, buf.data
    {
      Core(boundTo, buf.Model(), opts)
    }

    constructor NewFromSocket(inner: Socket6)
      ensures Valid() && fresh(buf) && fresh(buf.data)
      ensures this.inner == inner && Model() == NewCore()
      ensures boundTo == None && buf.data.Length == 2048 && opts == Opts(50, None)
    {
      this.inner := inner;
      boundTo := None;
      buf := new ByteVec.Zeroed(DEFAULT_RECV_BUFFER_SIZE);
      opts := Opts(50, None);
    }

    constructor Parts(inner: Socket6, boundTo: Option<Ipv6Addr>, buf: ByteVec, opts: Opts)
      requires buf.Valid()
      ensures this.inner == inner && this.buf == buf && this.boundTo == boundTo && this.opts == opts
    {
      this.inner, this.boundTo, this.buf, this.opts := inner, boundTo, buf, opts;
    }

    method TryClone(dupAccepted: bool) returns (clone: Result<IcmpSocket6, IoError>)
      requires Valid()
      ensures clone.Err? ==> HandleSteps.Clone(Model(), dupAccepted) == Err(clone.error)
      ensures clone.Ok? ==>
                var c := clone.value;
                && fresh(c) && fresh(c.buf) && fresh(c.buf.data) && c.inner == inner
                && c.Valid() && HandleSteps.Clone(Model(), dupAccepted) == Ok(c.Model())
    {
      if boundTo.None? {
        return Err(InvalidInput);
      }
      if !dupAccepted {
        return Err(OsError(Refused));
      }
      var copy := new ByteVec.Zeroed(buf.data.Length);
      var c := new IcmpSocket6.Parts(inner, boundTo, copy, Opts(opts.hops, opts.timeout));
      clone := Ok(c);
    }

    method SetReadBufferSize(size: nat)
      requires Valid()
      modifies buf, buf.data
      ensures Valid() && (buf.data == old(buf.data) || fresh(buf.data))
      ensures Model() == SetSize(old(Model()), size)
    {
      buf.SetSize(size);
    }

    method Bind(addr: Ipv6Addr, granted: Option<U16>) returns (outcome: Outcome)
      requires Valid()
      modifies this, inner
      ensures Valid()
      ensures Reaction(Model(), inner.Model(), outcome, None)
           == React(old(Model()), old(inner.Model()), World6.Bind(addr, granted))
    {
      var ok := inner.Bind(addr, granted);
      if !ok {
        return Failed(OsError(Refused));
      }
      boundTo := Some(addr);
      outcome := Done;
    }

    method SendTo(dest: Ipv6Addr, packet: Wire.Packet, hopsAccepted: bool, sendAccepted: bool)
      returns (outcome: Outcome)
      requires Valid()
      modifies inner
      ensures Reaction(Model(), inner.Model(), outcome, None)
           == React(old(Model()), old(inner.Model()), World6.SendTo(dest, packet, hopsAccepted, sendAccepted))
    {
      if boundTo.None? {
        return Failed(NotBound);
      }
      var filled := Wire.WithChecksum(packet, boundTo.value, dest);
      var ok := inner.SetHops(opts.hops, hopsAccepted);
      if !ok {
        return Failed(OsError(Refused));
      }
      var bytes := Wire.GetBytes(filled, true);
      ok := inner.SendTo(bytes, dest, sendAccepted);
      outcome := if ok then Done else Failed(OsError(Refused));
    }

    /** No comparison of the count with the capacity here, unlike the ICMPv4 receive. */
    method RcvFrom(timeoutAccepted: bool, arrival: Arrival6) returns (outcome: Outcome)
      requires Valid()
      modifies inner, buf, buf.data
      ensures Valid() && buf.data == old(buf.data)
      ensures Reaction(Model(), inner.Model(), outcome, None)
           == React(old(Model()), old(inner.Model()), World6.RcvFrom(timeoutAccepted, arrival))
    {
      var ok := inner.SetReadTimeout(opts.timeout, timeoutAccepted);
      if !ok {
        return Failed(OsError(Refused));
      }
      buf.Clear();
      inner.BeginWait();
      var readCount, lost := inner.Receive(buf.data, arrival);
      if arrival.NoArrival? {
        return Failed(OsError(arrival.kind));
      }
      buf.SetLen(readCount);
      assert buf.data[..buf.len] == buf.data[..][..readCount];
      outcome := Parsed(Ok((buf.data[..buf.len], arrival.peer)));
    }

    method RcvFromWithMeta(linux: bool, timeoutAccepted: bool, arrival: Arrival6) returns (outcome: Outcome)
      requires Valid()
      modifies inner, buf, buf.data
      ensures Valid() && buf.data == old(buf.data)
      ensures Reaction(Model(), inner.Model(), outcome, None)
           == React(old(Model()), old(inner.Model()), World6.RcvFromWithMeta(linux, timeoutAccepted, arrival))
    {
      var ok := inner.SetReadTimeout(opts.timeout, timeoutAccepted);
      if !ok {
        return Failed(OsError(Refused));
      }
      inner.BeginWait();
      var received := PlatformReceive(buf, inner, linux, arrival);
      var read := ReadReceived(buf, received);
      outcome := Parsed(read);
    }

    method SetAllowedTypes(allowed: seq<bv8>, filterAccepted: bool) returns (outcome: Outcome)
      requires Valid()
      modifies inner
      ensures Reaction(Model(), inner.Model(), outcome, None)
           == React(old(Model()), old(inner.Model()), World6.SetAllowedTypes(allowed, filterAccepted))
    {
      var mask := AllowMask6(allowed);
      var ok := inner.SetFilter(mask, filterAccepted);
      outcome := if ok then Done else Failed(OsError(Refused));
    }

    method ClearTypeFilter(filterAccepted: bool) returns (outcome: Outcome)
      requires Valid()
      modifies inner
      ensures Reaction(Model(), inner.Model(), outcome, None)
           == React(old(Model()), old(inner.Model()), World6.ClearTypeFilter(filterAccepted))
    {
      var ok := inner.SetFilter(OpenMask(), filterAccepted);
      outcome := if ok then Done else Failed(OsError(Refused));
    }
  }
}
