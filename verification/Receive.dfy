/** The platform `receive` functions, which every metadata call goes through. */
module ReceivePaths {
  import opened Prelude
  import opened Buffers
  import opened OsSockets
  import opened HandleSteps

  method LinuxReceive<A, M>(buffer: ByteVec, socket: OsSocket<A, M>, arrival: Arrival<A>)
    returns (received: Result<Received<A>, IoError>)
    requires buffer.Valid()
    modifies buffer, buffer.data
    ensures buffer.Valid() && buffer.data == old(buffer.data)
    ensures (buffer.Model(), received) == ReceiveLinux(old(buffer.Model()), arrival)
  {
    var capacity := buffer.data.Length;
    buffer.Resize(capacity);
    var count, lost := socket.Receive(buffer.data, arrival);
    if arrival.NoArrival? {
      return Err(OsError(arrival.kind));
    }
    var truncated := lost || count >= capacity;
    if !arrival.named {
      return Err(MissingPeer);
    }
    received := Ok(Received(count, arrival.peer, truncated));
  }

  method OtherReceive<A, M>(buffer: ByteVec, socket: OsSocket<A, M>, arrival: Arrival<A>)
    returns (received: Result<Received<A>, IoError>)
    requires buffer.Valid()
    modifies buffer, buffer.data
    ensures buffer.Valid() && buffer.data == old(buffer.data)
    ensures (buffer.Model(), received) == ReceiveOther(old(buffer.Model()), arrival)
  {
    buffer.Clear();
    var count, lost := socket.Receive(buffer.data, arrival);
    if arrival.NoArrival? {
      return Err(OsError(arrival.kind));
    }
    var truncated := count >= buffer.data.Length;
    buffer.SetLen(count);
    received := Ok(Received(count, arrival.peer, truncated));
  }

  method PlatformReceive<A, M>(buffer: ByteVec, socket: OsSocket<A, M>, linux: bool, arrival: Arrival<A>)
    returns (received: Result<Received<A>, IoError>)
    requires buffer.Valid()
    modifies buffer, buffer.data
    ensures buffer.Valid() && buffer.data == old(buffer.data)
    ensures (buffer.Model(), received)
         == if linux then ReceiveLinux(old(buffer.Model()), arrival) else ReceiveOther(old(buffer.Model()), arrival)
  {
    if linux {
      received := LinuxReceive(buffer, socket, arrival);
    } else {
      received := OtherReceive(buffer, socket, arrival);
    }
  }

  /** The tail of every metadata call: report truncation, else take the received length. */
  method ReadReceived<A>(buffer: ByteVec, received: Result<Received<A>, IoError>)
    returns (read: Result<(seq<Byte>, A), IoError>)
    requires buffer.Valid()
    requires received.Ok? ==> received.value.len <= buffer.len
    ensures received.Err? ==> read == Err(received.error)
    ensures received.Ok? ==>
              read == if received.value.truncated then Err(Truncated)
                      else Ok((buffer.Model().store[..received.value.len], received.value.peer))
  {
    if received.Err? {
      return Err(received.error);
    }
    if received.value.truncated {
      return Err(Truncated);
    }
    assert buffer.data[..received.value.len] == buffer.data[..][..received.value.len];
    read := Ok((buffer.data[..received.value.len], received.value.peer));
  }
}
