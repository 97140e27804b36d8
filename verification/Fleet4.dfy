/**
  A program's ICMPv4 handles as objects: each owns its buffer, all share one socket object.
  Running any calls through the objects is running the value-level world, so a handle's
  buffer never aliases another's, through cloning, reallocation and conversion.
 */
module Fleet4 {
  import opened Prelude
  import opened Buffers
  import opened OsSockets
  import opened HandleSteps
  import opened Machines
  import opened World4
  import opened Sockets4

  /** A consumed handle is kept only as the value it had. */
  datatype Endpoint =
    | RawEnd(raw: IcmpSocket4)
    | DgramEnd(dgram: DgramIcmpSocket4)
    | AsyncEnd(socket: AsyncIcmpV4Socket)
    | ClosedEnd(was: Handle)

  ghost function Vectors(e: Endpoint): set<ByteVec> {
    match e
    case RawEnd(s) => {s.core.buf}
    case DgramEnd(s) => {s.core.buf}
    case AsyncEnd(s) => {s.state.buf}
    case ClosedEnd(_) => {}
  }

  /** The objects a handle owns; the shared socket is not among them. */
  ghost function Repr(e: Endpoint): set<object>
    reads Vectors(e)
  {
    match e
    case RawEnd(s) => {s, s.core, s.core.buf, s.core.buf.data}
    case DgramEnd(s) => {s, s.core, s.core.buf, s.core.buf.data}
    case AsyncEnd(s) => {s, s.state, s.state.buf, s.state.buf.data}
    case ClosedEnd(_) => {}
  }

  ghost predicate ValidEnd(e: Endpoint, os: Socket4)
    reads Vectors(e)
  {
    match e
    case RawEnd(s) => s.Valid() && s.core.inner == os
    case DgramEnd(s) => s.Valid() && s.core.inner == os
    case AsyncEnd(s) => s.Valid() && s.inner == os
    case ClosedEnd(was) => was.mode == Gone
  }

  ghost function ModelOf(e: Endpoint, os: Socket4): Handle
    requires ValidEnd(e, os)
    reads Vectors(e), Repr(e)
  {
    match e
    case RawEnd(s) => s.Model()
    case DgramEnd(s) => s.Model()
    case AsyncEnd(s) => s.Model()
    case ClosedEnd(was) => was
  }

  predicate CoreCommand(c: Command) {
    c.SetReadBufferSize? || c.SetMaxHops? || c.SetTimeout? || c.RcvFrom? || c.RcvFromWithMeta?
  }

  /** The commands raw and datagram handles forward to their core unchanged. */
  method PerformCore(core: Icmp4Core, c: Command, ghost h: Handle) returns (outcome: Outcome)
    requires core.Valid() && CoreCommand(c)
    requires h.mode == Blocking && h.core == core.Model()
    modifies core, core.inner, core.buf, core.buf.data
    ensures core.Valid() && (core.buf.data == old(core.buf.data) || fresh(core.buf.data))
    ensures Reaction(h.(core := core.Model()), core.inner.Model(), outcome, None)
         == React(h, old(core.inner.Model()), c)
  {
    outcome := Done;
    match c {
      case SetReadBufferSize(size) => core.SetReadBufferSize(size);
      case SetMaxHops(hops) => core.SetMaxHops(hops);
      case SetTimeout(timeout) => core.SetTimeout(timeout);
      case RcvFrom(timeoutAccepted, _, arrival) => outcome := core.Recv(timeoutAccepted, arrival);
      case RcvFromWithMeta(linux, timeoutAccepted, _, arrival) =>
        outcome := core.RecvWithMeta(linux, timeoutAccepted, arrival);
    }
  }

  /** A conversion that fails drops the handle; only its value is kept here. */
  method Close(core: Icmp4Core, transport: Transport, identifier: U16) returns (e: Endpoint)
    requires core.Valid()
    ensures e == ClosedEnd(Handle(Gone, transport, core.Model(), identifier))
  {
    var was := Core(core.boundTo, Vec(core.buf.data[..], core.buf.len), core.opts);
    e := ClosedEnd(Handle(Gone, transport, was, identifier));
  }

  /**
    `into_async_io` and `into_tokio`: the shared socket is switched to nonblocking, then
    registered, and the parts move. A failure drops them and leaves a switch made.
   */
  method Convert(core: Icmp4Core, transport: Transport, identifier: U16, switched: bool, registered: bool)
    returns (e: Endpoint, outcome: Outcome)
    requires core.Valid()
    modifies core.inner
    ensures ValidEnd(e, core.inner)
    ensures e.AsyncEnd? ==> fresh(e.socket) && fresh(e.socket.state) && e.socket.state.buf == core.buf
    ensures !e.RawEnd? && !e.DgramEnd?
    ensures Reaction(ModelOf(e, core.inner), core.inner.Model(), outcome, None)
         == React(Handle(Blocking, transport, old(core.Model()), identifier), old(core.inner.Model()),
                  IntoAsync(switched, registered))
  {
    var ok := core.inner.SetNonblocking(switched);
    if !ok || !registered {
      e := Close(core, transport, identifier);
      outcome := Failed(OsError(Refused));
      return;
    }
    var state := new AsyncIcmp4State(core.boundTo, core.buf, core.opts);
    var socket := new AsyncIcmpV4Socket(core.inner, state, transport, identifier);
    e, outcome := AsyncEnd(socket), Done;
  }

  method CloneRaw(s: IcmpSocket4, dupAccepted: bool) returns (outcome: Outcome, clone: Option<Endpoint>)
    requires s.Valid()
    ensures clone.Some? ==> ValidEnd(clone.value, s.core.inner) && fresh(Repr(clone.value))
    ensures Reaction(s.Model(), s.core.inner.Model(), outcome,
                     if clone.Some? then Some(ModelOf(clone.value, s.core.inner)) else None)
         == React(s.Model(), s.core.inner.Model(), TryClone(dupAccepted))
  {
    var copy := s.core.TryClone(dupAccepted);
    if copy.Err? {
      return Failed(copy.error), None;
    }
    var socket := new IcmpSocket4(copy.value);
    outcome, clone := Done, Some(RawEnd(socket));
  }

  method PerformRaw(s: IcmpSocket4, c: Command) returns (e: Endpoint, outcome: Outcome, clone: Option<Endpoint>)
    requires s.Valid()
    modifies s.core.inner, s.core, s.core.buf, s.core.buf.data
    ensures ValidEnd(e, s.core.inner) && fresh(Repr(e) - old(Repr(RawEnd(s))))
    ensures clone.Some? ==>
              ValidEnd(clone.value, s.core.inner) && fresh(Repr(clone.value)) && Repr(clone.value) !! Repr(e)
    ensures Reaction(ModelOf(e, s.core.inner), s.core.inner.Model(), outcome,
                     if clone.Some? then Some(ModelOf(clone.value, s.core.inner)) else None)
         == React(old(s.Model()), old(s.core.inner.Model()), c)
  {
    e, outcome, clone := RawEnd(s), Unavailable, None;
    if !Offers(Blocking, Raw, c) {
      return;
    }
    if CoreCommand(c) {
      outcome := PerformCore(s.core, c, s.Model());
    } else {
      match c {
        case Bind(addr, granted, _) =>
          var out := s.core.Bind(addr, granted);
          outcome := Acknowledged(out);
        case SendPacket(dest, packet, hopsAccepted, sendAccepted) =>
          outcome := s.SendTo(dest, packet, hopsAccepted, sendAccepted);
        case TryClone(dupAccepted) =>
          outcome, clone := CloneRaw(s, dupAccepted);
        case IntoAsync(switched, registered) =>
          e, outcome := Convert(s.core, Raw, 0, switched, registered);
        case SetAllowedTypes(allowed, filterAccepted) =>
          outcome := SetAllowedTypesOn(s.core.inner, allowed, filterAccepted);
        case ClearTypeFilter(filterAccepted) =>
          outcome := ClearTypeFilterOn(s.core.inner, filterAccepted);
      }
    }
  }

  method CloneDgram(s: DgramIcmpSocket4, dupAccepted: bool) returns (outcome: Outcome, clone: Option<Endpoint>)
    requires s.Valid()
    ensures clone.Some? ==> ValidEnd(clone.value, s.core.inner) && fresh(Repr(clone.value))
    ensures Reaction(s.Model(), s.core.inner.Model(), outcome,
                     if clone.Some? then Some(ModelOf(clone.value, s.core.inner)) else None)
         == React(s.Model(), s.core.inner.Model(), TryClone(dupAccepted))
  {
    var copy := s.core.TryClone(dupAccepted);
    if copy.Err? {
      return Failed(copy.error), None;
    }
    var socket := new DgramIcmpSocket4(copy.value, s.identifier);
    outcome, clone := Done, Some(DgramEnd(socket));
  }

  method PerformDgram(s: DgramIcmpSocket4, c: Command) returns (e: Endpoint, outcome: Outcome, clone: Option<Endpoint>)
    requires s.Valid()
    modifies s, s.core.inner, s.core, s.core.buf, s.core.buf.data
    ensures ValidEnd(e, s.core.inner) && fresh(Repr(e) - old(Repr(DgramEnd(s))))
    ensures clone.Some? ==>
              ValidEnd(clone.value, s.core.inner) && fresh(Repr(clone.value)) && Repr(clone.value) !! Repr(e)
    ensures Reaction(ModelOf(e, s.core.inner), s.core.inner.Model(), outcome,
                     if clone.Some? then Some(ModelOf(clone.value, s.core.inner)) else None)
         == React(old(s.Model()), old(s.core.inner.Model()), c)
  {
    e, outcome, clone := DgramEnd(s), Unavailable, None;
    if !Offers(Blocking, Dgram, c) {
      return;
    }
    if CoreCommand(c) {
      outcome := PerformCore(s.core, c, s.Model());
    } else {
      match c {
        case Bind(addr, granted, portRead) =>
          outcome := s.Bind(addr, granted, portRead);
        case SendEcho(dest, sequence, payload, hopsAccepted, sendAccepted) =>
          outcome := s.Send(dest, sequence, payload, hopsAccepted, sendAccepted);
        case TryClone(dupAccepted) =>
          outcome, clone := CloneDgram(s, dupAccepted);
        case IntoAsync(switched, registered) =>
          e, outcome := Convert(s.core, Dgram, s.identifier, switched, registered);
      }
    }
  }

  method PerformState(s: AsyncIcmpV4Socket, c: Command) returns (outcome: Outcome)
    requires s.Valid() && CoreCommand(c)
    modifies s.state, s.state.buf, s.state.buf.data
    ensures s.Valid() && (s.state.buf.data == old(s.state.buf.data) || fresh(s.state.buf.data))
    ensures Reaction(s.Model(), s.inner.Model(), outcome, None) == React(old(s.Model()), old(s.inner.Model()), c)
  {
    outcome := Done;
    match c {
      case SetReadBufferSize(size) => s.state.SetReadBufferSize(size);
      case SetMaxHops(hops) => s.state.SetMaxHops(hops);
      case SetTimeout(timeout) => s.state.SetTimeout(timeout);
      case RcvFrom(_, unready, arrival) => outcome := s.RcvFrom(unready, arrival);
      case RcvFromWithMeta(linux, _, unready, arrival) => outcome := s.RcvFromWithMeta(linux, unready, arrival);
    }
  }

  method PerformAsyncSend(s: AsyncIcmpV4Socket, c: Command) returns (outcome: Outcome)
    requires s.Valid() && (c.SendPacket? || c.SendEcho?) && Offers(Async, s.transport, c)
    modifies s.inner
    ensures s.Valid()
    ensures Reaction(s.Model(), s.inner.Model(), outcome, None) == React(old(s.Model()), old(s.inner.Model()), c)
  {
    match c {
      case SendPacket(dest, packet, hopsAccepted, sendAccepted) =>
        var bytes := RawPacketBytes(packet);
        outcome := s.SendImage(dest, bytes, hopsAccepted, sendAccepted);
      case SendEcho(dest, sequence, payload, hopsAccepted, sendAccepted) =>
        var image := DgramPacketBytes(s.identifier, sequence, payload);
        match image {
          case Err(e) => outcome := Failed(e);
          case Ok(bytes) => outcome := s.SendImage(dest, bytes, hopsAccepted, sendAccepted);
        }
    }
  }

  method PerformAsync(s: AsyncIcmpV4Socket, c: Command) returns (outcome: Outcome)
    requires s.Valid()
    modifies s, s.inner, s.state, s.state.buf, s.state.buf.data
    ensures s.Valid() && (s.state.buf.data == old(s.state.buf.data) || fresh(s.state.buf.data))
    ensures Reaction(s.Model(), s.inner.Model(), outcome, None) == React(old(s.Model()), old(s.inner.Model()), c)
  {
    if !Offers(Async, s.transport, c) {
      outcome := Unavailable;
    } else if CoreCommand(c) {
      outcome := PerformState(s, c);
    } else {
      match c {
        case Bind(addr, granted, portRead) => outcome := s.Bind(addr, granted, portRead);
        case SendPacket(_, _, _, _) => outcome := PerformAsyncSend(s, c);
        case SendEcho(_, _, _, _, _) => outcome := PerformAsyncSend(s, c);
        case SetAllowedTypes(allowed, filterAccepted) =>
          outcome := SetAllowedTypesOn(s.inner, allowed, filterAccepted);
        case ClearTypeFilter(filterAccepted) =>
          outcome := ClearTypeFilterOn(s.inner, filterAccepted);
      }
    }
  }

  method Perform(os: Socket4, e: Endpoint, c: Command) returns (e': Endpoint, outcome: Outcome, clone: Option<Endpoint>)
    requires ValidEnd(e, os)
    modifies os, Repr(e)
    ensures ValidEnd(e', os) && fresh(Repr(e') - old(Repr(e)))
    ensures clone.Some? ==> ValidEnd(clone.value, os) && fresh(Repr(clone.value)) && Repr(clone.value) !! Repr(e')
    ensures Reaction(ModelOf(e', os), os.Model(), outcome, if clone.Some? then Some(ModelOf(clone.value, os)) else None)
         == React(old(ModelOf(e, os)), old(os.Model()), c)
  {
    match e {
      case RawEnd(s) => e', outcome, clone := PerformRaw(s, c);
      case DgramEnd(s) => e', outcome, clone := PerformDgram(s, c);
      case AsyncEnd(s) =>
        outcome := PerformAsync(s, c);
        e', clone := e, None;
      case ClosedEnd(_) => e', outcome, clone := e, Unavailable, None;
    }
  }

  ghost predicate AllValid(ends: seq<Endpoint>, os: Socket4)
    reads *
  {
    forall i :: 0 <= i < |ends| ==> ValidEnd(ends[i], os)
  }

  ghost predicate Separate(ends: seq<Endpoint>)
    reads *
  {
    forall i, j :: 0 <= i < |ends| && 0 <= j < |ends| && i != j ==> Repr(ends[i]) !! Repr(ends[j])
  }

  /** Replacing one handle and adding another keeps the objects apart when the new ones own nothing of the rest. */
  lemma Installed(ends: seq<Endpoint>, i: nat, e: Endpoint, added: seq<Endpoint>, os: Socket4)
    requires i < |ends| && |added| <= 1
    requires forall j :: 0 <= j < |ends| && j != i ==> ValidEnd(ends[j], os)
    requires forall j, k :: 0 <= j < |ends| && 0 <= k < |ends| && j != k && j != i && k != i ==>
                              Repr(ends[j]) !! Repr(ends[k])
    requires ValidEnd(e, os) && forall j :: 0 <= j < |ends| && j != i ==> Repr(e) !! Repr(ends[j])
    requires added != [] ==> ValidEnd(added[0], os) && Repr(added[0]) !! Repr(e)
    requires added != [] ==> forall j :: 0 <= j < |ends| && j != i ==> Repr(added[0]) !! Repr(ends[j])
    ensures AllValid(ends[i := e] + added, os)
    ensures Separate(ends[i := e] + added)
  {
    var next := ends[i := e] + added;
    forall j, k | 0 <= j < |next| && 0 <= k < |next| && j != k
      ensures Repr(next[j]) !! Repr(next[k])
    {
      assert next[j] == if j == i then e else if j < |ends| then ends[j] else added[0];
      assert next[k] == if k == i then e else if k < |ends| then ends[k] else added[0];
    }
  }

  // ---------------------------------------------------------------- all handles of a program

  ghost function Objects(ends: seq<Endpoint>): set<object>
    reads *
  {
    set e, o | e in ends && o in Repr(e) :: o
  }

  ghost function Model(os: Socket4, ends: seq<Endpoint>): (w: State)
    requires AllValid(ends, os)
    reads *
    ensures |w.handles| == |ends| && w.os == os.Model()
    ensures forall i :: 0 <= i < |ends| ==> w.handles[i] == ModelOf(ends[i], os)
  {
    World(os.Model(), seq(|ends|, i requires 0 <= i < |ends| && ValidEnd(ends[i], os) reads * => ModelOf(ends[i], os)))
  }

  /** `IcmpSocket4::new` or `DgramIcmpSocket4::new` on a newly opened socket. */
  method Open(os: Socket4, transport: Transport) returns (ends: seq<Endpoint>)
    ensures AllValid(ends, os) && Separate(ends) && fresh(Objects(ends))
    ensures Model(os, ends) == World(old(os.Model()), [Handle(Blocking, transport, NewCore(), 0)])
    ensures var core := Model(os, ends).handles[0].core;
            core.bound == None && |core.buf.store| == 2048 && core.opts == Opts(50, None)
  {
    var core := new Icmp4Core.FromSocket(os);
    if transport == Raw {
      var raw := new IcmpSocket4(core);
      ends := [RawEnd(raw)];
    } else {
      var dgram := new DgramIcmpSocket4(core, 0);
      ends := [DgramEnd(dgram)];
    }
  }

  /** What a handle owns after a command avoids anything it did not own before. */
  method PerformAvoiding(os: Socket4, e: Endpoint, c: Command, ghost avoid: set<object>)
    returns (e': Endpoint, outcome: Outcome, added: seq<Endpoint>)
    requires ValidEnd(e, os) && Repr(e) !! avoid
    modifies os, Repr(e)
    ensures ValidEnd(e', os) && fresh(Repr(e') - old(Repr(e))) && Repr(e') !! avoid
    ensures |added| <= 1
    ensures added != [] ==> ValidEnd(added[0], os) && fresh(Repr(added[0]))
    ensures added != [] ==> Repr(added[0]) !! Repr(e') && Repr(added[0]) !! avoid
    ensures Reaction(ModelOf(e', os), os.Model(), outcome, if added != [] then Some(ModelOf(added[0], os)) else None)
         == React(old(ModelOf(e, os)), old(os.Model()), c)
  {
    var clone;
    e', outcome, clone := Perform(os, e, c);
    added := Added(clone);
  }

  ghost function OthersOwn(ends: seq<Endpoint>, i: nat): set<object>
    requires i < |ends|
    reads *
  {
    set j, o | 0 <= j < |ends| && j != i && o in Repr(ends[j]) :: o
  }

  /** Runs a command on one handle's objects; every other handle keeps its objects and its value. */
  method Act(os: Socket4, ends: seq<Endpoint>, i: nat, c: Command)
    returns (e: Endpoint, outcome: Outcome, added: seq<Endpoint>)
    requires AllValid(ends, os) && Separate(ends) && i < |ends|
    modifies os, Repr(ends[i])
    ensures ValidEnd(e, os) && fresh(Repr(e) - old(Repr(ends[i])))
    ensures |added| <= 1
    ensures added != [] ==> ValidEnd(added[0], os) && fresh(Repr(added[0])) && Repr(added[0]) !! Repr(e)
    ensures Reaction(ModelOf(e, os), os.Model(), outcome, if added != [] then Some(ModelOf(added[0], os)) else None)
         == React(old(ModelOf(ends[i], os)), old(os.Model()), c)
    ensures forall j :: 0 <= j < |ends| && j != i ==>
              ValidEnd(ends[j], os) && Repr(ends[j]) == old(Repr(ends[j]))
              && ModelOf(ends[j], os) == old(ModelOf(ends[j], os))
    ensures Repr(e) !! old(OthersOwn(ends, i))
    ensures added != [] ==> Repr(added[0]) !! old(OthersOwn(ends, i))
  {
    ghost var reprs := seq(|ends|, j requires 0 <= j < |ends| reads * => Repr(ends[j]));
    e, outcome, added := PerformAvoiding(os, ends[i], c, OthersOwn(ends, i));
    forall j | 0 <= j < |ends| && j != i
      ensures ValidEnd(ends[j], os) && Repr(ends[j]) == old(Repr(ends[j]))
           && ModelOf(ends[j], os) == old(ModelOf(ends[j], os))
    {
      assert reprs[j] !! reprs[i];
    }
  }

  lemma InstalledModel(ends: seq<Endpoint>, i: nat, e: Endpoint, added: seq<Endpoint>, os: Socket4, before: seq<Handle>)
    requires i < |ends| == |before| && |added| <= 1
    requires AllValid(ends[i := e] + added, os) && ValidEnd(e, os) && (added != [] ==> ValidEnd(added[0], os))
    requires forall j :: 0 <= j < |ends| && j != i ==> ValidEnd(ends[j], os) && ModelOf(ends[j], os) == before[j]
    ensures Model(os, ends[i := e] + added)
         == World(os.Model(),
                  before[i := ModelOf(e, os)] + if added == [] then [] else [ModelOf(added[0], os)])
  {
  }

  /** The same, with what must hold of the handles once the result is installed. */
  method ActApart(os: Socket4, ends: seq<Endpoint>, i: nat, c: Command)
    returns (e: Endpoint, outcome: Outcome, added: seq<Endpoint>)
    requires AllValid(ends, os) && Separate(ends) && i < |ends|
    modifies os, Repr(ends[i])
    ensures ValidEnd(e, os) && fresh(Repr(e) - old(Repr(ends[i])))
    ensures |added| <= 1 && (added != [] ==> ValidEnd(added[0], os) && fresh(Repr(added[0])))
    ensures AllValid(ends[i := e] + added, os) && Separate(ends[i := e] + added)
    ensures Reaction(ModelOf(e, os), os.Model(), outcome, if added != [] then Some(ModelOf(added[0], os)) else None)
         == React(old(ModelOf(ends[i], os)), old(os.Model()), c)
    ensures forall j :: 0 <= j < |ends| && j != i ==>
              ValidEnd(ends[j], os) && Repr(ends[j]) == old(Repr(ends[j]))
              && ModelOf(ends[j], os) == old(ModelOf(ends[j], os))
  {
    ghost var reprs := seq(|ends|, j requires 0 <= j < |ends| reads * => Repr(ends[j]));
    ghost var others := OthersOwn(ends, i);
    assert forall j :: 0 <= j < |ends| && j != i ==> reprs[j] <= others;
    e, outcome, added := Act(os, ends, i, c);
    forall j, k | 0 <= j < |ends| && 0 <= k < |ends| && j != k && j != i && k != i
      ensures Repr(ends[j]) !! Repr(ends[k])
    {
      assert reprs[j] !! reprs[k];
    }
    Installed(ends, i, e, added, os);
  }

  method ActAndInstall(os: Socket4, ends: seq<Endpoint>, i: nat, c: Command)
    returns (e: Endpoint, outcome: Outcome, added: seq<Endpoint>)
    requires AllValid(ends, os) && Separate(ends) && i < |ends|
    modifies os, Repr(ends[i])
    ensures |added| <= 1
    ensures fresh(Repr(e) - old(Repr(ends[i]))) && (added != [] ==> fresh(Repr(added[0])))
    ensures AllValid(ends[i := e] + added, os) && Separate(ends[i := e] + added)
    ensures forall j :: 0 <= j < |ends| && j != i ==> Repr(ends[j]) == old(Repr(ends[j]))
    ensures var r := React(old(ModelOf(ends[i], os)), old(os.Model()), c);
            && outcome == r.outcome
            && Model(os, ends[i := e] + added)
            == World(r.os, old(Model(os, ends)).handles[i := r.handle] + Added(r.clone))
  {
    ghost var before := Model(os, ends).handles;
    e, outcome, added := ActApart(os, ends, i, c);
    InstalledModel(ends, i, e, added, os, before);
  }

  /** One call through the objects is one step of the value-level world. */
  method StepAll(os: Socket4, ends: seq<Endpoint>, call: Call<Command>) returns (ends': seq<Endpoint>, outcome: Outcome)
    requires AllValid(ends, os) && Separate(ends)
    modifies os, Objects(ends)
    ensures AllValid(ends', os) && Separate(ends') && fresh(Objects(ends') - old(Objects(ends)))
    ensures (Model(os, ends'), outcome) == Step(old(Model(os, ends)), call)
  {
    if call.on >= |ends| {
      return ends, Unavailable;
    }
    assert Repr(ends[call.on]) <= Objects(ends) by {
      assert ends[call.on] in ends;
    }
    var e, result, added := ActAndInstall(os, ends, call.on, call.command);
    ends', outcome := ends[call.on := e] + added, result;
  }

  /** Any calls, in any order, through any of the handles: the objects do what the values do. */
  method RunAll(os: Socket4, ends: seq<Endpoint>, calls: seq<Call<Command>>)
    returns (ends': seq<Endpoint>, outcomes: seq<Outcome>)
    requires AllValid(ends, os) && Separate(ends)
    modifies os, Objects(ends)
    ensures AllValid(ends', os) && Separate(ends') && fresh(Objects(ends') - old(Objects(ends)))
    ensures (Model(os, ends'), outcomes) == Run(old(Model(os, ends)), calls)
    decreases |calls|
  {
    if calls == [] {
      return ends, [];
    }
    var next, outcome := StepAll(os, ends, calls[0]);
    var rest;
    ends', rest := RunAll(os, next, calls[1..]);
    outcomes := [outcome] + rest;
  }
}
