/**
  Calls that overlap. A send writes the hop limit into the shared socket and hands the
  datagram over later: an async send once the socket is writable, a blocking one in its
  next system call. A blocking receive writes the read timeout and then waits. Whatever
  runs in between, through other handles on this thread or another, may write the same
  cell. `World4.React` is the case in which nothing does.
 */
module Interleaved4 {
  import opened Prelude
  import opened OsSockets
  import opened HandleSteps
  import opened Machines
  import opened World4
  import opened Runs4

  predicate Sends(c: Command) {
    c.SendPacket? || c.SendEcho?
  }

  predicate Receives(c: Command) {
    c.RcvFrom? || c.RcvFromWithMeta?
  }

  /** Calls that write an option of the shared socket and use it later. An async receive writes none. */
  predicate TwoPart(mode: Mode, c: Command) {
    Sends(c) || (Receives(c) && mode == Blocking)
  }

  function ImageFor(h: Handle, c: Command): Result<seq<Byte>, IoError>
    requires Sends(c)
  {
    if c.SendPacket? then Ok(PacketImage(c.packet)) else EchoImage(h.identifier, c.sequence, c.payload)
  }

  /** Up to and including the option write: the socket after it, and the result if the call ends there. */
  function Opening(h: Handle, os: Os4, c: Command): (Os4, Option<Outcome>)
    requires TwoPart(h.mode, c)
  {
    if !Offers(h.mode, h.transport, c) then (os, Some(Unavailable))
    else if Sends(c) then
      var image := ImageFor(h, c);
      if image.Err? then (os, Some(Failed(image.error)))
      else if !c.hopsAccepted then (os, Some(Failed(OsError(Refused))))
      else (os.(hops := h.core.opts.hops), None)
    else if !c.timeoutAccepted then (os, Some(Failed(OsError(Refused))))
    else (os.(readTimeout := h.core.opts.timeout), None)
  }

  /** The rest of the call, under whatever the socket's options are by then. */
  function Closing(h: Handle, os: Os4, c: Command): Reacted
    requires TwoPart(h.mode, c)
  {
    if Sends(c) then
      if ImageFor(h, c).Err? || !c.sendAccepted then Reaction(h, os, Failed(OsError(Refused)), None)
      else Reaction(h, os.(trace := os.trace + [Sent(c.dest, ImageFor(h, c).value, os.hops)]), Done, None)
    else
      var (buf, read) := if c.RcvFrom? then ReadChecked(h.core.buf, c.arrival)
                         else ReadMeta(h.core.buf, c.linux, c.arrival);
      var os1 := if os.nonblocking then os else os.(trace := os.trace + [Waited(os.readTimeout)]);
      Reaction(h.(core := h.core.(buf := buf)), os1, Parsed(read), None)
  }

  /** With nothing in between, the two parts are the whole call. */
  lemma PartsMakeWhole(h: Handle, os: Os4, c: Command)
    requires TwoPart(h.mode, c)
    ensures var (os1, ended) := Opening(h, os, c);
            React(h, os, c) == if ended.Some? then Reaction(h, os1, ended.value, None) else Closing(h, os1, c)
  {
    if c.SendPacket? {
      PacketParts(h, os, c);
    } else if c.SendEcho? {
      EchoParts(h, os, c);
    } else {
      ReceiveParts(h, os, c);
    }
  }

  lemma PacketParts(h: Handle, os: Os4, c: Command)
    requires c.SendPacket?
    ensures var (os1, ended) := Opening(h, os, c);
            React(h, os, c) == if ended.Some? then Reaction(h, os1, ended.value, None) else Closing(h, os1, c)
  {
  }

  lemma EchoParts(h: Handle, os: Os4, c: Command)
    requires c.SendEcho?
    ensures var (os1, ended) := Opening(h, os, c);
            React(h, os, c) == if ended.Some? then Reaction(h, os1, ended.value, None) else Closing(h, os1, c)
  {
  }

  lemma ReceiveParts(h: Handle, os: Os4, c: Command)
    requires Receives(c) && h.mode == Blocking
    ensures var (os1, ended) := Opening(h, os, c);
            React(h, os, c) == if ended.Some? then Reaction(h, os1, ended.value, None) else Closing(h, os1, c)
  {
  }

  // ---------------------------------------------------------------- programs

  /** A step of a program: a whole call, a part of one, or the dropping of a send's future. */
  datatype Action =
    | Whole(call: Call<Command>)
    | Begin(on: nat, command: Command)
    | Finish(on: nat)
    | Abandon(on: nat)

  /** A handle with a call under way is exclusively borrowed: it takes no other call. */
  datatype Program = Program(world: State, begun: map<nat, Command>)

  predicate Free(p: Program, i: nat) {
    i < |p.world.handles| && i !in p.begun
  }

  predicate UnderWay(p: Program, i: nat) {
    i in p.begun && i < |p.world.handles| && TwoPart(p.world.handles[i].mode, p.begun[i])
  }

  /** The result is None while a call is still under way, and for a future that was dropped. */
  function Act(p: Program, a: Action): (Program, Option<Outcome>) {
    match a
    case Whole(call) =>
      if !Free(p, call.on) then (p, Some(Unavailable)) else
      var (w, outcome) := Step(p.world, call);
      (p.(world := w), Some(outcome))
    case Begin(on, c) =>
      if !Free(p, on) || !TwoPart(p.world.handles[on].mode, c) then (p, Some(Unavailable)) else
      var (os, ended) := Opening(p.world.handles[on], p.world.os, c);
      (Program(p.world.(os := os), if ended.None? then p.begun[on := c] else p.begun), ended)
    case Finish(on) =>
      if !UnderWay(p, on) then (p, Some(Unavailable)) else
      var r := Closing(p.world.handles[on], p.world.os, p.begun[on]);
      (Program(World(r.os, p.world.handles[on := r.handle]), p.begun - {on}), Some(r.outcome))
    case Abandon(on) =>
      if !UnderWay(p, on) || p.world.handles[on].mode != Async then (p, Some(Unavailable))
      else (p.(begun := p.begun - {on}), None)
  }

  function Acts(p: Program, actions: seq<Action>): Program
    decreases |actions|
  {
    if actions == [] then p
    else Act(Acts(p, actions[..|actions| - 1]), actions[|actions| - 1]).0
  }

  /** A call begun and finished at once is that call. */
  lemma BegunAndFinished(p: Program, i: nat, c: Command)
    requires Free(p, i) && TwoPart(p.world.handles[i].mode, c)
    ensures var (begun, ended) := Act(p, Begin(i, c));
            Act(p, Whole(Call(i, c))) == if ended.Some? then (begun, ended) else Act(begun, Finish(i))
  {
    PartsMakeWhole(p.world.handles[i], p.world.os, c);
    var (os, ended) := Opening(p.world.handles[i], p.world.os, c);
    var r := React(p.world.handles[i], p.world.os, c);
    assert r.clone == None;
    assert p.world.handles[i := r.handle] + Added(r.clone) == p.world.handles[i := r.handle];
    if ended.None? {
      assert p.begun[i := c] - {i} == p.begun;
    } else {
      assert p.world.handles[i := r.handle] == p.world.handles;
    }
  }

  // ---------------------------------------------------------------- who writes the shared cells

  /** The handle and command an action starts, as a whole or in part. */
  function Started(p: Program, a: Action): Option<(Handle, Command)> {
    match a
    case Whole(call) => if Free(p, call.on) then Some((p.world.handles[call.on], call.command)) else None
    case Begin(on, c) =>
      if Free(p, on) && TwoPart(p.world.handles[on].mode, c) then Some((p.world.handles[on], c)) else None
    case Finish(_) => None
    case Abandon(_) => None
  }

  /** A send that gets as far as the hop limit writes its own handle's. */
  function HopsOf(h: Handle, c: Command): Option<U32> {
    if Sends(c) && Offers(h.mode, h.transport, c) && ImageFor(h, c).Ok? && c.hopsAccepted then Some(h.core.opts.hops)
    else None
  }

  /** A blocking receive that gets as far as the timeout writes its own handle's. */
  function TimeoutOf(h: Handle, c: Command): Option<Option<Duration>> {
    if Receives(c) && h.mode == Blocking && c.timeoutAccepted then Some(h.core.opts.timeout) else None
  }

  predicate Switching(h: Handle, c: Command) {
    c.IntoAsync? && h.mode == Blocking && c.switched
  }

  function HopsWritten(p: Program, a: Action): Option<U32> {
    var s := Started(p, a);
    if s.Some? then HopsOf(s.value.0, s.value.1) else None
  }

  function TimeoutWritten(p: Program, a: Action): Option<Option<Duration>> {
    var s := Started(p, a);
    if s.Some? then TimeoutOf(s.value.0, s.value.1) else None
  }

  predicate SwitchMade(p: Program, a: Action) {
    var s := Started(p, a);
    s.Some? && Switching(s.value.0, s.value.1)
  }

  function Or<V>(written: Option<V>, otherwise: V): V {
    if written.Some? then written.value else otherwise
  }

  predicate CellsWritten(h: Handle, c: Command, before: Os4, after: Os4) {
    && after.hops == Or(HopsOf(h, c), before.hops)
    && after.readTimeout == Or(TimeoutOf(h, c), before.readTimeout)
    && after.nonblocking == (before.nonblocking || Switching(h, c))
  }

  lemma CellsReact(h: Handle, os: Os4, c: Command)
    ensures CellsWritten(h, c, os, React(h, os, c).os)
  {
    if TwoPart(h.mode, c) {
      PartsMakeWhole(h, os, c);
    } else {
      CellsKept(h, os, c);
    }
  }

  lemma CellsKept(h: Handle, os: Os4, c: Command)
    requires !TwoPart(h.mode, c)
    ensures CellsWritten(h, c, os, React(h, os, c).os)
  {
  }

  lemma CellsOpening(h: Handle, os: Os4, c: Command)
    requires TwoPart(h.mode, c)
    ensures CellsWritten(h, c, os, Opening(h, os, c).0)
  {
  }

  lemma CellsAct(p: Program, a: Action)
    ensures var os := Act(p, a).0.world.os;
            && os.hops == Or(HopsWritten(p, a), p.world.os.hops)
            && os.readTimeout == Or(TimeoutWritten(p, a), p.world.os.readTimeout)
            && os.nonblocking == (p.world.os.nonblocking || SwitchMade(p, a))
  {
    var started := Started(p, a);
    if a.Whole? && started.Some? {
      CellsReact(started.value.0, p.world.os, started.value.1);
    } else if a.Begin? && started.Some? {
      CellsOpening(started.value.0, p.world.os, started.value.1);
    }
  }

  /** The last value the actions write, if they write any. */
  function LastWritten<V>(written: (Program, Action) -> Option<V>, p: Program, actions: seq<Action>): Option<V>
    decreases |actions|
  {
    if actions == [] then None else
    var before, last := actions[..|actions| - 1], actions[|actions| - 1];
    var w := written(Acts(p, before), last);
    if w.Some? then w else LastWritten(written, p, before)
  }

  predicate SwitchedDuring(p: Program, actions: seq<Action>)
    decreases |actions|
  {
    actions != []
    && var before, last := actions[..|actions| - 1], actions[|actions| - 1];
       SwitchMade(Acts(p, before), last) || SwitchedDuring(p, before)
  }

  /** After any actions each option cell holds what was written last. */
  lemma {:induction false} CellsHoldLastWritten(p: Program, actions: seq<Action>)
    ensures var os := Acts(p, actions).world.os;
            && os.hops == Or(LastWritten(HopsWritten, p, actions), p.world.os.hops)
            && os.readTimeout == Or(LastWritten(TimeoutWritten, p, actions), p.world.os.readTimeout)
            && os.nonblocking == (p.world.os.nonblocking || SwitchedDuring(p, actions))
    decreases |actions|
  {
    if actions != [] {
      var before, last := actions[..|actions| - 1], actions[|actions| - 1];
      CellsHoldLastWritten(p, before);
      CellsAct(Acts(p, before), last);
    }
  }

  // ---------------------------------------------------------------- a call under way

  /** The actions that do not end the call handle i has under way. */
  predicate LeavesUnderWay(a: Action, i: nat) {
    a != Finish(i) && a != Abandon(i)
  }

  lemma BorrowedAct(p: Program, a: Action, i: nat)
    requires UnderWay(p, i) && LeavesUnderWay(a, i)
    ensures var q := Act(p, a).0;
            && UnderWay(q, i) && q.begun[i] == p.begun[i]
            && q.world.handles[i] == p.world.handles[i]
  {
  }

  /** While a call is under way its handle keeps everything it owns, whatever else runs. */
  lemma {:induction false} BorrowedThroughout(p: Program, actions: seq<Action>, i: nat)
    requires UnderWay(p, i)
    requires forall k :: 0 <= k < |actions| ==> LeavesUnderWay(actions[k], i)
    ensures var q := Acts(p, actions);
            && UnderWay(q, i) && q.begun[i] == p.begun[i]
            && q.world.handles[i] == p.world.handles[i]
    decreases |actions|
  {
    if actions != [] {
      var before := actions[..|actions| - 1];
      BorrowedThroughout(p, before, i);
      BorrowedAct(Acts(p, before), actions[|actions| - 1], i);
    }
  }

  lemma SendBegun(p: Program, i: nat, send: Command)
    requires Sends(send) && Act(p, Begin(i, send)).1.None?
    ensures var begun := Act(p, Begin(i, send)).0;
            && Free(p, i) && UnderWay(begun, i) && begun.begun[i] == send && ImageFor(p.world.handles[i], send).Ok?
            && begun.world.handles == p.world.handles
            && begun.world.os.hops == p.world.handles[i].core.opts.hops
  {
  }

  lemma SendFinished(q: Program, i: nat)
    requires UnderWay(q, i) && Sends(q.begun[i]) && q.begun[i].sendAccepted
    requires ImageFor(q.world.handles[i], q.begun[i]).Ok?
    ensures var send := q.begun[i];
            var (after, outcome) := Act(q, Finish(i));
            && outcome == Some(Done)
            && after.world.os.trace
            == q.world.os.trace + [Sent(send.dest, ImageFor(q.world.handles[i], send).value, q.world.os.hops)]
  {
  }

  lemma ReceiveBegun(p: Program, i: nat, c: Command)
    requires Receives(c) && Act(p, Begin(i, c)).1.None?
    ensures var begun := Act(p, Begin(i, c)).0;
            && Free(p, i) && UnderWay(begun, i) && begun.begun[i] == c
            && begun.world.handles == p.world.handles
            && begun.world.os.readTimeout == p.world.handles[i].core.opts.timeout
            && begun.world.os.nonblocking == p.world.os.nonblocking
  {
  }

  lemma ReceiveFinished(q: Program, i: nat)
    requires UnderWay(q, i) && Receives(q.begun[i])
    ensures var (after, outcome) := Act(q, Finish(i));
            && outcome == Some(MeantReceive(q.begun[i], |q.world.handles[i].core.buf.store|))
            && after.world.os.trace
            == q.world.os.trace + if q.world.os.nonblocking then [] else [Waited(q.world.os.readTimeout)]
  {
    var c := q.begun[i];
    ReadsDeliver(q.world.handles[i].core.buf, c.RcvFromWithMeta? && c.linux, c.arrival);
  }

  /**
    The datagram leaves under the limit written last: the sender's own unless, since the
    call began, some other send wrote one. It leaves under its own limit exactly if that
    last one is the same.
   */
  lemma SentUnderLastLimit(p: Program, i: nat, send: Command, actions: seq<Action>)
    requires Sends(send) && send.sendAccepted
    requires Act(p, Begin(i, send)).1.None?
    requires forall k :: 0 <= k < |actions| ==> LeavesUnderWay(actions[k], i)
    ensures var begun := Act(p, Begin(i, send)).0;
            var before := Acts(begun, actions);
            var (after, outcome) := Act(before, Finish(i));
            var limit := Or(LastWritten(HopsWritten, begun, actions), p.world.handles[i].core.opts.hops);
            && outcome == Some(Done)
            && after.world.os.trace
            == before.world.os.trace + [Sent(send.dest, ImageOf(p.world.handles[i], send), limit)]
  {
    var begun := Act(p, Begin(i, send)).0;
    SendBegun(p, i, send);
    BorrowedThroughout(begun, actions, i);
    CellsHoldLastWritten(begun, actions);
    SendFinished(Acts(begun, actions), i);
  }

  /**
    A blocking receive answers from its datagram and its own buffer size whatever runs
    since it wrote its timeout. It waits exactly if the socket has not been switched by
    then, and under the timeout written last.
   */
  lemma WaitsUnderLastTimeout(p: Program, i: nat, c: Command, actions: seq<Action>)
    requires Receives(c)
    requires Act(p, Begin(i, c)).1.None?
    requires forall k :: 0 <= k < |actions| ==> LeavesUnderWay(actions[k], i)
    ensures var begun := Act(p, Begin(i, c)).0;
            var before := Acts(begun, actions);
            var (after, outcome) := Act(before, Finish(i));
            var own := SettingsOf(p.world.handles[i].core);
            && outcome == Some(MeantReceive(c, own.size))
            && after.world.os.trace == before.world.os.trace +
                 if p.world.os.nonblocking || SwitchedDuring(begun, actions) then []
                 else [Waited(Or(LastWritten(TimeoutWritten, begun, actions), own.opts.timeout))]
  {
    var begun := Act(p, Begin(i, c)).0;
    ReceiveBegun(p, i, c);
    BorrowedThroughout(begun, actions, i);
    CellsHoldLastWritten(begun, actions);
    ReceiveFinished(Acts(begun, actions), i);
  }

  /** It does happen: a send by another handle while this one is under way lends it that handle's limit. */
  lemma OthersLimitUsed(p: Program, i: nat, send: Command, j: nat, other: Command)
    requires Sends(send) && send.sendAccepted && Act(p, Begin(i, send)).1.None?
    requires j != i && Sends(other) && Act(p, Begin(j, other)).1.None?
    ensures var begun := Act(p, Begin(i, send)).0;
            var before := Act(begun, Whole(Call(j, other))).0;
            var sent := Sent(send.dest, ImageOf(p.world.handles[i], send), p.world.handles[j].core.opts.hops);
            Act(before, Finish(i)).0.world.os.trace == before.world.os.trace + [sent]
  {
    var begun := Act(p, Begin(i, send)).0;
    var actions := [Whole(Call(j, other))];
    assert actions[..0] == [];
    SendWrites(p, j, other, begun);
    SendBegun(p, i, send);
    SentUnderLastLimit(p, i, send, actions);
    assert Acts(begun, actions) == Act(begun, actions[0]).0;
    assert LastWritten(HopsWritten, begun, actions) == HopsWritten(begun, actions[0]);
  }

  lemma SendWrites(p: Program, j: nat, other: Command, begun: Program)
    requires Sends(other) && Act(p, Begin(j, other)).1.None?
    requires begun.world.handles == p.world.handles && j !in begun.begun
    ensures HopsWritten(begun, Whole(Call(j, other))) == Some(p.world.handles[j].core.opts.hops)
  {
  }
}
