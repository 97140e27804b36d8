/**
  A program's ICMPv6 handles as objects: each owns its buffer, all share one socket object.
  Running any calls through the objects is running the value-level world.
 */
module Fleet6 {
  import opened Prelude
  import opened HandleSteps
  import opened Machines
  import opened World6
  import opened Sockets6

  /** The objects a handle owns; the shared socket is not among them. */
  ghost function Repr(s: IcmpSocket6): set<object>
    reads s.buf
  {
    {s, s.buf, s.buf.data}
  }

  ghost predicate ValidEnd(s: IcmpSocket6, os: Socket6)
    reads s.buf
  {
    s.Valid() && s.inner == os
  }

  method CloneOf(s: IcmpSocket6, dupAccepted: bool) returns (outcome: Outcome, added: seq<IcmpSocket6>)
    requires s.Valid()
    ensures |added| <= 1
    ensures added != [] ==> ValidEnd(added[0], s.inner) && fresh(Repr(added[0]))
    ensures Reaction(s.Model(), s.inner.Model(), outcome, if added != [] then Some(added[0].Model()) else None)
         == React(s.Model(), s.inner.Model(), TryClone(dupAccepted))
  {
    var copy := s.TryClone(dupAccepted);
    match copy {
      case Err(e) => outcome, added := Failed(e), [];
      case Ok(clone) => outcome, added := Done, [clone];
    }
  }

  predicate Configures(c: Command) {
    c.SetReadBufferSize? || c.SetMaxHops? || c.SetTimeout?
  }

  method Configure(s: IcmpSocket6, c: Command)
    requires s.Valid() && Configures(c)
    modifies s, s.buf, s.buf.data
    ensures s.Valid() && (s.buf.data == old(s.buf.data) || fresh(s.buf.data))
    ensures Reaction(s.Model(), s.inner.Model(), Done, None) == React(old(s.Model()), old(s.inner.Model()), c)
  {
    match c {
      case SetReadBufferSize(size) => s.SetReadBufferSize(size);
      case SetMaxHops(hops) => s.opts := s.opts.(hops := hops);
      case SetTimeout(timeout) => s.opts := s.opts.(timeout := timeout);
    }
  }

  /** Every call but cloning: the handle stays where it is and at most replaces its allocation. */
  method PerformOwn(s: IcmpSocket6, c: Command) returns (outcome: Outcome)
    requires s.Valid() && !c.TryClone?
    modifies s.inner, s, s.buf, s.buf.data
    ensures s.Valid() && (s.buf.data == old(s.buf.data) || fresh(s.buf.data))
    ensures Reaction(s.Model(), s.inner.Model(), outcome, None) == React(old(s.Model()), old(s.inner.Model()), c)
  {
    if Configures(c) {
      Configure(s, c);
      return Done;
    }
    match c {
      case Bind(addr, granted) => outcome := s.Bind(addr, granted);
      case SendTo(dest, packet, hopsAccepted, sendAccepted) =>
        outcome := s.SendTo(dest, packet, hopsAccepted, sendAccepted);
      case RcvFrom(timeoutAccepted, arrival) => outcome := s.RcvFrom(timeoutAccepted, arrival);
      case RcvFromWithMeta(linux, timeoutAccepted, arrival) =>
        outcome := s.RcvFromWithMeta(linux, timeoutAccepted, arrival);
      case SetAllowedTypes(allowed, filterAccepted) => outcome := s.SetAllowedTypes(allowed, filterAccepted);
      case ClearTypeFilter(filterAccepted) => outcome := s.ClearTypeFilter(filterAccepted);
    }
  }

  /** A clone owns only new objects. */
  method Perform(os: Socket6, s: IcmpSocket6, c: Command) returns (outcome: Outcome, added: seq<IcmpSocket6>)
    requires ValidEnd(s, os)
    modifies os, Repr(s)
    ensures ValidEnd(s, os) && fresh(Repr(s) - old(Repr(s)))
    ensures |added| <= 1
    ensures added != [] ==> ValidEnd(added[0], os) && fresh(Repr(added[0])) && Repr(added[0]) !! Repr(s)
    ensures Reaction(s.Model(), os.Model(), outcome, if added != [] then Some(added[0].Model()) else None)
         == React(old(s.Model()), old(os.Model()), c)
  {
    if c.TryClone? {
      outcome, added := CloneOf(s, c.dupAccepted);
    } else {
      added := [];
      outcome := PerformOwn(s, c);
    }
  }

  // ---------------------------------------------------------------- all handles of a program

  ghost predicate AllValid(ends: seq<IcmpSocket6>, os: Socket6)
    reads *
  {
    forall i :: 0 <= i < |ends| ==> ValidEnd(ends[i], os)
  }

  ghost predicate Separate(ends: seq<IcmpSocket6>)
    reads *
  {
    forall i, j :: 0 <= i < |ends| && 0 <= j < |ends| && i != j ==> Repr(ends[i]) !! Repr(ends[j])
  }

  ghost function Objects(ends: seq<IcmpSocket6>): set<object>
    reads *
  {
    set s, o | s in ends && o in Repr(s) :: o
  }

  ghost function Model(os: Socket6, ends: seq<IcmpSocket6>): (w: State)
    requires AllValid(ends, os)
    reads *
    ensures |w.handles| == |ends| && w.os == os.Model()
    ensures forall i :: 0 <= i < |ends| ==> w.handles[i] == ends[i].Model()
  {
    World(os.Model(), seq(|ends|, i requires 0 <= i < |ends| && ends[i].Valid() reads * => ends[i].Model()))
  }

  /** `IcmpSocket6::new` on a newly opened socket. */
  method Open(os: Socket6) returns (ends: seq<IcmpSocket6>)
    ensures AllValid(ends, os) && Separate(ends) && fresh(Objects(ends))
    ensures Model(os, ends) == World(old(os.Model()), [NewCore()])
    ensures var h := Model(os, ends).handles[0];
            h.bound == None && |h.buf.store| == 2048 && h.opts == Opts(50, None)
  {
    var s := new IcmpSocket6.NewFromSocket(os);
    ends := [s];
  }

  ghost function OthersOwn(ends: seq<IcmpSocket6>, i: nat): set<object>
    requires i < |ends|
    reads *
  {
    set j, o | 0 <= j < |ends| && j != i && o in Repr(ends[j]) :: o
  }

  method PerformAvoiding(os: Socket6, s: IcmpSocket6, c: Command, ghost avoid: set<object>)
    returns (outcome: Outcome, added: seq<IcmpSocket6>)
    requires ValidEnd(s, os) && Repr(s) !! avoid
    modifies os, Repr(s)
    ensures ValidEnd(s, os) && fresh(Repr(s) - old(Repr(s))) && Repr(s) !! avoid
    ensures |added| <= 1
    ensures added != [] ==> ValidEnd(added[0], os) && fresh(Repr(added[0]))
    ensures added != [] ==> Repr(added[0]) !! Repr(s) && Repr(added[0]) !! avoid
    ensures Reaction(s.Model(), os.Model(), outcome, if added != [] then Some(added[0].Model()) else None)
         == React(old(s.Model()), old(os.Model()), c)
  {
    outcome, added := Perform(os, s, c);
  }

  /** Runs a command on one handle; every other handle keeps its objects and its value. */
  method Act(os: Socket6, ends: seq<IcmpSocket6>, i: nat, c: Command)
    returns (outcome: Outcome, added: seq<IcmpSocket6>)
    requires AllValid(ends, os) && Separate(ends) && i < |ends|
    modifies os, Repr(ends[i])
    ensures AllValid(ends, os) && fresh(Repr(ends[i]) - old(Repr(ends[i])))
    ensures |added| <= 1 && (added != [] ==> ValidEnd(added[0], os) && fresh(Repr(added[0])))
    ensures Reaction(ends[i].Model(), os.Model(), outcome, if added != [] then Some(added[0].Model()) else None)
         == React(old(ends[i].Model()), old(os.Model()), c)
    ensures forall j :: 0 <= j < |ends| && j != i ==>
              Repr(ends[j]) == old(Repr(ends[j])) && ends[j].Model() == old(ends[j].Model())
    ensures Repr(ends[i]) !! old(OthersOwn(ends, i))
    ensures added != [] ==> Repr(added[0]) !! Repr(ends[i]) && Repr(added[0]) !! old(OthersOwn(ends, i))
  {
    ghost var reprs := seq(|ends|, j requires 0 <= j < |ends| reads * => Repr(ends[j]));
    outcome, added := PerformAvoiding(os, ends[i], c, OthersOwn(ends, i));
    forall j | 0 <= j < |ends| && j != i
      ensures ValidEnd(ends[j], os) && Repr(ends[j]) == old(Repr(ends[j]))
           && ends[j].Model() == old(ends[j].Model())
    {
      assert reprs[j] !! reprs[i];
    }
  }

  /** The same, and all handles own different objects afterwards. */
  method ActApart(os: Socket6, ends: seq<IcmpSocket6>, i: nat, c: Command)
    returns (outcome: Outcome, added: seq<IcmpSocket6>)
    requires AllValid(ends, os) && Separate(ends) && i < |ends|
    modifies os, Repr(ends[i])
    ensures AllValid(ends, os) && fresh(Repr(ends[i]) - old(Repr(ends[i])))
    ensures |added| <= 1 && (added != [] ==> ValidEnd(added[0], os) && fresh(Repr(added[0])))
    ensures Reaction(ends[i].Model(), os.Model(), outcome, if added != [] then Some(added[0].Model()) else None)
         == React(old(ends[i].Model()), old(os.Model()), c)
    ensures forall j :: 0 <= j < |ends| && j != i ==>
              Repr(ends[j]) == old(Repr(ends[j])) && ends[j].Model() == old(ends[j].Model())
    ensures AllValid(ends + added, os) && Separate(ends + added)
  {
    ghost var reprs := seq(|ends|, j requires 0 <= j < |ends| reads * => Repr(ends[j]));
    ghost var others := OthersOwn(ends, i);
    assert forall j :: 0 <= j < |ends| && j != i ==> reprs[j] <= others;
    outcome, added := Act(os, ends, i, c);
    Apart(ends, i, added, reprs, others);
  }

  lemma Apart(
    ends: seq<IcmpSocket6>, i: nat, added: seq<IcmpSocket6>, reprs: seq<set<object>>, others: set<object>)
    requires i < |ends| == |reprs| && |added| <= 1
    requires forall j, k :: 0 <= j < |ends| && 0 <= k < |ends| && j != k ==> reprs[j] !! reprs[k]
    requires forall j :: 0 <= j < |ends| && j != i ==> Repr(ends[j]) == reprs[j] <= others
    requires Repr(ends[i]) !! others
    requires added != [] ==> Repr(added[0]) !! Repr(ends[i]) && Repr(added[0]) !! others
    ensures Separate(ends + added)
  {
    var next := ends + added;
    forall j, k | 0 <= j < |next| && 0 <= k < |next| && j != k
      ensures Repr(next[j]) !! Repr(next[k])
    {
      assert j != i && j < |ends| ==> Repr(next[j]) == reprs[j] <= others;
      assert k != i && k < |ends| ==> Repr(next[k]) == reprs[k] <= others;
    }
  }

  /** One call through the objects is one step of the value-level world. */
  method StepAll(os: Socket6, ends: seq<IcmpSocket6>, call: Call<Command>)
    returns (ends': seq<IcmpSocket6>, outcome: Outcome)
    requires AllValid(ends, os) && Separate(ends)
    modifies os, Objects(ends)
    ensures AllValid(ends', os) && Separate(ends') && fresh(Objects(ends') - old(Objects(ends)))
    ensures (Model(os, ends'), outcome) == Step(old(Model(os, ends)), call)
  {
    if call.on >= |ends| {
      return ends, Unavailable;
    }
    assert Repr(ends[call.on]) <= Objects(ends) by {
      assert ends[call.on] in ends;
    }
    ghost var before := Model(os, ends);
    var result, added := ActApart(os, ends, call.on, call.command);
    ends', outcome := ends + added, result;
    assert Model(os, ends').handles == before.handles[call.on := ends[call.on].Model()]
                                     + if added == [] then [] else [added[0].Model()];
  }

  /** Any calls, in any order, through any of the handles: the objects do what the values do. */
  method RunAll(os: Socket6, ends: seq<IcmpSocket6>, calls: seq<Call<Command>>)
    returns (ends': seq<IcmpSocket6>, outcomes: seq<Outcome>)
    requires AllValid(ends, os) && Separate(ends)
    modifies os, Objects(ends)
    ensures AllValid(ends', os) && Separate(ends') && fresh(Objects(ends') - old(Objects(ends)))
    ensures (Model(os, ends'), outcomes) == Run(old(Model(os, ends)), calls)
    decreases |calls|
  {
    if calls == [] {
      return ends, [];
    }
    var next, outcome := StepAll(os, ends, calls[0]);
    var rest;
    ends', rest := RunAll(os, next, calls[1..]);
    outcomes := [outcome] + rest;
  }
}
