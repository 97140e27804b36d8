/**
  Several handles over one shared state, and runs of calls on them. A rule says how one
  handle reacts to one command; the worlds of both packet versions, and the ideals they
  meet, are rules.
 */
module Machines {
  import opened Prelude

  /** A command addressed to one handle. */
  datatype Call<C> = Call(on: nat, command: C)

  datatype World<O, H> = World(os: O, handles: seq<H>)

  datatype Reaction<O, H, R> = Reaction(handle: H, os: O, outcome: R, clone: Option<H>)

  type Rule<!O, !H, !C, !R> = (H, O, C) -> Reaction<O, H, R>

  function Added<H>(clone: Option<H>): (added: seq<H>)
    ensures |added| <= 1 && (added == [] <==> clone.None?)
  {
    if clone.Some? then [clone.value] else []
  }

  /** One call; a handle that does not exist answers `missing`. */
  function StepBy<O, H, C, R>(rule: Rule<O, H, C, R>, missing: R, w: World<O, H>, call: Call<C>): (r: (World<O, H>, R))
    ensures |r.0.handles| >= |w.handles|
  {
    if call.on >= |w.handles| then (w, missing) else
    var r := rule(w.handles[call.on], w.os, call.command);
    (World(r.os, w.handles[call.on := r.handle] + Added(r.clone)), r.outcome)
  }

  function RunBy<O, H, C, R>(rule: Rule<O, H, C, R>, missing: R, w: World<O, H>, calls: seq<Call<C>>)
    : (r: (World<O, H>, seq<R>))
    ensures |r.1| == |calls|
    ensures |r.0.handles| >= |w.handles|
    decreases |calls|
  {
    if calls == [] then (w, []) else
    var (w', outcome) := StepBy(rule, missing, w, calls[0]);
    var (final, outcomes) := RunBy(rule, missing, w', calls[1..]);
    (final, [outcome] + outcomes)
  }

  // ---------------------------------------------------------------- one rule meeting another

  ghost function Image<A, B>(f: A -> B, xs: seq<A>): (ys: seq<B>)
    ensures |ys| == |xs|
    ensures forall i :: 0 <= i < |xs| ==> ys[i] == f(xs[i])
  {
    seq(|xs|, i requires 0 <= i < |xs| => f(xs[i]))
  }

  ghost function ImageWorld<O, H, P, I>(onOs: O -> P, onHandle: H -> I, w: World<O, H>): World<P, I> {
    World(onOs(w.os), Image(onHandle, w.handles))
  }

  ghost function ImageReaction<O, H, P, I, R>(onOs: O -> P, onHandle: H -> I, r: Reaction<O, H, R>): Reaction<P, I, R> {
    Reaction(onHandle(r.handle), onOs(r.os), r.outcome,
             if r.clone.Some? then Some(onHandle(r.clone.value)) else None)
  }

  /** The first rule, seen through the two maps, is the second. */
  ghost predicate Meets<O(!new), H(!new), P, I, C(!new), R>(
    rule: Rule<O, H, C, R>, ideal: Rule<P, I, C, R>, onOs: O -> P, onHandle: H -> I)
  {
    forall h: H, o: O, c: C :: ideal(onHandle(h), onOs(o), c) == ImageReaction(onOs, onHandle, rule(h, o, c))
  }

  lemma ImageUpdate<A, B>(f: A -> B, xs: seq<A>, i: nat, x: A, added: seq<A>)
    requires i < |xs|
    ensures Image(f, xs[i := x] + added) == Image(f, xs)[i := f(x)] + Image(f, added)
  {
  }

  lemma StepMeets<O(!new), H(!new), P, I, C(!new), R>(
    rule: Rule<O, H, C, R>, ideal: Rule<P, I, C, R>, onOs: O -> P, onHandle: H -> I, missing: R,
    w: World<O, H>, call: Call<C>)
    requires Meets(rule, ideal, onOs, onHandle)
    ensures var (w', outcome) := StepBy(rule, missing, w, call);
            StepBy(ideal, missing, ImageWorld(onOs, onHandle, w), call) == (ImageWorld(onOs, onHandle, w'), outcome)
  {
    if call.on < |w.handles| {
      var r := rule(w.handles[call.on], w.os, call.command);
      var s := ideal(onHandle(w.handles[call.on]), onOs(w.os), call.command);
      assert s == ImageReaction(onOs, onHandle, r);
      assert Image(onHandle, Added(r.clone)) == Added(s.clone);
      ImageUpdate(onHandle, w.handles, call.on, r.handle, Added(r.clone));
    }
  }

  lemma {:induction false} RunMeets<O(!new), H(!new), P, I, C(!new), R>(
    rule: Rule<O, H, C, R>, ideal: Rule<P, I, C, R>, onOs: O -> P, onHandle: H -> I, missing: R,
    w: World<O, H>, calls: seq<Call<C>>)
    requires Meets(rule, ideal, onOs, onHandle)
    ensures var (w', outcomes) := RunBy(rule, missing, w, calls);
            RunBy(ideal, missing, ImageWorld(onOs, onHandle, w), calls) == (ImageWorld(onOs, onHandle, w'), outcomes)
    decreases |calls|
  {
    if calls != [] {
      StepMeets(rule, ideal, onOs, onHandle, missing, w, calls[0]);
      RunMeets(rule, ideal, onOs, onHandle, missing, StepBy(rule, missing, w, calls[0]).0, calls[1..]);
    }
  }

  // ---------------------------------------------------------------- equal handles

  function AllOn<C>(i: nat, cs: seq<C>): (calls: seq<Call<C>>)
    ensures |calls| == |cs|
    ensures forall k :: 0 <= k < |cs| ==> calls[k] == Call(i, cs[k])
  {
    seq(|cs|, k requires 0 <= k < |cs| => Call(i, cs[k]))
  }

  lemma {:induction false} EqualHandlesRunAlike<O, H, C, R>(
    rule: Rule<O, H, C, R>, missing: R, v: World<O, H>, w: World<O, H>, i: nat, j: nat, cs: seq<C>)
    requires i < |v.handles| && j < |w.handles|
    requires v.handles[i] == w.handles[j] && v.os == w.os
    ensures RunBy(rule, missing, v, AllOn(i, cs)).1 == RunBy(rule, missing, w, AllOn(j, cs)).1
    ensures RunBy(rule, missing, v, AllOn(i, cs)).0.os == RunBy(rule, missing, w, AllOn(j, cs)).0.os
    decreases |cs|
  {
    if cs != [] {
      assert AllOn(i, cs)[1..] == AllOn(i, cs[1..]);
      assert AllOn(j, cs)[1..] == AllOn(j, cs[1..]);
      EqualHandlesRunAlike(rule, missing, StepBy(rule, missing, v, Call(i, cs[0])).0,
                           StepBy(rule, missing, w, Call(j, cs[0])).0, i, j, cs[1..]);
    }
  }

  // ---------------------------------------------------------------- what a handle keeps to itself

  /** A value carried through a run by the commands addressed to handle i, and nothing else. */
  function Own<S, C>(f: (S, C) -> S, start: S, i: nat, calls: seq<Call<C>>): S
    decreases |calls|
  {
    if calls == [] then start
    else Own(f, if calls[0].on == i then f(start, calls[0].command) else start, i, calls[1..])
  }

  /** A view of a handle that each reaction moves by the command alone is the handle's own over every run. */
  lemma {:induction false} OwnOverRuns<O(!new), H(!new), C(!new), R, S>(
    rule: Rule<O, H, C, R>, missing: R, view: H -> S, f: (S, C) -> S, w: World<O, H>, calls: seq<Call<C>>, i: nat)
    requires forall h: H, o: O, c: C :: view(rule(h, o, c).handle) == f(view(h), c)
    requires i < |w.handles|
    ensures view(RunBy(rule, missing, w, calls).0.handles[i]) == Own(f, view(w.handles[i]), i, calls)
    decreases |calls|
  {
    if calls != [] {
      var w' := StepBy(rule, missing, w, calls[0]).0;
      if calls[0].on != i {
        assert w'.handles[i] == w.handles[i];
      }
      OwnOverRuns(rule, missing, view, f, w', calls[1..], i);
    }
  }

  // ---------------------------------------------------------------- what the shared state remembers

  /** A value carried through a run by each command and its outcome. */
  ghost function Carried<S, C, R>(f: (S, C, R) -> S, start: S, calls: seq<Call<C>>, outcomes: seq<R>): S
    requires |calls| == |outcomes|
    decreases |calls|
  {
    if calls == [] then start
    else Carried(f, f(start, calls[0].command, outcomes[0]), calls[1..], outcomes[1..])
  }

  /** What each reaction does to an observation of the shared state, runs do call by call. */
  lemma {:induction false} ObservedOverRuns<O(!new), H(!new), C(!new), R, S(!new)>(
    rule: Rule<O, H, C, R>, missing: R, observe: O -> S, f: (S, C, R) -> S, w: World<O, H>, calls: seq<Call<C>>)
    requires forall h: H, o: O, c: C :: observe(rule(h, o, c).os) == f(observe(o), c, rule(h, o, c).outcome)
    requires forall s: S, c: C :: f(s, c, missing) == s
    ensures observe(RunBy(rule, missing, w, calls).0.os)
         == Carried(f, observe(w.os), calls, RunBy(rule, missing, w, calls).1)
    decreases |calls|
  {
    if calls != [] {
      var (w', outcome) := StepBy(rule, missing, w, calls[0]);
      ObservedOverRuns(rule, missing, observe, f, w', calls[1..]);
      assert RunBy(rule, missing, w, calls).1[1..] == RunBy(rule, missing, w', calls[1..]).1;
    }
  }

  ghost predicate Happened<C, R>(hit: (C, R) -> bool, calls: seq<Call<C>>, outcomes: seq<R>)
    requires |calls| == |outcomes|
  {
    exists k :: 0 <= k < |calls| && hit(calls[k].command, outcomes[k])
  }

  /** A fact about the shared state that only certain calls bring about, and none undoes. */
  lemma {:induction false} HappenedOverRuns<O(!new), H(!new), C(!new), R>(
    rule: Rule<O, H, C, R>, missing: R, fact: O -> bool, hit: (C, R) -> bool, w: World<O, H>, calls: seq<Call<C>>)
    requires forall h: H, o: O, c: C :: fact(rule(h, o, c).os) == (fact(o) || hit(c, rule(h, o, c).outcome))
    requires forall c: C :: !hit(c, missing)
    ensures fact(RunBy(rule, missing, w, calls).0.os)
         == (fact(w.os) || Happened(hit, calls, RunBy(rule, missing, w, calls).1))
    decreases |calls|
  {
    if calls != [] {
      var (w', outcome) := StepBy(rule, missing, w, calls[0]);
      HappenedOverRuns(rule, missing, fact, hit, w', calls[1..]);
      var outcomes := RunBy(rule, missing, w, calls).1;
      assert outcomes[1..] == RunBy(rule, missing, w', calls[1..]).1 && outcomes[0] == outcome;
      HappenedFirst(hit, calls, outcomes);
    }
  }

  lemma HappenedFirst<C, R>(hit: (C, R) -> bool, calls: seq<Call<C>>, outcomes: seq<R>)
    requires |calls| == |outcomes| > 0
    ensures Happened(hit, calls, outcomes)
       <==> hit(calls[0].command, outcomes[0]) || Happened(hit, calls[1..], outcomes[1..])
  {
    if Happened(hit, calls[1..], outcomes[1..]) {
      var k :| 0 <= k < |calls[1..]| && hit(calls[1..][k].command, outcomes[1..][k]);
      assert hit(calls[k + 1].command, outcomes[k + 1]);
    }
    if Happened(hit, calls, outcomes) {
      var k :| 0 <= k < |calls| && hit(calls[k].command, outcomes[k]);
      if k > 0 {
        assert hit(calls[1..][k - 1].command, outcomes[1..][k - 1]);
      }
    }
  }
}
