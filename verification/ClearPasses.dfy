/**
 When a pass of the read-out clears: a pass goes from one sampling of the latch to the next, with triggers and
 latch settings falling anywhere in between.
 */
module ClearPasses {
  import opened ClearHandshake

  /** A run that comes back to the top with its last step and not before. */
  ghost predicate Pass(s: State, acts: seq<Action>, t: State)
    decreases |acts|
  {
    && acts != [] && Enabled(s, acts[0])
    && var next := Apply(s, acts[0]);
       if |acts| == 1 then t == next && t.pc.Top? else !next.pc.Top? && Pass(next, acts[1..], t)
  }

  /** The events that a step takes out of the scaler or a module. */
  function Took(a: Action): nat { if a.DrainScaler? || a.DrainModule? then a.k else 0 }

  function Drained(acts: seq<Action>): nat { if acts == [] then 0 else Took(acts[0]) + Drained(acts[1..]) }

  /** Every module's own counter has moved on by the triggers accepted since, and the offset is the same. */
  predicate Counting(a: State, s: State) {
    && |s.locals| == |a.locals| && a.accepted <= s.accepted && s.offset == a.offset && (a.latch ==> s.latch)
    && forall j :: 0 <= j < |s.locals| ==> s.locals[j] == a.locals[j] + (s.accepted - a.accepted)
  }

  /** The offset is the number of triggers accepted and the first `n` counters are zero. */
  predicate Cleared(s: State, n: nat) {
    s.offset == s.accepted && n <= |s.locals| && forall j :: 0 <= j < n ==> s.locals[j] == 0
  }

  /** In the middle of a pass that began at `a` and has drained `d` events. */
  predicate Midway(a: State, s: State, d: nat) {
    match s.pc
    case Top => false
    case AtScaler(sampled) => Counting(a, s) && sampled == a.latch && d == 0
    case AtModule(sampled, i, found) => Counting(a, s) && sampled == a.latch && (found <==> d > 0)
    case Deciding(sampled, found) => Counting(a, s) && sampled == a.latch && (found <==> d > 0)
    case Clearing(i) => Cleared(s, i) && |s.locals| == |a.locals| && a.latch && d == 0
  }

  /** How a pass ends: it clears everything if the latch was set at its beginning and it drained nothing;
      otherwise it touches neither the offset nor a counter. */
  predicate Ends(a: State, t: State, d: nat) {
    if a.latch && d == 0 then Cleared(t, |t.locals|) && |t.locals| == |a.locals| && !t.latch else Counting(a, t)
  }

  lemma MidwayStep(a: State, s: State, x: Action, d: nat)
    requires Inv(s) && Midway(a, s, d) && Enabled(s, x)
    ensures var t := Apply(s, x);
            if t.pc.Top? then Ends(a, t, d + Took(x)) else Midway(a, t, d + Took(x))
  {
    match x {
      case Decide => DecideKeeps(s);
      case _ =>
    }
  }

  lemma {:induction false} PassEnds(a: State, s: State, acts: seq<Action>, t: State, d: nat)
    requires Inv(s) && Midway(a, s, d) && Pass(s, acts, t)
    ensures Ends(a, t, d + Drained(acts))
    decreases |acts|
  {
    MidwayStep(a, s, acts[0], d);
    if |acts| > 1 {
      StepKeeps(s, acts[0]);
      PassEnds(a, Apply(s, acts[0]), acts[1..], t, d + Took(acts[0]));
    } else {
      assert Drained(acts[1..]) == 0;
    }
  }

  /**
   For every pass of every run: if it found the latch set and drained nothing, it ends with the offset at the
   number of accepted triggers, every local counter at 0 and the latch clear; any other pass leaves the offset
   alone and resets no counter.
   */
  lemma PassClearsIff(s: State, modules: nat, before: seq<Action>, a: State, acts: seq<Action>, t: State)
    requires Init(s, modules) && Run(s, before, a) && a.pc.Top? && Pass(a, [Sample] + acts, t)
    ensures a.latch && Drained(acts) == 0 ==>
              t.offset == t.accepted && !t.latch && forall j :: 0 <= j < |t.locals| ==> t.locals[j] == 0
    ensures !(a.latch && Drained(acts) == 0) ==>
              && t.offset == a.offset && |t.locals| == |a.locals|
              && forall j :: 0 <= j < |t.locals| ==> t.locals[j] == a.locals[j] + (t.accepted - a.accepted)
  {
    InitInv(s, modules);
    RunKeeps(s, before, a);
    var b := Apply(a, Sample);
    OtherKeeps(a, Sample);
    assert ([Sample] + acts)[1..] == acts;
    PassEnds(a, b, acts, t, 0);
  }

  // ---- A run with a clear and events on both sides of it ----

  /** One module, at rest. */
  function One(accepted: nat, scaler0: nat, offset: nat, local: nat, delivered: seq<nat>): State {
    State(accepted, false, [], scaler0, offset, [local], [[]], [delivered], Top)
  }

  lemma RunCons(s: State, a: Action, rest: seq<Action>, t: State)
    requires Enabled(s, a) && Run(Apply(s, a), rest, t)
    ensures Run(s, [a] + rest, t)
  {
    assert ([a] + rest)[1..] == rest;
  }

  lemma TriggerOne(n: nat, c: nat, o: nat, l: nat, d: seq<nat>)
    ensures Enabled(One(n, c, o, l, d), Trigger)
    ensures Apply(One(n, c, o, l, d), Trigger) == State(n + 1, false, [n + 1], c, o, [l + 1], [[l]], [d], Top)
  {
    var t := Apply(One(n, c, o, l, d), Trigger);
    assert t.queues[0] == [] + [l] == [l];
    assert t.queues == [[l]] && t.locals == [l + 1] && t.scalerQueue == [n + 1];
  }

  lemma DrainOne(s: State, o: nat, l: nat, d: seq<nat>)
    requires s.pc == AtModule(false, 0, true) && s.queues == [[l]] && s.delivered == [d] && s.offset == o
    ensures Enabled(s, DrainModule(1))
    ensures Apply(s, DrainModule(1))
            == s.(delivered := [d + [o + l]], queues := [[]], pc := Deciding(false, true))
  {
    var t := Apply(s, DrainModule(1));
    assert [l][..1] == [l] && Numbered(o, [l]) == [o + l] && [l][1..] == [];
    assert t.delivered == [d + [o + l]] && t.queues == [[]];
  }

  lemma DrainNone(s: State, o: nat, d: seq<nat>)
    requires s.pc == AtModule(true, 0, false) && s.queues == [[]] && s.delivered == [d] && s.offset == o
    ensures Enabled(s, DrainModule(0)) && Apply(s, DrainModule(0)) == s.(pc := Deciding(true, false))
  {
    var t := Apply(s, DrainModule(0));
    var none: seq<nat> := [];
    assert none[..0] == [] && Numbered(o, none) == [] && d + Numbered(o, none) == d;
    assert t.delivered == [d] && t.queues == [[]];
  }

  lemma ClearOne(s: State, l: nat)
    requires s.pc == Clearing(0) && s.queues == [[]] && s.locals == [l]
    ensures Enabled(s, ClearModule) && Apply(s, ClearModule) == s.(locals := [0], pc := Clearing(1))
  {
    var t := Apply(s, ClearModule);
    assert t.queues == [[]] && t.locals == [0];
  }

  /** A trigger and the pass that reads its event. */
  lemma ReadThen(n: nat, c: nat, o: nat, l: nat, d: seq<nat>, rest: seq<Action>, t: State) returns (acts: seq<Action>)
    requires Run(One(n + 1, n + 1, o, l + 1, d + [o + l]), rest, t)
    ensures Run(One(n, c, o, l, d), acts, t)
  {
    var s1 := State(n + 1, false, [n + 1], c, o, [l + 1], [[l]], [d], Top);
    var s2 := s1.(pc := AtScaler(false));
    var s3 := s2.(scaler0 := n + 1, scalerQueue := [], pc := AtModule(false, 0, true));
    var s4 := s3.(delivered := [d + [o + l]], queues := [[]], pc := Deciding(false, true));
    TriggerOne(n, c, o, l, d);
    assert Apply(s2, DrainScaler(1)) == s3;
    DrainOne(s3, o, l, d);
    RunCons(s4, Decide, rest, t);
    RunCons(s3, DrainModule(1), [Decide] + rest, t);
    RunCons(s2, DrainScaler(1), [DrainModule(1)] + ([Decide] + rest), t);
    RunCons(s1, Sample, [DrainScaler(1)] + ([DrainModule(1)] + ([Decide] + rest)), t);
    acts := [Sample] + ([DrainScaler(1)] + ([DrainModule(1)] + ([Decide] + rest)));
    RunCons(One(n, c, o, l, d), Trigger, acts, t);
    acts := [Trigger] + acts;
  }

  /** The latch and the pass that clears. */
  lemma ClearThen(n: nat, c: nat, o: nat, l: nat, d: seq<nat>, rest: seq<Action>, t: State) returns (acts: seq<Action>)
    requires Run(One(n, c, c, 0, d), rest, t)
    ensures Run(One(n, c, o, l, d), acts, t)
  {
    var s0 := One(n, c, o, l, d);
    var s1 := s0.(latch := true);
    var s2 := s1.(pc := AtScaler(true));
    var s3 := s1.(pc := AtModule(true, 0, false));
    var s4 := s1.(pc := Deciding(true, false));
    var s5 := s1.(offset := c, pc := Clearing(0));
    var s6 := s5.(locals := [0], pc := Clearing(1));
    DrainNone(s3, o, d);
    ClearOne(s5, l);
    RunCons(s6, Unlatch, rest, t);
    RunCons(s5, ClearModule, [Unlatch] + rest, t);
    RunCons(s4, Decide, [ClearModule] + ([Unlatch] + rest), t);
    acts := [Decide] + ([ClearModule] + ([Unlatch] + rest));
    RunCons(s3, DrainModule(0), acts, t);
    RunCons(s2, DrainScaler(0), [DrainModule(0)] + acts, t);
    RunCons(s1, Sample, [DrainScaler(0)] + ([DrainModule(0)] + acts), t);
    acts := [Sample] + ([DrainScaler(0)] + ([DrainModule(0)] + acts));
    RunCons(s0, SetLatch, acts, t);
    acts := [SetLatch] + acts;
  }

  /** An event, a clear, another event: numbers 0 and 1, the offset at 1, the module's own counter back at 1. */
  lemma NumberedAcrossClear(s: State) returns (acts: seq<Action>, t: State)
    requires Init(s, 1)
    ensures Run(s, acts, t) && t.delivered == [[0, 1]] && t.offset == 1 && t.locals == [1] && t.accepted == 2
  {
    assert s.locals == [0] && s.queues == [[]] && s.delivered == [[]];
    assert s == One(0, 0, 0, 0, []);
    var none: seq<nat>, first: seq<nat> := [], [0];
    assert none + [0 + 0] == first && first + [1 + 0] == [0, 1];
    t := One(2, 2, 1, 1, first + [1 + 0]);
    var last := ReadThen(1, 1, 1, 0, first, [], t);
    var middle := ClearThen(1, 1, 0, 1, first, last, t);
    acts := ReadThen(0, 0, 0, 0, none, middle, t);
  }
}
