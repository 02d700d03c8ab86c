/**
 Clearing the event counters while triggers go on: the read-out samples the almost-full latch,
 drains the scaler and every module, and clears only when the latch was set at the beginning
 and nothing came.  Triggers and latch settings may fall between any two of its steps.

 The environment: an accepted trigger puts one event into every module and one latched count
 into the scaler, and no trigger is accepted while the latch is set.
 */
module ClearHandshake {

  datatype Pc =
    | Top
    | AtScaler(sampled: bool)
    | AtModule(sampled: bool, i: nat, found: bool)
    | Deciding(sampled: bool, found: bool)
    | Clearing(i: nat)

  datatype State = State(
    accepted: nat,                 // triggers accepted since the last reset
    latch: bool,
    scalerQueue: seq<nat>,         // channel 0 as latched by triggers whose scaler event is unread
    scaler0: nat,                  // channel 0 as read last
    offset: nat,                   // counter_offset
    locals: seq<nat>,              // the modules' own event counters
    queues: seq<seq<nat>>,         // local numbers of the events waiting in each module
    delivered: seq<seq<nat>>,      // offset + local number of the events read from each module
    pc: Pc)

  datatype Action =
    | Trigger
    | SetLatch
    | Sample
    | DrainScaler(k: nat)
    | DrainModule(k: nat)
    | Decide
    | ClearModule
    | Unlatch

  predicate Init(s: State, modules: nat) {
    s == State(0, false, [], 0, 0, seq(modules, i => 0), seq(modules, i => []), seq(modules, i => []), Top)
  }

  function Numbered(offset: nat, q: seq<nat>): (r: seq<nat>)
    ensures |r| == |q|
    ensures forall j :: 0 <= j < |q| ==> r[j] == offset + q[j]
  {
    seq(|q|, j requires 0 <= j < |q| => offset + q[j])
  }

  predicate Enabled(s: State, a: Action) {
    match a
    case Trigger => !s.latch && |s.queues| == |s.locals|
    case SetLatch => true
    case Sample => s.pc.Top?
    case DrainScaler(k) => s.pc.AtScaler? && k <= |s.scalerQueue| && (k == 0 <==> s.scalerQueue == [])
    case DrainModule(k) =>
      && s.pc.AtModule? && s.pc.i < |s.queues| && |s.queues| == |s.delivered|
      && k <= |s.queues[s.pc.i]| && (k == 0 <==> s.queues[s.pc.i] == [])
    case Decide => s.pc.Deciding?
    case ClearModule => s.pc.Clearing? && s.pc.i < |s.queues| && |s.queues| == |s.locals|
    case Unlatch => s.pc.Clearing? && s.pc.i >= |s.queues|
  }

  /** The module the read-out turns to next, or the decision behind the last one. */
  function Onward(s: State, i: nat, sampled: bool, found: bool): Pc {
    if i < |s.queues| then AtModule(sampled, i, found) else Deciding(sampled, found)
  }

  function Apply(s: State, a: Action): State
    requires Enabled(s, a)
  {
    match a
    case Trigger =>
      s.(accepted := s.accepted + 1,
         scalerQueue := s.scalerQueue + [s.accepted + 1],
         queues := seq(|s.queues|, i requires 0 <= i < |s.queues| => s.queues[i] + [s.locals[i]]),
         locals := seq(|s.locals|, i requires 0 <= i < |s.locals| => s.locals[i] + 1))
    case SetLatch => s.(latch := true)
    case Sample => s.(pc := AtScaler(s.latch))
    case DrainScaler(k) =>
      s.(scaler0 := if k == 0 then s.scaler0 else s.scalerQueue[k - 1],
         scalerQueue := s.scalerQueue[k..],
         pc := Onward(s, 0, s.pc.sampled, k > 0))
    case DrainModule(k) =>
      var i, q := s.pc.i, s.queues[s.pc.i];
      s.(delivered := s.delivered[i := s.delivered[i] + Numbered(s.offset, q[..k])],
         queues := s.queues[i := q[k..]],
         pc := Onward(s, i + 1, s.pc.sampled, s.pc.found || k > 0))
    case Decide =>
      if !s.pc.found && s.pc.sampled then s.(offset := s.scaler0, pc := Clearing(0)) else s.(pc := Top)
    case ClearModule =>
      s.(queues := s.queues[s.pc.i := []], locals := s.locals[s.pc.i := 0], pc := Clearing(s.pc.i + 1))
    case Unlatch => s.(latch := false, pc := Top)
  }

  // ---- The invariant ----

  /** `r` is `from, from + 1, ...` */
  predicate Counts(from: int, r: seq<nat>) {
    forall j :: 0 <= j < |r| ==> r[j] == from + j
  }

  predicate ModuleInv(s: State, i: nat)
    requires |s.queues| == |s.locals| == |s.delivered| && i < |s.queues|
  {
    && Counts(0, s.delivered[i])
    && |s.delivered[i]| + |s.queues[i]| == s.accepted
    && Counts(|s.delivered[i]|, Numbered(s.offset, s.queues[i]))
    && (if s.pc.Clearing? && s.pc.i <= i then true else s.offset + s.locals[i] == s.accepted)
  }

  predicate PcInv(s: State) {
    match s.pc
    case Top => true
    case AtScaler(sampled) => sampled ==> s.latch
    case AtModule(sampled, i, found) =>
      && i < |s.queues| && (sampled ==> s.latch)
      && (sampled && !found ==> s.scalerQueue == [] && forall j :: 0 <= j < i ==> s.queues[j] == [])
    case Deciding(sampled, found) =>
      && (sampled ==> s.latch)
      && (sampled && !found ==> s.scalerQueue == [] && forall j :: 0 <= j < |s.queues| ==> s.queues[j] == [])
    case Clearing(i) => s.latch && s.offset == s.accepted && forall j :: 0 <= j < |s.queues| ==> s.queues[j] == []
  }

  predicate Inv(s: State) {
    && |s.queues| == |s.locals| == |s.delivered|
    && s.scaler0 + |s.scalerQueue| == s.accepted && Counts(s.scaler0 + 1, s.scalerQueue)
    && (forall i :: 0 <= i < |s.queues| ==> ModuleInv(s, i))
    && PcInv(s)
  }

  lemma TriggerKeeps(s: State)
    requires Inv(s) && Enabled(s, Trigger)
    ensures Inv(Apply(s, Trigger))
  {
    var t := Apply(s, Trigger);
    forall i | 0 <= i < |t.queues| ensures ModuleInv(t, i) {
      assert ModuleInv(s, i);
      var q, q' := Numbered(s.offset, s.queues[i]), Numbered(t.offset, t.queues[i]);
      assert forall j :: 0 <= j < |q| ==> q'[j] == q[j];
    }
  }

  lemma DrainScalerKeeps(s: State, k: nat)
    requires Inv(s) && Enabled(s, DrainScaler(k))
    ensures Inv(Apply(s, DrainScaler(k)))
  {
    var t := Apply(s, DrainScaler(k));
    forall i | 0 <= i < |t.queues| ensures ModuleInv(t, i) { assert ModuleInv(s, i); }
  }

  lemma DrainModuleKeeps(s: State, k: nat)
    requires Inv(s) && Enabled(s, DrainModule(k))
    ensures Inv(Apply(s, DrainModule(k)))
  {
    var t, m := Apply(s, DrainModule(k)), s.pc.i;
    forall i | 0 <= i < |t.queues| ensures ModuleInv(t, i) {
      assert ModuleInv(s, i);
      if i == m {
        var q := Numbered(s.offset, s.queues[i]);
        assert forall j :: 0 <= j < k ==> Numbered(s.offset, s.queues[i][..k])[j] == q[j];
        assert forall j :: 0 <= j < |t.queues[i]| ==> Numbered(t.offset, t.queues[i])[j] == q[k + j];
      }
    }
  }

  lemma DecideKeeps(s: State)
    requires Inv(s) && Enabled(s, Decide)
    ensures Inv(Apply(s, Decide))
  {
    var t := Apply(s, Decide);
    forall i | 0 <= i < |t.queues| ensures ModuleInv(t, i) { assert ModuleInv(s, i); }
  }

  lemma ClearKeeps(s: State)
    requires Inv(s) && Enabled(s, ClearModule)
    ensures Inv(Apply(s, ClearModule))
  {
    var t := Apply(s, ClearModule);
    forall i | 0 <= i < |t.queues| ensures ModuleInv(t, i) { assert ModuleInv(s, i); }
  }

  lemma OtherKeeps(s: State, a: Action)
    requires Inv(s) && Enabled(s, a) && (a.SetLatch? || a.Sample? || a.Unlatch?)
    ensures Inv(Apply(s, a))
  {
    var t := Apply(s, a);
    forall i | 0 <= i < |t.queues| ensures ModuleInv(t, i) { assert ModuleInv(s, i); }
  }

  lemma StepKeeps(s: State, a: Action)
    requires Inv(s) && Enabled(s, a)
    ensures Inv(Apply(s, a))
  {
    match a {
      case Trigger => TriggerKeeps(s);
      case DrainScaler(k) => DrainScalerKeeps(s, k);
      case DrainModule(k) => DrainModuleKeeps(s, k);
      case Decide => DecideKeeps(s);
      case ClearModule => ClearKeeps(s);
      case SetLatch => OtherKeeps(s, a);
      case Sample => OtherKeeps(s, a);
      case Unlatch => OtherKeeps(s, a);
    }
  }

  // ---- Runs ----

  /** The state after a run; a run names only steps that are enabled when their turn comes. */
  ghost predicate Run(s: State, acts: seq<Action>, t: State)
    decreases |acts|
  {
    if acts == [] then t == s
    else Enabled(s, acts[0]) && Run(Apply(s, acts[0]), acts[1..], t)
  }

  lemma {:induction false} RunKeeps(s: State, acts: seq<Action>, t: State)
    requires Inv(s) && Run(s, acts, t)
    ensures Inv(t) && |t.queues| == |s.queues|
    decreases |acts|
  {
    if acts != [] {
      StepKeeps(s, acts[0]);
      RunKeeps(Apply(s, acts[0]), acts[1..], t);
    }
  }

  lemma InitInv(s: State, modules: nat)
    requires Init(s, modules)
    ensures Inv(s) && |s.queues| == modules
  {
  }

  /** In every run and for every module: the events read so far carry the numbers 0, 1, 2, ... without
      gap or repeat across all clears, and every accepted event is either read or still waiting. */
  lemma EventsNumberedWithoutGap(s: State, modules: nat, acts: seq<Action>, t: State, i: nat)
    requires Init(s, modules) && Run(s, acts, t) && i < modules
    ensures |t.queues| == |t.delivered| == modules
    ensures Counts(0, t.delivered[i])
    ensures |t.delivered[i]| + |t.queues[i]| == t.accepted
  {
    InitInv(s, modules);
    RunKeeps(s, acts, t);
    assert ModuleInv(t, i);
  }

  /** A clear never throws an event away: every module is empty when it is cleared, and the new
      offset is the number of triggers accepted so far. */
  lemma ClearDiscardsNothing(s: State, modules: nat, acts: seq<Action>, t: State)
    requires Init(s, modules) && Run(s, acts, t) && Enabled(t, ClearModule)
    ensures t.queues[t.pc.i] == [] && t.offset == t.accepted && t.latch
  {
    InitInv(s, modules);
    RunKeeps(s, acts, t);
  }
}
