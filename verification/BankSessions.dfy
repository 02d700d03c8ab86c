/**
 One run after the other, with the stops in between that land on RUN_START: such a stop drains the bank that
 `p_buf` toggles to, without the module reset a start would have made.  Triggers are vetoed from a stop to
 the next start, so the hardware adds nothing in between.
 */
module BankSessions {
  import opened Basics
  import opened Banks

  // ---- A stop without a start ----

  /** The drain loop from module `m` on. */
  function TakeFrom(s: State, m: nat): (r: State)
    requires |s.mem| == N_MODULES
    ensures |r.mem| == N_MODULES
    decreases N_MODULES - m
  {
    if m >= N_MODULES then s else TakeFrom(TakeModule(s, m), m + 2)
  }

  /** `RUN_STOP` when no run is on. */
  function BareStop(s: State): State
    requires Shape(s)
  {
    var p := Toggle(s.pBuf);
    TakeFrom(s.(pBuf := p), p).(pBuf := 1, iBuf := 1)
  }

  /** The blocks that the modules of one parity hold, from module `m` on. */
  function Held(mem: seq<int>, m: nat): seq<(nat, nat)>
    requires |mem| == N_MODULES
    decreases N_MODULES - m
  {
    if m >= N_MODULES then [] else (if mem[m] >= 0 then [(mem[m], m)] else []) + Held(mem, m + 2)
  }

  lemma {:induction false} HeldMembers(mem: seq<int>, m: nat)
    requires |mem| == N_MODULES
    ensures forall x: nat, y: nat :: (x, y) in Held(mem, m) <==> m <= y < N_MODULES && y % 2 == m % 2 && mem[y] == x
    decreases N_MODULES - m
  {
    if m < N_MODULES {
      var rest := Held(mem, m + 2);
      HeldMembers(mem, m + 2);
      forall x: nat, y: nat
        ensures (x, y) in Held(mem, m) <==> m <= y < N_MODULES && y % 2 == m % 2 && mem[y] == x
      {
        assert (x, y) in Held(mem, m) <==> (y == m && mem[m] == x) || (x, y) in rest;
        NextOfParity(m, y);
      }
    }
  }

  lemma {:induction false} HeldAscends(mem: seq<int>, m: nat)
    requires |mem| == N_MODULES
    ensures forall i :: 0 <= i < |Held(mem, m)| ==> m <= Held(mem, m)[i].1
    ensures forall i, j :: 0 <= i < j < |Held(mem, m)| ==> Held(mem, m)[i].1 < Held(mem, m)[j].1
    decreases N_MODULES - m
  {
    if m < N_MODULES {
      HeldAscends(mem, m + 2);
    }
  }

  /** The modules of the parity of `m`, from `m` on. */
  predicate Covered(i: nat, m: nat) { m <= i && i % 2 == m % 2 }

  /** Only the blocks sent and the covered modules change. */
  predicate Took(s: State, r: State, m: nat)
    requires |s.mem| == |r.mem| == N_MODULES
  {
    && r == s.(log := s.log + Held(s.mem, m), mem := r.mem)
    && forall i :: 0 <= i < N_MODULES ==> if Covered(i, m) then r.mem[i] < 0 else r.mem[i] == s.mem[i]
  }

  lemma {:induction false} TakeFromTakes(s: State, m: nat)
    requires |s.mem| == N_MODULES
    ensures Took(s, TakeFrom(s, m), m)
    decreases N_MODULES - m
  {
    if m >= N_MODULES {
      assert s.log + [] == s.log;
    } else {
      var t := TakeModule(s, m);
      TakeFromTakes(t, m + 2);
      HeldBehind(s.mem, t.mem, m + 2);
      TakeStep(s, t, TakeFrom(s, m), m);
    }
  }

  lemma {:induction false} HeldBehind(mem: seq<int>, mem': seq<int>, m: nat)
    requires |mem| == |mem'| == N_MODULES && forall i :: m <= i < N_MODULES ==> mem'[i] == mem[i]
    ensures Held(mem', m) == Held(mem, m)
    decreases N_MODULES - m
  {
    if m < N_MODULES {
      HeldBehind(mem, mem', m + 2);
    }
  }

  lemma TakeStep(s: State, t: State, r: State, m: nat)
    requires |s.mem| == |r.mem| == N_MODULES && m < N_MODULES && t == TakeModule(s, m)
    requires Took(t, r, m + 2) && Held(t.mem, m + 2) == Held(s.mem, m + 2)
    ensures Took(s, r, m)
  {
    var rest := Held(s.mem, m + 2);
    if s.mem[m] >= 0 {
      Assoc(s.log, [(s.mem[m], m)], rest);
    } else {
      assert [] + rest == rest;
    }
    forall i | 0 <= i < N_MODULES ensures if Covered(i, m) then r.mem[i] < 0 else r.mem[i] == s.mem[i] {
      NextOfParity(m, i);
    }
  }

  /**
   A stop between runs sends exactly the blocks that even modules hold, in ascending order, and empties those
   modules; the odd ones are left as they are.
   */
  lemma BareSends(s: State, sent: seq<(nat, nat)>)
    requires Shape(s) && s.pBuf == 1 && sent == Held(s.mem, 0)
    ensures var t := BareStop(s);
            && t == s.(log := s.log + sent, mem := t.mem, iBuf := 1) && Shape(t)
            && forall i :: 0 <= i < 12 ==> if i % 2 == 0 then t.mem[i] < 0 else t.mem[i] == s.mem[i]
    ensures forall x: nat, y: nat :: (x, y) in sent <==> y < 12 && y % 2 == 0 && s.mem[y] == x
    ensures forall i, j :: 0 <= i < j < |sent| ==> sent[i].1 < sent[j].1
  {
    TakeFromTakes(s.(pBuf := 0), 0);
    HeldMembers(s.mem, 0);
    HeldAscends(s.mem, 0);
    forall i | 0 <= i < N_MODULES
      ensures if i % 2 == 0 then BareStop(s).mem[i] < 0 else BareStop(s).mem[i] == s.mem[i]
    {
      assert Covered(i, 0) <==> i % 2 == 0;
    }
  }

  lemma {:induction false} NothingHeld(mem: seq<int>, m: nat)
    requires |mem| == N_MODULES && forall i :: 0 <= i < N_MODULES && i % 2 == m % 2 ==> mem[i] < 0
    ensures Held(mem, m) == []
    decreases N_MODULES - m
  {
    if m < N_MODULES {
      NothingHeld(mem, m + 2);
    }
  }

  lemma {:induction false} NothingTaken(s: State, m: nat)
    requires |s.mem| == N_MODULES && forall i :: 0 <= i < N_MODULES && i % 2 == m % 2 ==> s.mem[i] < 0
    ensures TakeFrom(s, m) == s
    decreases N_MODULES - m
  {
    if m < N_MODULES {
      NothingTaken(s, m + 2);
    }
  }

  /** A second such stop finds nothing more. */
  lemma BareTwice(s: State)
    requires Shape(s) && s.pBuf == 1
    ensures Shape(BareStop(s)) && BareStop(BareStop(s)) == BareStop(s)
  {
    BareSends(s, Held(s.mem, 0));
    NothingTaken(BareStop(s).(pBuf := 0), 0);
  }

  // ---- Behind a run ----

  lemma {:induction false} HeldIsVisits(mem: seq<int>, k: nat, hit: set<nat>, m: nat)
    requires |mem| == N_MODULES
    requires forall i :: 0 <= i < N_MODULES && i % 2 == m % 2 ==> mem[i] == if i in hit then k else -1
    ensures Held(mem, m) == Visits(k, hit, m)
    decreases N_MODULES - m
  {
    if m < N_MODULES {
      HeldIsVisits(mem, k, hit, m + 2);
    }
  }

  /** The first fill that a stopped run has not sent, if there is one. */
  predicate LeftBehind(t: State, k: nat) { k == t.drained < |t.hits| }

  /** What even modules hold behind a run: the fill left behind, if its number is even. */
  lemma HeldBehindRun(t: State)
    requires ControlInv(t) && t.pc.Stopped?
    ensures Held(t.mem, 0) == if LeftBehind(t, t.drained) && t.drained % 2 == 0
                              then Visits(t.drained, t.hits[t.drained], t.drained % 2) else []
  {
    var k := t.drained;
    Parity(k - 1);
    if k % 2 == 0 && k < |t.hits| {
      HeldIsVisits(t.mem, k, t.hits[k], 0);
    } else {
      NothingHeld(t.mem, 0);
    }
  }

  /** A run leaves at most one fill behind that holds anything. */
  lemma OneLeftBehind(s: State, acts: seq<Action>, t: State, k: nat)
    requires Init(s) && Run(s, acts, t) && t.pc.Stopped? && t.drained <= k < |t.hits|
    ensures LeftBehind(t, k) || t.hits[k] == {}
  {
    Reach(s, acts, t);
    LeftAtStop(t, k);
  }

  lemma LeftAtStop(t: State, k: nat)
    requires ControlInv(t) && t.pc.Stopped? && t.drained <= k < |t.hits|
    ensures LeftBehind(t, k) || t.hits[k] == {}
  {
  }

  /** The stop that follows a run without a start sends the fill left behind if and only if its number is even. */
  lemma BareAfterRun(s: State, acts: seq<Action>, t: State)
    requires Init(s) && Run(s, acts, t) && t.pc.Stopped?
    ensures Shape(t) && t.pBuf == 1 && t.drained <= |t.hits| && t.log == InOrder(t.hits, t.drained)
    ensures BareStop(t).log == if LeftBehind(t, t.drained) && t.drained % 2 == 0
                               then InOrder(t.hits, t.drained + 1) else t.log
  {
    Reach(s, acts, t);
    BareAtStop(t);
  }

  lemma BareAtStop(t: State)
    requires Inv(t) && t.pc.Stopped?
    ensures BareStop(t).log == if LeftBehind(t, t.drained) && t.drained % 2 == 0
                               then InOrder(t.hits, t.drained + 1) else t.log
  {
    HeldBehindRun(t);
    BareSends(t, Held(t.mem, 0));
    LogWith(t.hits, t.drained, t.log, Held(t.mem, 0), LeftBehind(t, t.drained) && t.drained % 2 == 0);
  }

  lemma LogWith(hits: seq<set<nat>>, k: nat, log: seq<(nat, nat)>, sent: seq<(nat, nat)>, even: bool)
    requires k <= |hits| && log == InOrder(hits, k) && (even ==> k < |hits|)
    requires sent == if even then Visits(k, hits[k], k % 2) else []
    ensures log + sent == if even then InOrder(hits, k + 1) else log
  {
    if even {
      NextDrain(hits, k, log);
    } else {
      assert log + [] == log;
    }
  }

  // ---- Sessions ----

  /** `RUN_START`: every module's memory is reset, the register cleared and the bank changer sent back to
      bank 0; `p_buf` keeps what the stop left. */
  function StartRun(s: State): State {
    s.(fills := 0, hits := [], full := [false, false], flag := [false, false],
       mem := seq(N_MODULES, i => -1), pc := Idle, drained := 0, log := [])
  }

  datatype Episode =
    | Whole(acts: seq<Action>)    // a start and a run up to its stop
    | Bare                        // a stop that landed on RUN_START

  ghost predicate Leads(s: State, e: Episode, t: State) {
    match e
    case Whole(acts) => Run(StartRun(s), acts, t) && t.pc.Stopped?
    case Bare => Shape(s) && t == BareStop(s)
  }

  /** No run is on. */
  predicate Between(s: State) { Shape(s) && s.pc.Stopped? && s.pBuf == 1 }

  ghost predicate LeadsAt(states: seq<State>, es: seq<Episode>, i: nat)
    requires |states| == |es| + 1 && i < |es|
  {
    Leads(states[i], es[i], states[i + 1])
  }

  /** Any sequence of runs and bare stops, from any contents of the modules. */
  ghost predicate Session(states: seq<State>, es: seq<Episode>) {
    && |states| == |es| + 1 && Between(states[0])
    && forall i :: 0 <= i < |es| ==> LeadsAt(states, es, i)
  }

  lemma StartIsInit(s: State)
    requires Between(s)
    ensures Init(StartRun(s))
  {
  }

  lemma EpisodeEnds(s: State, e: Episode, t: State)
    requires Between(s) && Leads(s, e, t)
    ensures Between(t)
  {
    match e {
      case Whole(acts) =>
        StartIsInit(s);
        Reach(StartRun(s), acts, t);
      case Bare =>
        BareSends(s, Held(s.mem, 0));
    }
  }

  lemma {:induction false} AlwaysBetween(states: seq<State>, es: seq<Episode>, i: nat)
    requires Session(states, es) && i <= |es|
    ensures Between(states[i])
  {
    if i > 0 {
      AlwaysBetween(states, es, i - 1);
      assert LeadsAt(states, es, i - 1);
      EpisodeEnds(states[i - 1], es[i - 1], states[i]);
    }
  }

  /** Every run of a session begins with all modules empty, whatever came before it, so all that is proved of
      one run holds of each, and no block left behind earlier is sent in a run. */
  lemma EveryRunStartsAfresh(states: seq<State>, es: seq<Episode>, i: nat)
    requires Session(states, es) && i < |es| && es[i].Whole?
    ensures Init(StartRun(states[i])) && Run(StartRun(states[i]), es[i].acts, states[i + 1])
    ensures states[i + 1].pc.Stopped?
  {
    AlwaysBetween(states, es, i);
    StartIsInit(states[i]);
    assert LeadsAt(states, es, i);
  }

  lemma BareEpisode(states: seq<State>, es: seq<Episode>, i: nat)
    requires Session(states, es) && i < |es| && es[i].Bare?
    ensures Between(states[i]) && states[i + 1] == BareStop(states[i])
  {
    AlwaysBetween(states, es, i);
    assert LeadsAt(states, es, i);
  }

  /** Between a run and the next start only the first bare stop does anything. */
  lemma {:induction false} OnlyTheFirstSends(states: seq<State>, es: seq<Episode>, i: nat, j: nat)
    requires Session(states, es) && i < j <= |es| && forall e :: i <= e < j ==> es[e].Bare?
    ensures Between(states[i]) && states[j] == BareStop(states[i])
    decreases j
  {
    BareEpisode(states, es, j - 1);
    if j > i + 1 {
      OnlyTheFirstSends(states, es, i, j - 1);
      BareTwice(states[i]);
    }
  }

  lemma {:induction false} InOrderBelow(hits: seq<set<nat>>, n: nat, x: nat, y: nat)
    requires n <= |hits| && (x, y) in InOrder(hits, n)
    ensures x < n
  {
    if (x, y) !in InOrder(hits, n - 1) {
      VisitsMembers(n - 1, hits[n - 1], (n - 1) % 2);
    } else {
      InOrderBelow(hits, n - 1, x, y);
    }
  }

  /** A block of fill `k` is among those of the first `k + 1` fills and not among those before. */
  lemma InNextOnly(hits: seq<set<nat>>, k: nat, m: nat)
    requires k < |hits| && (k, m) in Visits(k, hits[k], k % 2)
    ensures (k, m) !in InOrder(hits, k) && (k, m) in InOrder(hits, k + 1)
  {
    NextDrain(hits, k, InOrder(hits, k));
    if (k, m) in InOrder(hits, k) {
      InOrderBelow(hits, k, k, m);
      assert false;
    }
  }

  /**
   A block that a run left behind is sent before the next start if and only if a bare stop comes first and the
   number of its fill is even; the next start wipes it out.
   */
  lemma LeftBehindSentIff(states: seq<State>, es: seq<Episode>, i: nat, j: nat, t: State, k: nat, m: nat)
    requires Session(states, es) && i < |es| && es[i].Whole? && t == states[i + 1]
    requires i + 1 <= j <= |es| && forall e :: i + 1 <= e < j ==> es[e].Bare?
    requires LeftBehind(t, k) && (k, m) in Visits(k, t.hits[k], k % 2)
    ensures (k, m) in states[j].log <==> k % 2 == 0 && j > i + 1
  {
    LogBehindRun(states, es, i, j, t);
    InNextOnly(t.hits, k, m);
  }

  lemma LogBehindRun(states: seq<State>, es: seq<Episode>, i: nat, j: nat, t: State)
    requires Session(states, es) && i < |es| && es[i].Whole? && t == states[i + 1]
    requires i + 1 <= j <= |es| && forall e :: i + 1 <= e < j ==> es[e].Bare?
    ensures t.drained <= |t.hits|
    ensures states[j].log == if LeftBehind(t, t.drained) && t.drained % 2 == 0 && j > i + 1
                             then InOrder(t.hits, t.drained + 1) else InOrder(t.hits, t.drained)
  {
    EveryRunStartsAfresh(states, es, i);
    BareAfterRun(StartRun(states[i]), es[i].acts, t);
    if j > i + 1 {
      OnlyTheFirstSends(states, es, i + 1, j);
    }
  }

  // ---- Instances ----

  predicate DrainsOne(s: State) { Shape(s) && s.pc.Draining? && s.pc.bank < 2 }

  /** A drain that has begun, carried to its end without interruption: the state there and the steps. */
  function DrainEnd(s: State): State
    requires DrainsOne(s)
    decreases N_MODULES - s.pc.m
  {
    if s.pc.m < N_MODULES then DrainEnd(Apply(s, Visit)) else Apply(s, FinishBank)
  }

  lemma {:induction false} DrainEndIs(s: State)
    requires DrainsOne(s)
    ensures var t := DrainEnd(s);
            && t.hits == s.hits && t.fills == s.fills && t.drained == s.drained + 1
            && match s.pc.kind
               case Last => t.pc.Stopped?
               case DoubleFirst => DrainsOne(t) && t.pc.kind == DoubleSecond
               case _ => t.pc.Idle?
    decreases N_MODULES - s.pc.m
  {
    if s.pc.m < N_MODULES {
      DrainEndIs(Apply(s, Visit));
    }
  }

  function DrainSteps(s: State): seq<Action>
    requires DrainsOne(s)
    decreases N_MODULES - s.pc.m
  {
    if s.pc.m < N_MODULES then [Visit] + DrainSteps(Apply(s, Visit)) else [FinishBank]
  }

  lemma RunCons(s: State, a: Action, rest: seq<Action>, t: State)
    requires Enabled(s, a) && Run(Apply(s, a), rest, t)
    ensures Run(s, [a] + rest, t)
  {
    assert ([a] + rest)[1..] == rest;
  }

  lemma {:induction false} DrainThen(s: State, rest: seq<Action>, t: State)
    requires DrainsOne(s) && Run(DrainEnd(s), rest, t)
    ensures Run(s, DrainSteps(s) + rest, t)
    decreases N_MODULES - s.pc.m
  {
    if s.pc.m < N_MODULES {
      var next := Apply(s, Visit);
      DrainThen(next, rest, t);
      RunCons(s, Visit, DrainSteps(next) + rest, t);
      Assoc([Visit], DrainSteps(next), rest);
    } else {
      RunCons(s, FinishBank, rest, t);
    }
  }

  lemma TwoSteps(s: State, a: Action, b: Action)
    requires Enabled(s, a) && Enabled(Apply(s, a), b)
    ensures Run(s, [a, b], Apply(Apply(s, a), b))
  {
    assert [a, b][1..] == [b] && [b][1..] == [];
    assert Run(Apply(Apply(s, a), b), [], Apply(Apply(s, a), b));
  }

  /** Both banks complete, then the stop: bank 0 goes out, the block that bank 1 holds does not. */
  lemma CompletedBankNotSent(s: State) returns (acts: seq<Action>, u: State, more: seq<Action>, t: State)
    requires Init(s)
    ensures Run(s, acts, u) && Shape(u) && FlagValue(u) == 3
    ensures Enabled(u, Stop({})) && Run(Apply(u, Stop({})), more, t) && t.pc.Stopped?
    ensures t.hits == [{0}, {1}, {}] && (1, 1) in InOrder(t.hits, 3) && t.log == [(0, 0)]
  {
    acts, u := FillBoth(s);
    more, t := StopAndDrain(u);
    StopDrainsTheFillingBank(s, acts, u, {}, more, t);
    ThreeFills(t.hits);
  }

  lemma StopAndDrain(u: State) returns (more: seq<Action>, t: State)
    requires Shape(u) && u.pc.Idle?
    ensures Enabled(u, Stop({})) && Run(Apply(u, Stop({})), more, t) && t.pc.Stopped?
  {
    var v := Apply(u, Stop({}));
    t := DrainEnd(v);
    DrainEndIs(v);
    DrainThen(v, [], t);
    more := DrainSteps(v) + [];
  }

  lemma FillBoth(s: State) returns (acts: seq<Action>, u: State)
    requires Init(s)
    ensures Run(s, acts, u) && Shape(u) && FlagValue(u) == 3
    ensures u.pc.Idle? && u.drained == 0 && u.hits == [{0}, {1}] && u.full == [true, true]
  {
    acts := [Overflow({0}), Overflow({1})];
    u := Apply(Apply(s, Overflow({0})), Overflow({1}));
    TwoSteps(s, Overflow({0}), Overflow({1}));
  }

  lemma ThreeFills(hits: seq<set<nat>>)
    requires hits == [{0}, {1}, {}]
    ensures InOrder(hits, 1) == [(0, 0)] && (1, 1) in InOrder(hits, 3)
  {
    OneHit(0, 0);
    OneHit(1, 1);
    NoHitsNoVisits(2, 0);
    assert InOrder(hits, 0) == [];
    assert InOrder(hits, 2) == [(0, 0)] + [(1, 1)];
    assert InOrder(hits, 3)[1] == (1, 1);
  }

  lemma OneHit(k: nat, m: nat)
    requires m < N_MODULES
    ensures Visits(k, {m}, m) == [(k, m)]
  {
    NoneBehind(k, m, m + 2);
  }

  lemma {:induction false} NoneBehind(k: nat, m: nat, from: nat)
    requires m < from
    ensures Visits(k, {m}, from) == []
    decreases N_MODULES - from
  {
    if from < N_MODULES {
      NoneBehind(k, m, from + 2);
    }
  }

  /** Bank 0, bank 1 and a stop with bank 0 being filled again: the stop sends bank 1; what bank 0 holds is sent
      by the next stop, if that comes without a start. */
  lemma LeftBlockSentLater(s: State) returns (acts: seq<Action>, t: State)
    requires Init(s)
    ensures Run(s, acts, t) && t.pc.Stopped? && Shape(t) && t.hits == [{0}, {1}, {0}] && LeftBehind(t, 2)
    ensures (2, 0) !in t.log && (2, 0) in BareStop(t).log
  {
    var b := FillFirst(s);
    var c := DrainEnd(b);
    DrainEndIs(b);
    FirstDrained(s, b);
    var second;
    second, t := SecondBank(c);
    acts := FirstThen(s, b, second, t);
    BareAfterRun(s, acts, t);
    OneHit(2, 0);
    InNextOnly(t.hits, 2, 0);
  }

  lemma FillFirst(s: State) returns (b: State)
    requires Init(s)
    ensures Enabled(s, Overflow({0})) && Enabled(Apply(s, Overflow({0})), Poll)
    ensures b == Apply(Apply(s, Overflow({0})), Poll) && DrainsOne(b) && b.pc.kind == Single
    ensures b.hits == [{0}] && b.fills == 1 && b.drained == 0
  {
    b := Apply(Apply(s, Overflow({0})), Poll);
  }

  lemma FirstThen(s: State, b: State, rest: seq<Action>, t: State) returns (acts: seq<Action>)
    requires Enabled(s, Overflow({0})) && Enabled(Apply(s, Overflow({0})), Poll)
    requires b == Apply(Apply(s, Overflow({0})), Poll) && DrainsOne(b) && Run(DrainEnd(b), rest, t)
    ensures Run(s, acts, t)
  {
    DrainThen(b, rest, t);
    RunCons(Apply(s, Overflow({0})), Poll, DrainSteps(b) + rest, t);
    RunCons(s, Overflow({0}), [Poll] + (DrainSteps(b) + rest), t);
    acts := [Overflow({0})] + ([Poll] + (DrainSteps(b) + rest));
  }

  lemma FirstDrained(s: State, b: State)
    requires Init(s) && Enabled(s, Overflow({0})) && Enabled(Apply(s, Overflow({0})), Poll)
    requires b == Apply(Apply(s, Overflow({0})), Poll) && DrainsOne(b)
    ensures ControlInv(DrainEnd(b))
  {
    var acts := FirstThen(s, b, [], DrainEnd(b));
    Reach(s, acts, DrainEnd(b));
  }

  lemma SecondBank(c: State) returns (acts: seq<Action>, t: State)
    requires ControlInv(c) && c.pc.Idle? && c.hits == [{0}] && c.fills == 1 && c.drained == 1
    ensures Run(c, acts, t) && t.pc.Stopped? && t.hits == [{0}, {1}, {0}] && t.drained == 2
  {
    var e := Apply(c, Overflow({1}));
    var f := Apply(e, Stop({0}));
    t := DrainEnd(f);
    DrainEndIs(f);
    DrainThen(f, [], t);
    RunCons(e, Stop({0}), DrainSteps(f) + [], t);
    RunCons(c, Overflow({1}), [Stop({0})] + (DrainSteps(f) + []), t);
    acts := [Overflow({1})] + ([Stop({0})] + (DrainSteps(f) + []));
  }

  // ---- Every completed bank is drained ----

  lemma PollStarts(u: State)
    requires ControlInv(u) && u.pc.Idle?
    ensures Enabled(u, Poll)
    ensures var v := Apply(u, Poll);
            && v.fills == u.fills && v.drained == u.drained
            && if u.fills == u.drained then v.pc.Idle?
               else DrainsOne(v) && v.pc.kind == if u.fills == u.drained + 1 then Single else DoubleFirst
  {
    FlagsTell(u);
    Parity(u.drained);
  }

  /**
   From every reachable state between two polls, the next poll and the drains behind it send everything that
   was complete: all `fills` banks are drained and their blocks are out, in order.
   */
  lemma PollDrainsAll(s: State, acts: seq<Action>, u: State) returns (more: seq<Action>, t: State)
    requires Init(s) && Run(s, acts, u) && u.pc.Idle?
    ensures Run(u, [Poll] + more, t) && t.pc.Idle? && t.drained == u.fills <= |t.hits|
    ensures t.log == InOrder(t.hits, u.fills)
  {
    Reach(s, acts, u);
    PollStarts(u);
    var v := Apply(u, Poll);
    more, t := DrainsPending(v);
    RunCons(u, Poll, more, t);
    RunKeeps(u, [Poll] + more, t);
  }

  lemma DrainsPending(v: State) returns (more: seq<Action>, t: State)
    requires v.pc.Idle? || (DrainsOne(v) && (v.pc.kind == Single || v.pc.kind == DoubleFirst))
    ensures Run(v, more, t) && t.pc.Idle?
    ensures t.drained == v.drained + if v.pc.Idle? then 0 else if v.pc.kind == Single then 1 else 2
  {
    if v.pc.Idle? {
      more, t := [], v;
    } else {
      var w := DrainEnd(v);
      DrainEndIs(v);
      var rest: seq<Action> := [];
      t := w;
      if v.pc.kind == DoubleFirst {
        t := DrainEnd(w);
        DrainEndIs(w);
        DrainThen(w, [], t);
        rest := DrainSteps(w) + [];
      }
      DrainThen(v, rest, t);
      more := DrainSteps(v) + rest;
    }
  }
}
