/**
 The two-bank memory read-out of one run.  The bank changer fills bank 0, bank 1, bank 0, ... in
 turn, raises the overflow flag of each bank it completes and goes on only into a bank that has been
 drained and re-enabled.  The collector learns from the flags which banks are complete and keeps in
 `pBuf` the bank it drained last.  Even memory modules belong to bank 0, odd ones to bank 1.
 */
module Banks {

  const N_MODULES := 12

  datatype Kind = Single | DoubleFirst | DoubleSecond | Last

  datatype Pc =
    | Idle
    | Draining(kind: Kind, bank: nat, m: nat)     // `m` is the module the loop looks at next
    | Stopped

  datatype State = State(
    fills: nat,                   // banks completed so far; number `k` went into bank `k % 2`
    hits: seq<set<nat>>,          // the modules that hold data of each fill
    full: seq<bool>,              // the bank is complete and not yet enabled again
    flag: seq<bool>,              // the overflow flags of the input register
    mem: seq<int>,                // the fill whose data a module holds, or -1
    iBuf: int,
    pBuf: nat,
    pc: Pc,
    drained: nat,                 // banks drained so far
    log: seq<(nat, nat)>)         // data blocks sent: (fill, module)

  datatype Action =
    | Overflow(hit: set<nat>)     // the changer completes a bank
    | Poll                        // read and clear the overflow flags
    | Glitch(value: int)          // the register reads as something impossible
    | Visit                       // one module of the bank being drained
    | FinishBank
    | Stop(rest: set<nat>)        // the run is stopped; `rest` holds data of the unfinished bank

  function Toggle(b: nat): nat
    requires b < 2
  {
    1 - b
  }

  /** A completed or interrupted fill leaves its data in the modules of its bank. */
  function Store(mem: seq<int>, k: nat, hit: set<nat>): (r: seq<int>)
    ensures |r| == |mem|
    ensures forall i :: 0 <= i < |mem| ==> r[i] == if i % 2 != k % 2 then mem[i] else if i in hit then k else -1
  {
    seq(|mem|, i requires 0 <= i < |mem| => if i % 2 != k % 2 then mem[i] else if i in hit then k else -1)
  }

  predicate Shape(s: State) {
    |s.full| == 2 && |s.flag| == 2 && |s.mem| == N_MODULES && s.pBuf < 2
  }

  predicate Enabled(s: State, a: Action) {
    && Shape(s)
    && match a
       case Overflow(hit) => !s.full[s.fills % 2] && !s.pc.Stopped? && !(s.pc.Draining? && s.pc.kind == Last)
       case Poll => s.pc.Idle?
       case Glitch(value) => s.pc.Idle? && value > 3
       case Visit => s.pc.Draining? && s.pc.m < N_MODULES
       case FinishBank => s.pc.Draining? && s.pc.m >= N_MODULES && s.pc.bank < 2
       case Stop(rest) => s.pc.Idle? && (s.full[s.fills % 2] ==> rest == {})
  }

  function FlagValue(s: State): int
    requires Shape(s)
  {
    (if s.flag[0] then 1 else 0) + (if s.flag[1] then 2 else 0)
  }

  /** A module that holds data is read, sent and reset. */
  function TakeModule(s: State, m: nat): State
    requires m < |s.mem|
  {
    if s.mem[m] >= 0 then s.(log := s.log + [(s.mem[m], m)], mem := s.mem[m := -1]) else s
  }

  function Apply(s: State, a: Action): State
    requires Enabled(s, a)
  {
    match a
    case Overflow(hit) =>
      var b := s.fills % 2;
      s.(fills := s.fills + 1, hits := s.hits + [hit], full := s.full[b := true], flag := s.flag[b := true],
         mem := Store(s.mem, s.fills, hit))
    case Poll =>
      var v := FlagValue(s);
      if v == 0 then s.(iBuf := 0)
      else if v <= 2 then s.(iBuf := v - 1, flag := [false, false], pc := Draining(Single, v - 1, v - 1))
      else
        var p := Toggle(s.pBuf);
        s.(iBuf := v, flag := [false, false], pBuf := p, pc := Draining(DoubleFirst, p, p))
    case Glitch(value) => s.(iBuf := value)
    case Visit => TakeModule(s, s.pc.m).(pc := s.pc.(m := s.pc.m + 2))
    case FinishBank =>
      var b := s.pc.bank;
      var t := s.(full := s.full[b := false], drained := s.drained + 1);
      (match s.pc.kind
       case Single => t.(pBuf := b, iBuf := b + 1, pc := Idle)
       case DoubleFirst => var p := Toggle(s.pBuf); t.(pBuf := p, pc := Draining(DoubleSecond, p, p))
       case DoubleSecond => t.(pc := Idle)
       case Last => t.(full := s.full, pBuf := 1, iBuf := 1, pc := Stopped))
    case Stop(rest) =>
      var p := Toggle(s.pBuf);
      var mem := if s.full[s.fills % 2] then s.mem else Store(s.mem, s.fills, rest);
      s.(hits := s.hits + [rest], mem := mem, pBuf := p, pc := Draining(Last, p, p))
  }

  predicate Init(s: State) {
    && s.fills == 0 && s.hits == [] && s.full == [false, false] && s.flag == [false, false]
    && s.mem == seq(N_MODULES, i => -1) && s.pBuf == 1 && s.pc == Idle && s.drained == 0 && s.log == []
  }

  // ---- What should come out ----

  /** The data blocks of fill `k` from module `m` on: every module of its parity that holds data. */
  function Visits(k: nat, hit: set<nat>, m: nat): seq<(nat, nat)>
    decreases N_MODULES - m
  {
    if m >= N_MODULES then [] else (if m in hit then [(k, m)] else []) + Visits(k, hit, m + 2)
  }

  /** The data blocks of the first `n` fills in filling order. */
  function InOrder(hits: seq<set<nat>>, n: nat): seq<(nat, nat)>
    requires n <= |hits|
  {
    if n == 0 then [] else InOrder(hits, n - 1) + Visits(n - 1, hits[n - 1], (n - 1) % 2)
  }

  lemma {:induction false} InOrderPrefix(hits: seq<set<nat>>, hits': seq<set<nat>>, n: nat)
    requires n <= |hits| && hits <= hits'
    ensures InOrder(hits', n) == InOrder(hits, n)
    decreases n
  {
    if n > 0 {
      InOrderPrefix(hits, hits', n - 1);
    }
  }

  /** The fill has nothing to send. */
  predicate Empty(hits: seq<set<nat>>, k: nat)
    requires k < |hits|
  {
    Visits(k, hits[k], k % 2) == []
  }

  predicate AllEmpty(hits: seq<set<nat>>, n: nat, n': nat)
    requires n <= n' <= |hits|
  {
    forall k :: n <= k < n' ==> Empty(hits, k)
  }

  /** The blocks of each fill. */
  function Parts(hits: seq<set<nat>>): (r: seq<seq<(nat, nat)>>)
    ensures |r| == |hits| && forall k :: 0 <= k < |hits| ==> r[k] == Visits(k, hits[k], k % 2)
  {
    seq(|hits|, k requires 0 <= k < |hits| => Visits(k, hits[k], k % 2))
  }

  function Join(parts: seq<seq<(nat, nat)>>, n: nat): seq<(nat, nat)>
    requires n <= |parts|
  {
    if n == 0 then [] else Join(parts, n - 1) + parts[n - 1]
  }

  predicate NoBlocks(parts: seq<seq<(nat, nat)>>, n: nat, n': nat)
    requires n <= n' <= |parts|
  {
    forall k :: n <= k < n' ==> parts[k] == []
  }

  lemma {:induction false} JoinSame(parts: seq<seq<(nat, nat)>>, n: nat, n': nat)
    requires n <= n' <= |parts|
    ensures |Join(parts, n)| <= |Join(parts, n')|
    ensures Join(parts, n) == Join(parts, n') <==> NoBlocks(parts, n, n')
    decreases n'
  {
    if n < n' {
      JoinSame(parts, n, n' - 1);
      SameGlue(Join(parts, n), Join(parts, n' - 1), parts[n' - 1]);
      assert NoBlocks(parts, n, n') <==> NoBlocks(parts, n, n' - 1) && parts[n' - 1] == [];
    }
  }

  lemma SameGlue(a: seq<(nat, nat)>, b: seq<(nat, nat)>, v: seq<(nat, nat)>)
    requires |a| <= |b|
    ensures |a| <= |b + v| && (a == b + v <==> a == b && v == [])
  {
    if v == [] {
      assert b + v == b;
    }
  }

  lemma {:induction false} InOrderIsJoin(hits: seq<set<nat>>, parts: seq<seq<(nat, nat)>>, n: nat)
    requires parts == Parts(hits) && n <= |hits|
    ensures InOrder(hits, n) == Join(parts, n)
  {
    if n > 0 {
      InOrderIsJoin(hits, parts, n - 1);
    }
  }

  /** The blocks of more fills are the same blocks exactly when the fills in between have none. */
  lemma InOrderSame(hits: seq<set<nat>>, n: nat, n': nat)
    requires n <= n' <= |hits|
    ensures InOrder(hits, n) == InOrder(hits, n') <==> AllEmpty(hits, n, n')
  {
    var parts := Parts(hits);
    InOrderIsJoin(hits, parts, n);
    InOrderIsJoin(hits, parts, n');
    JoinSame(parts, n, n');
    EmptyParts(hits, parts, n, n');
  }

  lemma EmptyParts(hits: seq<set<nat>>, parts: seq<seq<(nat, nat)>>, n: nat, n': nat)
    requires parts == Parts(hits) && n <= n' <= |hits|
    ensures NoBlocks(parts, n, n') <==> AllEmpty(hits, n, n')
  {
    forall k | n <= k < n' ensures parts[k] == [] <==> Empty(hits, k) {
    }
    if NoBlocks(parts, n, n') {
      forall k | n <= k < n' ensures Empty(hits, k) {
        assert parts[k] == [];
      }
    }
  }

  lemma {:induction false} VisitsMembers(k: nat, hit: set<nat>, m: nat)
    ensures forall x: nat, y: nat ::
              (x, y) in Visits(k, hit, m) <==> x == k && y in hit && m <= y < N_MODULES && y % 2 == m % 2
    decreases N_MODULES - m
  {
    if m < N_MODULES {
      var rest := Visits(k, hit, m + 2);
      VisitsMembers(k, hit, m + 2);
      forall x: nat, y: nat
        ensures (x, y) in Visits(k, hit, m) <==> x == k && y in hit && m <= y < N_MODULES && y % 2 == m % 2
      {
        assert (x, y) in Visits(k, hit, m) <==> ((x, y) == (k, m) && m in hit) || (x, y) in rest;
        NextOfParity(m, y);
      }
    }
  }

  lemma NextOfParity(m: nat, y: nat)
    ensures m <= y && y % 2 == m % 2 <==> y == m || (m + 2 <= y && y % 2 == (m + 2) % 2)
  {
  }

  lemma {:induction false} VisitsAscend(k: nat, hit: set<nat>, m: nat)
    ensures forall i :: 0 <= i < |Visits(k, hit, m)| ==> m <= Visits(k, hit, m)[i].1
    ensures forall i, j :: 0 <= i < j < |Visits(k, hit, m)| ==> Visits(k, hit, m)[i].1 < Visits(k, hit, m)[j].1
    decreases N_MODULES - m
  {
    if m < N_MODULES {
      VisitsAscend(k, hit, m + 2);
    }
  }

  /** A drain sends each module of its parity that holds data exactly once, in ascending order. */
  lemma VisitsEachOnce(k: nat, hit: set<nat>)
    ensures var v := Visits(k, hit, k % 2);
            && (forall i, j :: 0 <= i < j < |v| ==> v[i].1 < v[j].1)
            && (forall x: nat, y: nat :: (x, y) in v <==> x == k && y in hit && y < 12 && y % 2 == k % 2)
  {
    VisitsMembers(k, hit, k % 2);
    VisitsAscend(k, hit, k % 2);
    forall y: nat | y % 2 == k % 2 ensures k % 2 <= y { }
  }

  // ---- The invariant ----

  /** How far the flags read so far have told the collector about completed fills. */
  function Acknowledged(s: State): nat {
    if s.pc.Draining? && s.pc.kind != Last then s.drained + (if s.pc.kind == DoubleFirst then 2 else 1) else s.drained
  }

  /** Fill `drained` is in bank `drained % 2`, the one after it in the other bank. */
  predicate FlagInv(s: State)
    requires Shape(s)
  {
    var b, d, a := s.drained % 2, s.drained, Acknowledged(s);
    && a <= s.fills <= d + 2
    && s.full[b] == (s.fills > d) && s.full[1 - b] == (s.fills > d + 1)
    && s.flag[b] == (a == d && s.fills > d) && s.flag[1 - b] == (a <= d + 1 && s.fills > d + 1)
  }

  /** Fill `k` is in the modules of its bank. */
  predicate Waiting(s: State, k: nat)
    requires Shape(s)
  {
    k < |s.hits| && (k < s.fills || !s.full[k % 2])
  }

  /** The bank of fill `k` holds the data of that fill from module `from` on, if it is waiting, and nothing else. */
  predicate Holds(s: State, k: nat, from: nat)
    requires Shape(s)
  {
    BankHolds(s.mem, s.hits, Waiting(s, k), k, from)
  }

  predicate BankHolds(mem: seq<int>, hits: seq<set<nat>>, waiting: bool, k: nat, from: nat) {
    && |mem| == N_MODULES && (waiting ==> k < |hits|)
    && forall i :: 0 <= i < N_MODULES && i % 2 == k % 2 ==>
         mem[i] == if from <= i && waiting && i in hits[k] then k else -1
  }

  predicate MemInv(s: State)
    requires Shape(s)
  {
    Holds(s, s.drained, if s.pc.Draining? then s.pc.m else 0) && Holds(s, s.drained + 1, 0)
  }

  /** The stop has come; the last of `hits` is the unfinished fill. */
  predicate Ending(s: State) { s.pc.Stopped? || (s.pc.Draining? && s.pc.kind == Last) }

  /** Control and hardware: everything but the blocks sent. */
  predicate ControlInv(s: State) {
    && Shape(s)
    && |s.hits| == s.fills + (if Ending(s) then 1 else 0)
    && (Ending(s) && s.full[s.fills % 2] ==> s.hits[s.fills] == {})
    && match s.pc
       case Idle => s.drained <= s.fills && s.pBuf == 1 - s.drained % 2 && FlagInv(s) && MemInv(s)
       case Draining(kind, bank, m) =>
         && bank == s.drained % 2 && m % 2 == bank && s.drained < |s.hits|
         && s.pBuf == (if kind == Single then 1 - bank else bank)
         && FlagInv(s) && MemInv(s)
       case Stopped =>
         && 0 < s.drained <= |s.hits| && s.pBuf == 1 && (s.drained < |s.hits| ==> Waiting(s, s.drained))
         && (s.drained + 1 < |s.hits| ==> |s.hits| == s.drained + 2 && s.hits[s.drained + 1] == {})
         && Holds(s, s.drained - 1, N_MODULES) && Holds(s, s.drained, 0)
  }

  /** The blocks sent, together with those the current drain has still to send, are in filling order. */
  predicate LogInv(s: State)
    requires s.drained < |s.hits| || (s.drained == |s.hits| && !s.pc.Draining?)
  {
    if s.pc.Draining? then s.log + Visits(s.drained, s.hits[s.drained], s.pc.m) == InOrder(s.hits, s.drained + 1)
    else s.log == InOrder(s.hits, s.drained)
  }

  predicate Inv(s: State) { ControlInv(s) && LogInv(s) }

  lemma Parity(k: nat)
    ensures (k + 1) % 2 == 1 - k % 2 && (k + 2) % 2 == k % 2
  {
  }

  lemma OverflowControl(s: State, hit: set<nat>)
    requires ControlInv(s) && Enabled(s, Overflow(hit))
    ensures ControlInv(Apply(s, Overflow(hit)))
  {
    Parity(s.drained);
    assert s.fills == s.drained || s.fills == s.drained + 1;
    assert FlagInv(Apply(s, Overflow(hit)));
  }

  lemma PollControl(s: State)
    requires ControlInv(s) && Enabled(s, Poll)
    ensures ControlInv(Apply(s, Poll))
    ensures s.fills > s.drained ==> Apply(s, Poll).pc.Draining? && Apply(s, Poll).pc.m == s.drained % 2
    ensures s.fills == s.drained ==> Apply(s, Poll).pc.Idle?
  {
    Parity(s.drained);
  }

  lemma VisitControl(s: State)
    requires ControlInv(s) && Enabled(s, Visit)
    ensures ControlInv(Apply(s, Visit))
    ensures s.mem[s.pc.m] == if s.pc.m in s.hits[s.drained] then s.drained else -1
  {
    Parity(s.drained);
    Parity(s.pc.m);
    assert Waiting(s, s.drained);
    VisitMem(s);
    assert FlagInv(Apply(s, Visit));
  }

  lemma VisitMem(s: State)
    requires ControlInv(s) && Enabled(s, Visit)
    ensures Shape(Apply(s, Visit)) && MemInv(Apply(s, Visit))
  {
    Parity(s.drained);
    TakeKeeps(s, TakeModule(s, s.pc.m), s.drained, s.pc.m);
  }

  /** Taking module `m` moves the place from which its bank holds data; the other bank is not touched. */
  lemma TakeKeeps(s: State, t: State, k: nat, m: nat)
    requires Shape(s) && m < N_MODULES && m % 2 == k % 2 && t == TakeModule(s, m)
    requires Holds(s, k, m) && Holds(s, k + 1, 0)
    ensures Shape(t) && Holds(t, k, m + 2) && Holds(t, k + 1, 0)
  {
    Parity(k);
    Parity(m);
  }

  lemma FinishControl(s: State)
    requires ControlInv(s) && Enabled(s, FinishBank)
    ensures ControlInv(Apply(s, FinishBank))
  {
    Parity(s.drained);
    if s.pc.kind != Last {
      FinishFlags(s);
      FinishMem(s);
    }
  }

  lemma FinishFlags(s: State)
    requires ControlInv(s) && Enabled(s, FinishBank) && s.pc.kind != Last
    ensures Shape(Apply(s, FinishBank)) && FlagInv(Apply(s, FinishBank))
  {
    Parity(s.drained);
    Parity(s.drained + 1);
  }

  lemma FinishMem(s: State)
    requires ControlInv(s) && Enabled(s, FinishBank) && s.pc.kind != Last
    ensures Shape(Apply(s, FinishBank)) && MemInv(Apply(s, FinishBank))
  {
    var t, d := Apply(s, FinishBank), s.drained;
    Parity(d);
    assert Holds(t, d + 1, if t.pc.Draining? then t.pc.m else 0);
    assert Holds(t, d + 2, 0);
  }

  lemma StopControl(s: State, rest: set<nat>)
    requires ControlInv(s) && Enabled(s, Stop(rest))
    ensures ControlInv(Apply(s, Stop(rest)))
  {
    var t, d := Apply(s, Stop(rest)), s.drained;
    Parity(d);
    assert FlagInv(t);
    assert Holds(t, d, t.pc.m);
    assert Holds(t, d + 1, 0);
  }

  /** Sending what module `m` holds, if anything, takes it off what remains to be sent. */
  lemma VisitOne(log: seq<(nat, nat)>, k: nat, hit: set<nat>, m: nat)
    requires m < N_MODULES
    ensures (if m in hit then log + [(k, m)] else log) + Visits(k, hit, m + 2) == log + Visits(k, hit, m)
  {
    var rest := Visits(k, hit, m + 2);
    assert log + [(k, m)] + rest == log + ([(k, m)] + rest);
    assert [] + rest == rest;
  }

  lemma OverflowLog(s: State, hit: set<nat>)
    requires Inv(s) && Enabled(s, Overflow(hit))
    ensures ControlInv(Apply(s, Overflow(hit))) && LogInv(Apply(s, Overflow(hit)))
  {
    OverflowControl(s, hit);
    InOrderPrefix(s.hits, s.hits + [hit], s.drained + if s.pc.Draining? then 1 else 0);
  }

  lemma PollLog(s: State)
    requires Inv(s) && Enabled(s, Poll)
    ensures ControlInv(Apply(s, Poll)) && LogInv(Apply(s, Poll))
  {
    PollControl(s);
  }

  lemma VisitLog(s: State)
    requires Inv(s) && Enabled(s, Visit)
    ensures ControlInv(Apply(s, Visit)) && LogInv(Apply(s, Visit))
  {
    VisitControl(s);
    VisitOne(s.log, s.drained, s.hits[s.drained], s.pc.m);
  }

  lemma FinishLog(s: State)
    requires Inv(s) && Enabled(s, FinishBank)
    ensures ControlInv(Apply(s, FinishBank)) && LogInv(Apply(s, FinishBank))
  {
    FinishControl(s);
    FinishPc(s);
    DrainDone(s);
    SentUpTo(Apply(s, FinishBank));
  }

  lemma FinishPc(s: State)
    requires ControlInv(s) && Enabled(s, FinishBank)
    ensures var t := Apply(s, FinishBank);
            && t.log == s.log && t.hits == s.hits && t.drained == s.drained + 1
            && (t.pc.Draining? ==> t.pc.m == t.drained % 2 && t.drained < |t.hits|)
  {
    Parity(s.drained);
  }

  /** Where one drain has ended and the next, if any, is about to begin. */
  lemma SentUpTo(t: State)
    requires t.drained <= |t.hits| && t.log == InOrder(t.hits, t.drained)
    requires t.pc.Draining? ==> t.pc.m == t.drained % 2 && t.drained < |t.hits|
    ensures LogInv(t)
  {
    if t.pc.Draining? {
      NextDrain(t.hits, t.drained, t.log);
    }
  }

  /** What has been sent and what the next drain will send, in order. */
  lemma NextDrain(hits: seq<set<nat>>, d: nat, log: seq<(nat, nat)>)
    requires d < |hits| && log == InOrder(hits, d)
    ensures log + Visits(d, hits[d], d % 2) == InOrder(hits, d + 1)
  {
  }

  lemma DrainDone(s: State)
    requires Inv(s) && s.pc.Draining? && s.pc.m >= N_MODULES
    ensures s.log == InOrder(s.hits, s.drained + 1)
  {
    assert Visits(s.drained, s.hits[s.drained], s.pc.m) == [];
    assert s.log + [] == s.log;
  }

  lemma StopLog(s: State, rest: set<nat>)
    requires Inv(s) && Enabled(s, Stop(rest))
    ensures ControlInv(Apply(s, Stop(rest))) && LogInv(Apply(s, Stop(rest)))
  {
    StopControl(s, rest);
    InOrderPrefix(s.hits, s.hits + [rest], s.drained);
  }

  lemma GlitchControl(s: State, value: int)
    requires ControlInv(s) && Enabled(s, Glitch(value))
    ensures ControlInv(Apply(s, Glitch(value)))
  {
    var t := Apply(s, Glitch(value));
    assert FlagInv(t);
    assert MemInv(t);
  }

  lemma GlitchKeeps(s: State, value: int)
    requires Inv(s) && Enabled(s, Glitch(value))
    ensures Inv(Apply(s, Glitch(value)))
  {
    GlitchControl(s, value);
  }

  lemma StepKeeps(s: State, a: Action)
    requires Inv(s) && Enabled(s, a)
    ensures Inv(Apply(s, a))
  {
    match a {
      case Overflow(hit) => OverflowLog(s, hit);
      case Poll => PollLog(s);
      case Glitch(v) => GlitchKeeps(s, v);
      case Visit => VisitLog(s);
      case FinishBank => FinishLog(s);
      case Stop(rest) => StopLog(s, rest);
    }
  }

  // ---- Runs ----

  ghost predicate Run(s: State, acts: seq<Action>, t: State)
    decreases |acts|
  {
    if acts == [] then t == s
    else Enabled(s, acts[0]) && Run(Apply(s, acts[0]), acts[1..], t)
  }

  lemma {:induction false} RunKeeps(s: State, acts: seq<Action>, t: State)
    requires Inv(s) && Run(s, acts, t)
    ensures Inv(t)
    decreases |acts|
  {
    if acts != [] {
      StepKeeps(s, acts[0]);
      RunKeeps(Apply(s, acts[0]), acts[1..], t);
    }
  }

  lemma InitInv(s: State)
    requires Init(s)
    ensures Inv(s)
  {
  }

  lemma Reach(s: State, acts: seq<Action>, t: State)
    requires Init(s) && Run(s, acts, t)
    ensures Inv(t)
  {
    InitInv(s);
    RunKeeps(s, acts, t);
  }

  /** Over any mix of single and double overflows, `pBuf` names the bank drained last and the data
      blocks sent are those of the drained fills in filling order. */
  lemma DrainedInFillingOrder(s: State, acts: seq<Action>, t: State)
    requires Init(s) && Run(s, acts, t) && t.pc.Idle?
    ensures t.drained <= |t.hits| && t.log == InOrder(t.hits, t.drained)
    ensures t.drained > 0 ==> t.pBuf == (t.drained - 1) % 2
  {
    Reach(s, acts, t);
    if t.drained > 0 { Parity(t.drained - 1); }
  }

  /** In the middle of a drain the blocks sent so far are a prefix of that order. */
  lemma SentSoFarIsPrefix(s: State, acts: seq<Action>, t: State)
    requires Init(s) && Run(s, acts, t) && t.pc.Draining?
    ensures t.drained < |t.hits| && t.log <= InOrder(t.hits, t.drained + 1)
  {
    Reach(s, acts, t);
  }

  /** Once a stop has begun no bank is filled any more and exactly one is drained. */
  lemma {:induction false} LastPhase(s: State, acts: seq<Action>, t: State)
    requires s.pc.Stopped? || (s.pc.Draining? && s.pc.kind == Last)
    requires Run(s, acts, t) && t.pc.Stopped?
    ensures t.hits == s.hits && t.fills == s.fills
    ensures t.drained == s.drained + if s.pc.Draining? then 1 else 0
    decreases |acts|
  {
    if acts != [] {
      LastPhase(Apply(s, acts[0]), acts[1..], t);
    }
  }

  /** What the flags say when the collector looks at them: how many completed fills are undrained. */
  lemma FlagsTell(s: State)
    requires ControlInv(s) && s.pc.Idle?
    ensures FlagValue(s) == 0 <==> s.fills == s.drained
    ensures FlagValue(s) == 1 || FlagValue(s) == 2 <==> s.fills == s.drained + 1
    ensures FlagValue(s) == 3 <==> s.fills == s.drained + 2
    ensures FlagValue(s) == 3 ==> s.full[0] && s.full[1]
  {
    Parity(s.drained);
  }

  lemma StopResult(u: State, rest: set<nat>, more: seq<Action>, t: State)
    requires Inv(u) && Enabled(u, Stop(rest))
    requires Run(Apply(u, Stop(rest)), more, t) && t.pc.Stopped?
    ensures t.hits == u.hits + [rest] && u.drained < |t.hits| && t.log == InOrder(t.hits, u.drained + 1)
  {
    StopLog(u, rest);
    RunKeeps(Apply(u, Stop(rest)), more, t);
    LastPhase(Apply(u, Stop(rest)), more, t);
  }

  /**
   A stop drains exactly one more bank, in filling order; `rest` is what the bank being filled holds.
   So everything has been sent if and only if the fills behind that bank hold nothing.
   */
  lemma StopDrainsTheFillingBank(s: State, acts: seq<Action>, u: State, rest: set<nat>, more: seq<Action>, t: State)
    requires Init(s) && Run(s, acts, u) && Enabled(u, Stop(rest))
    requires Run(Apply(u, Stop(rest)), more, t) && t.pc.Stopped?
    ensures t.hits == u.hits + [rest] && u.drained < |t.hits| && t.log == InOrder(t.hits, u.drained + 1)
    ensures t.log == InOrder(t.hits, |t.hits|) <==> AllEmpty(t.hits, u.drained + 1, |t.hits|)
  {
    Reach(s, acts, u);
    StopResult(u, rest, more, t);
    InOrderSame(t.hits, u.drained + 1, |t.hits|);
  }

  /**
   What the flags at the stop tell. No overflow pending: everything is sent. One pending: everything is
   sent if and only if the bank being filled is empty. Both pending: nothing is being filled, and
   everything is sent if and only if the second of the two completed banks is empty.
   */
  predicate SentByFlags(flags: int, hits: seq<set<nat>>, everything: bool) {
    var n := |hits|;
    && 0 <= flags <= 3
    && (flags == 0 ==> everything)
    && (flags == 1 || flags == 2 ==> n >= 2 && (everything <==> Empty(hits, n - 1)))
    && (flags == 3 ==> n >= 3 && hits[n - 1] == {} && (everything <==> Empty(hits, n - 2)))
  }

  lemma StopByFlags(s: State, acts: seq<Action>, u: State, rest: set<nat>, more: seq<Action>, t: State)
    requires Init(s) && Run(s, acts, u) && Enabled(u, Stop(rest))
    requires Run(Apply(u, Stop(rest)), more, t) && t.pc.Stopped?
    ensures SentByFlags(FlagValue(u), t.hits, t.log == InOrder(t.hits, |t.hits|))
  {
    StopDrainsTheFillingBank(s, acts, u, rest, more, t);
    StopFlags(s, acts, u, rest, t.hits);
    VerdictByFlags(t.hits, u.drained, FlagValue(u), t.log == InOrder(t.hits, |t.hits|));
  }

  lemma VerdictByFlags(hits: seq<set<nat>>, d: nat, flags: int, everything: bool)
    requires StopShape(hits, d, flags)
    requires everything <==> AllEmpty(hits, d + 1, |hits|)
    ensures SentByFlags(flags, hits, everything)
  {
    BehindTheDrain(hits, d);
    if flags == 3 {
      NoHitsIsEmpty(hits, d + 2);
    }
  }

  lemma NoHitsIsEmpty(hits: seq<set<nat>>, k: nat)
    requires k < |hits| && hits[k] == {}
    ensures Empty(hits, k)
  {
    NoHitsNoVisits(k, k % 2);
  }

  /** The fills behind fill `d` at a stop, the unfinished one last. */
  predicate StopShape(hits: seq<set<nat>>, d: nat, flags: int) {
    && 0 <= flags <= 3 && |hits| == d + 1 + (if flags == 0 then 0 else if flags == 3 then 2 else 1)
    && (flags == 3 ==> hits[d + 2] == {})
  }

  lemma StopFlags(s: State, acts: seq<Action>, u: State, rest: set<nat>, hits: seq<set<nat>>)
    requires Init(s) && Run(s, acts, u) && Enabled(u, Stop(rest)) && hits == u.hits + [rest]
    ensures StopShape(hits, u.drained, FlagValue(u))
  {
    Reach(s, acts, u);
    StopFlagsAt(u, rest, hits);
  }

  lemma StopFlagsAt(u: State, rest: set<nat>, hits: seq<set<nat>>)
    requires ControlInv(u) && Enabled(u, Stop(rest)) && hits == u.hits + [rest]
    ensures StopShape(hits, u.drained, FlagValue(u))
  {
    FlagsTell(u);
  }

  lemma BehindTheDrain(hits: seq<set<nat>>, d: nat)
    requires d < |hits| <= d + 3
    ensures |hits| == d + 1 ==> AllEmpty(hits, d + 1, |hits|)
    ensures |hits| == d + 2 ==> (AllEmpty(hits, d + 1, |hits|) <==> Empty(hits, d + 1))
    ensures |hits| == d + 3 ==> (AllEmpty(hits, d + 1, |hits|) <==> Empty(hits, d + 1) && Empty(hits, d + 2))
  {
  }

  lemma {:induction false} NoHitsNoVisits(k: nat, m: nat)
    ensures Visits(k, {}, m) == []
    decreases N_MODULES - m
  {
    if m < N_MODULES {
      NoHitsNoVisits(k, m + 2);
    }
  }
}
