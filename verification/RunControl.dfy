/**
 Starting and stopping runs: command threads change the shared run status under a mutex while one
 collector thread walks through START, ON, STOP and OFF and emits blocks.  All interleavings; the
 command buffer `mb` is written without any lock.
 */
module RunControl {

  // Values of run_state->status.
  const RUN_STOP := 0
  const RUN_START := 1
  const RUN_OFF := 2
  const RUN_ON := 3

  const CMD_START := 1
  const CMD_STOP := 2

  datatype Msg = Msg(command: int, run: int, comment: seq<int>)

  /** The blocks that leave the collector; `final` marks those of the drain at the end of a run. */
  datatype Block =
    | Start(msg: Msg)
    | Scaler(final: bool)
    | Data(final: bool)
    | End(msg: Msg)

  datatype Lock = Free | ByCollector | ByCommand(i: nat)

  datatype CommandPc =
    | Listening                   // waiting for a message
    | Received                    // the message is in mb
    | Decoded(command: int)       // mb.command has been read
    | Locked(command: int)        // holds the lock

  datatype CollectorPc =
    | AtTop                       // before pthread_mutex_lock
    | AtSwitch                    // holds the lock, before the switch on the status
    | Starting                    // unlocked, about to encode the run-start block
    | Polling                     // unlocked in RUN_ON, before the overflow test
    | ReadingOut                  // scaler block sent, sending data blocks
    | Stopping                    // unlocked in RUN_STOP, before the scaler block
    | Draining                    // final scaler block sent, sending the last data blocks

  datatype State = State(
    lock: Lock,
    status: int,
    mb: Msg,
    cmb: Msg,
    collector: CollectorPc,
    commands: map<nat, CommandPc>,
    emitted: seq<Block>,
    early: nat)                   // STOPs that found the status at RUN_START

  datatype Action =
    | Receive(i: nat, msg: Msg)
    | Decode(i: nat)
    | CommandLock(i: nat)
    | Command(i: nat)
    | CollectorLock
    | Switch
    | SendStart
    | Poll(overflow: bool)
    | SendData(more: bool)
    | SendFinalScaler
    | SendFinal(more: bool)

  predicate Enabled(s: State, a: Action) {
    match a
    case Receive(i, msg) => i in s.commands && s.commands[i].Listening?
    case Decode(i) => i in s.commands && s.commands[i].Received?
    case CommandLock(i) => i in s.commands && s.commands[i].Decoded? && s.lock.Free?
    case Command(i) => i in s.commands && s.commands[i].Locked?
    case CollectorLock => s.collector.AtTop? && s.lock.Free?
    case Switch => s.collector.AtSwitch?
    case SendStart => s.collector.Starting?
    case Poll(_) => s.collector.Polling?
    case SendData(_) => s.collector.ReadingOut?
    case SendFinalScaler => s.collector.Stopping?
    case SendFinal(_) => s.collector.Draining?
  }

  /** Only START and STOP reach for the lock; any other command ends the connection. */
  function DecodedPc(command: int): CommandPc {
    if command == CMD_START || command == CMD_STOP then Decoded(command) else Listening
  }

  function NextStatus(status: int, command: int): int {
    if command == CMD_START && status == RUN_OFF then RUN_START
    else if command == CMD_STOP && (status == RUN_ON || status == RUN_START) then RUN_STOP
    else status
  }

  function Apply(s: State, a: Action): State
    requires Enabled(s, a)
  {
    match a
    case Receive(i, msg) => s.(mb := msg, commands := s.commands[i := Received])
    case Decode(i) => s.(commands := s.commands[i := DecodedPc(s.mb.command)])
    case CommandLock(i) => s.(lock := ByCommand(i), commands := s.commands[i := Locked(s.commands[i].command)])
    case Command(i) =>
      var c := s.commands[i].command;
      s.(status := NextStatus(s.status, c), lock := Free, commands := s.commands[i := Listening],
         early := if c == CMD_STOP && s.status == RUN_START then s.early + 1 else s.early)
    case CollectorLock => s.(lock := ByCollector, collector := AtSwitch)
    case Switch =>
      if s.status == RUN_START then s.(status := RUN_ON, lock := Free, collector := Starting)
      else if s.status == RUN_ON then s.(lock := Free, collector := Polling)
      else if s.status == RUN_STOP then s.(status := RUN_OFF, lock := Free, collector := Stopping)
      else if s.status == RUN_OFF then s.(lock := Free, collector := AtTop)
      else s.(collector := AtTop)      // the default branch forgets to unlock
    case SendStart => s.(cmb := s.mb, emitted := s.emitted + [Start(s.mb)], collector := AtTop)
    case Poll(overflow) =>
      if overflow then s.(emitted := s.emitted + [Scaler(false)], collector := ReadingOut) else s.(collector := AtTop)
    case SendData(more) =>
      if more then s.(emitted := s.emitted + [Data(false)]) else s.(collector := AtTop)
    case SendFinalScaler => s.(emitted := s.emitted + [Scaler(true)], collector := Draining)
    case SendFinal(more) =>
      if more then s.(emitted := s.emitted + [Data(true)])
      else s.(emitted := s.emitted + [End(s.cmb)], collector := AtTop)
  }

  predicate Init(s: State) {
    && s.lock == Free && s.status == RUN_OFF && s.collector == AtTop && s.emitted == [] && s.early == 0
    && forall i :: i in s.commands ==> s.commands[i] == Listening
  }

  // ---- The block stream as a language: ((Start (Scaler Data*)*)? FinalScaler FinalData* End)* ----

  datatype Phase = Closed | Started | Read | Final | Wrong

  function Advance(p: Phase, b: Block): Phase {
    match (p, b)
    case (Closed, Start(_)) => Started
    case (Closed, Scaler(true)) => Final
    case (Started, Scaler(final)) => if final then Final else Read
    case (Read, Scaler(final)) => if final then Final else Read
    case (Read, Data(false)) => Read
    case (Final, Data(true)) => Final
    case (Final, End(_)) => Closed
    case _ => Wrong
  }

  function PhaseOf(bs: seq<Block>): Phase {
    if bs == [] then Closed else Advance(PhaseOf(bs[..|bs| - 1]), bs[|bs| - 1])
  }

  /** Sessions that began with the final drain, without a Start. */
  function Bare(bs: seq<Block>): nat {
    if bs == [] then 0
    else
      var front := bs[..|bs| - 1];
      Bare(front) + if PhaseOf(front) == Closed && bs[|bs| - 1] == Scaler(true) then 1 else 0
  }

  /** The message of the last Start, or what the saved command held at the beginning. */
  function LastStart(bs: seq<Block>, initial: Msg): Msg {
    if bs == [] then initial
    else if bs[|bs| - 1].Start? then bs[|bs| - 1].msg
    else LastStart(bs[..|bs| - 1], initial)
  }

  lemma Push(bs: seq<Block>, b: Block, initial: Msg)
    ensures PhaseOf(bs + [b]) == Advance(PhaseOf(bs), b)
    ensures Bare(bs + [b]) == Bare(bs) + if PhaseOf(bs) == Closed && b == Scaler(true) then 1 else 0
    ensures LastStart(bs + [b], initial) == if b.Start? then b.msg else LastStart(bs, initial)
  {
    assert (bs + [b])[..|bs|] == bs;
  }

  // ---- The invariant ----

  predicate LockInv(s: State) {
    && (s.collector.AtSwitch? <==> s.lock == ByCollector)
    && (forall i :: i in s.commands ==> (s.commands[i].Locked? <==> s.lock == ByCommand(i)))
    && (s.lock.ByCommand? ==> s.lock.i in s.commands)
  }

  predicate InRun(p: Phase) { p == Started || p == Read }

  /** Where the collector stands, what the status says and how far the stream has come fit together. */
  predicate PhaseInv(s: State, p: Phase) {
    match s.collector
    case AtTop => if InRun(p) then On(s.status) else p == Closed && Off(s.status)
    case AtSwitch => if InRun(p) then On(s.status) else p == Closed && Off(s.status)
    case Starting => p == Closed && On(s.status)
    case Polling => InRun(p) && On(s.status)
    case ReadingOut => p == Read && On(s.status)
    case Stopping => (p == Closed || InRun(p)) && Off(s.status)
    case Draining => p == Final && Off(s.status)
  }

  predicate On(status: int) { status == RUN_ON || status == RUN_STOP }

  predicate Off(status: int) { status == RUN_OFF || status == RUN_START || status == RUN_STOP }

  /** STOPs taken at RUN_START whose bare session has not begun to appear in a stream at phase `p`. */
  function Owed(s: State, p: Phase): nat {
    (if s.collector.Stopping? && p == Closed then 1 else 0)
    + (if s.status != RUN_STOP then 0
       else match s.collector
            case AtTop => if p == Closed then 1 else 0
            case AtSwitch => if p == Closed then 1 else 0
            case Stopping => 1
            case Draining => 1
            case _ => 0)
  }

  /** The state fits a stream at phase `p` with `bare` bare sessions and `last` as its last Start. */
  predicate Fits(s: State, p: Phase, bare: nat, last: Msg) {
    LockInv(s) && PhaseInv(s, p) && bare + Owed(s, p) == s.early && last == s.cmb
  }

  predicate Inv(s: State, initial: Msg) {
    Fits(s, PhaseOf(s.emitted), Bare(s.emitted), LastStart(s.emitted, initial))
  }

  /** Every End so far carries the message of the Start it follows. */
  ghost predicate EndsMatch(bs: seq<Block>, initial: Msg) {
    forall j :: 0 <= j < |bs| && bs[j].End? ==> bs[j].msg == LastStart(bs[..j], initial)
  }

  lemma EndsMatchPush(bs: seq<Block>, b: Block, initial: Msg)
    requires EndsMatch(bs, initial) && (b.End? ==> b.msg == LastStart(bs, initial))
    ensures EndsMatch(bs + [b], initial)
  {
    forall j | 0 <= j < |bs| + 1 && (bs + [b])[j].End?
      ensures (bs + [b])[j].msg == LastStart((bs + [b])[..j], initial)
    {
      assert (bs + [b])[..j] == bs[..j];
      if j == |bs| { assert bs[..j] == bs; }
    }
  }

  /** The block a step emits, if any. */
  function Emits(s: State, a: Action): seq<Block> {
    match a
    case SendStart => [Start(s.mb)]
    case Poll(overflow) => if overflow then [Scaler(false)] else []
    case SendData(more) => if more then [Data(false)] else []
    case SendFinalScaler => [Scaler(true)]
    case SendFinal(more) => if more then [Data(true)] else [End(s.cmb)]
    case _ => []
  }

  lemma QuietStepFits(s: State, a: Action, p: Phase, bare: nat, last: Msg)
    requires Fits(s, p, bare, last) && Enabled(s, a) && Emits(s, a) == []
    ensures Fits(Apply(s, a), p, bare, last) && Apply(s, a).emitted == s.emitted
  {
  }

  lemma SendingStepFits(s: State, a: Action, p: Phase, bare: nat, last: Msg)
    requires Fits(s, p, bare, last) && Enabled(s, a) && Emits(s, a) != []
    ensures var b := Emits(s, a)[0];
            && Fits(Apply(s, a), Advance(p, b), bare + (if p == Closed && b == Scaler(true) then 1 else 0),
                    if b.Start? then b.msg else last)
            && Apply(s, a).emitted == s.emitted + [b]
            && (b.End? ==> b.msg == last)
  {
  }

  lemma StepKeeps(s: State, a: Action, initial: Msg)
    requires Inv(s, initial) && Enabled(s, a) && EndsMatch(s.emitted, initial)
    ensures Inv(Apply(s, a), initial) && EndsMatch(Apply(s, a).emitted, initial)
  {
    var p, bare, last := PhaseOf(s.emitted), Bare(s.emitted), LastStart(s.emitted, initial);
    if Emits(s, a) == [] {
      QuietStepFits(s, a, p, bare, last);
    } else {
      var b := Emits(s, a)[0];
      SendingStepFits(s, a, p, bare, last);
      Push(s.emitted, b, initial);
      EndsMatchPush(s.emitted, b, initial);
    }
  }

  // ---- Runs ----

  ghost predicate Run(s: State, acts: seq<Action>, t: State)
    decreases |acts|
  {
    if acts == [] then t == s
    else Enabled(s, acts[0]) && Run(Apply(s, acts[0]), acts[1..], t)
  }

  lemma {:induction false} RunKeeps(s: State, acts: seq<Action>, t: State, initial: Msg)
    requires Inv(s, initial) && EndsMatch(s.emitted, initial) && Run(s, acts, t)
    ensures Inv(t, initial) && EndsMatch(t.emitted, initial)
    decreases |acts|
  {
    if acts != [] {
      StepKeeps(s, acts[0], initial);
      RunKeeps(Apply(s, acts[0]), acts[1..], t, initial);
    }
  }

  lemma Reach(s: State, acts: seq<Action>, t: State)
    requires Init(s) && Run(s, acts, t)
    ensures Inv(t, s.cmb) && EndsMatch(t.emitted, s.cmb)
  {
    RunKeeps(s, acts, t, s.cmb);
  }

  lemma {:induction false} WrongStays(bs: seq<Block>, k: nat)
    requires k <= |bs| && PhaseOf(bs) != Wrong
    ensures PhaseOf(bs[..k]) != Wrong
    decreases |bs|
  {
    if k == |bs| {
      assert bs[..k] == bs;
    } else {
      var n := |bs| - 1;
      WrongStays(bs[..n], k);
      assert bs[..n][..k] == bs[..k];
    }
  }

  /** In every run the stream is a prefix of ((Start readout*)? final-drain End)*. */
  lemma StreamIsWellFormed(s: State, acts: seq<Action>, t: State, k: nat)
    requires Init(s) && Run(s, acts, t) && k <= |t.emitted|
    ensures PhaseOf(t.emitted[..k]) != Wrong
  {
    Reach(s, acts, t);
    WrongStays(t.emitted, k);
  }

  /** Between a block behind which a run is open or draining and the next Start there is an End. */
  lemma {:induction false} EndBeforeStart(bs: seq<Block>, i: nat, j: nat)
    requires PhaseOf(bs) != Wrong && i < j < |bs| && bs[i].Start? && bs[j].Start?
    ensures exists k :: i < k < j && bs[k].End?
    decreases |bs|
  {
    WrongStays(bs, j + 1);
    WrongStays(bs, j);
    assert bs[..j + 1][..j] == bs[..j];
    assert PhaseOf(bs[..j]) == Closed;
    var k := LastEnd(bs[..j], i);
    assert bs[k].End?;
  }

  lemma {:induction false} LastEnd(bs: seq<Block>, i: nat) returns (k: nat)
    requires PhaseOf(bs) == Closed && i < |bs| && bs[i].Start?
    ensures i < k < |bs| && bs[k].End?
    decreases |bs|
  {
    k := |bs| - 1;
    assert PhaseOf(bs) == Advance(PhaseOf(bs[..k]), bs[k]);
    if i == k { assert false; }
  }

  /** An End always comes before the next Start, even when START was accepted before that End was sent. */
  lemma EndPrecedesNextStart(s: State, acts: seq<Action>, t: State, i: nat, j: nat)
    requires Init(s) && Run(s, acts, t) && i < j < |t.emitted| && t.emitted[i].Start? && t.emitted[j].Start?
    ensures exists k :: i < k < j && t.emitted[k].End?
  {
    Reach(s, acts, t);
    EndBeforeStart(t.emitted, i, j);
  }

  /** Sessions without a Start are exactly the STOPs that caught the status at RUN_START -- those whose
      session has begun, plus those still owed.  So with no such STOP every session has its Start, and
      when nothing is owed the converse holds too. */
  lemma BareSessionsCountEarlyStops(s: State, acts: seq<Action>, t: State)
    requires Init(s) && Run(s, acts, t)
    ensures Bare(t.emitted) + Owed(t, PhaseOf(t.emitted)) == t.early
    ensures t.early == 0 ==> Bare(t.emitted) == 0
    ensures t.status != RUN_STOP && !t.collector.Stopping? ==> (Bare(t.emitted) == 0 <==> t.early == 0)
  {
    Reach(s, acts, t);
  }

  /** Such a STOP happens: START and STOP both taken before the collector looks. */
  lemma EarlyStopHappens(s: State, run: Msg, stop: Msg) returns (acts: seq<Action>, t: State)
    requires Init(s) && 0 in s.commands && run.command == CMD_START && stop.command == CMD_STOP
    ensures Run(s, acts, t) && t.early == 1 && t.emitted == [Scaler(true), End(s.cmb)]
  {
    var first, second := CommandActions(0, run), CommandActions(0, stop);
    var s1 := TakeCommand(s, 0, run);
    var s2 := TakeCommand(s1, 0, stop);
    var s3 := Apply(Apply(s2, CollectorLock), Switch);
    t := Apply(Apply(s3, SendFinalScaler), SendFinal(false));
    RunOne(s3, SendFinalScaler, [SendFinal(false)], t);
    RunOne(Apply(s2, CollectorLock), Switch, [SendFinalScaler, SendFinal(false)], t);
    RunOne(s2, CollectorLock, [Switch, SendFinalScaler, SendFinal(false)], t);
    var last := [CollectorLock, Switch, SendFinalScaler, SendFinal(false)];
    RunConcat(s1, second, s2, last, t);
    RunConcat(s, first, s1, second + last, t);
    acts := first + (second + last);
  }

  lemma RunOne(s: State, a: Action, rest: seq<Action>, t: State)
    requires Enabled(s, a)
    requires Run(Apply(s, a), rest, t)
             || (|rest| == 1 && Enabled(Apply(s, a), rest[0]) && t == Apply(Apply(s, a), rest[0]))
    ensures Run(s, [a] + rest, t)
  {
    assert ([a] + rest)[1..] == rest;
    if |rest| == 1 {
      assert rest[1..] == [];
    }
  }

  lemma {:induction false} RunConcat(s: State, a: seq<Action>, u: State, b: seq<Action>, t: State)
    requires Run(s, a, u) && Run(u, b, t)
    ensures Run(s, a + b, t)
    decreases |a|
  {
    if a == [] {
      assert a + b == b;
    } else {
      RunConcat(Apply(s, a[0]), a[1..], u, b, t);
      assert (a + b)[1..] == a[1..] + b;
    }
  }

  function CommandActions(i: nat, msg: Msg): seq<Action> { [Receive(i, msg), Decode(i), CommandLock(i), Command(i)] }

  /** A command taken from its arrival to its effect with nothing in between. */
  lemma TakeCommand(s: State, i: nat, msg: Msg) returns (t: State)
    requires i in s.commands && s.commands[i].Listening? && s.lock.Free?
    requires msg.command == CMD_START || msg.command == CMD_STOP
    ensures Run(s, CommandActions(i, msg), t)
    ensures t == s.(mb := msg, status := NextStatus(s.status, msg.command), commands := s.commands[i := Listening],
                    early := if msg.command == CMD_STOP && s.status == RUN_START then s.early + 1 else s.early)
  {
    var s1 := Apply(s, Receive(i, msg));
    var s2 := Apply(s1, Decode(i));
    var s3 := Apply(s2, CommandLock(i));
    t := Apply(s3, Command(i));
    RunOne(s2, CommandLock(i), [Command(i)], t);
    RunOne(s1, Decode(i), [CommandLock(i), Command(i)], t);
    RunOne(s, Receive(i, msg), [Decode(i), CommandLock(i), Command(i)], t);
    assert [Receive(i, msg)] + [Decode(i), CommandLock(i), Command(i)] == CommandActions(i, msg);
    assert t.commands == s.commands[i := Listening];
  }

  // ---- Whose message a Start carries ----

  /** The message that came last, or the one from before. */
  function LastReceived(acts: seq<Action>, initial: Msg): Msg {
    if acts == [] then initial
    else LastReceived(acts[1..], if acts[0].Receive? then acts[0].msg else initial)
  }

  lemma {:induction false} BufferHoldsLastReceived(s: State, acts: seq<Action>, t: State)
    requires Run(s, acts, t)
    ensures t.mb == LastReceived(acts, s.mb)
    decreases |acts|
  {
    if acts != [] {
      BufferHoldsLastReceived(Apply(s, acts[0]), acts[1..], t);
    }
  }

  lemma {:induction false} NothingReceived(acts: seq<Action>, initial: Msg)
    requires forall k :: 0 <= k < |acts| ==> !acts[k].Receive?
    ensures LastReceived(acts, initial) == initial
    decreases |acts|
  {
    if acts != [] {
      NothingReceived(acts[1..], initial);
    }
  }

  /**
   Command thread `i` receives `msg`; behind `between` the collector sends a Start, for instance because
   that very command was accepted. The Start carries `msg` if and only if the last message that any thread
   received since is `msg` again -- so always, if none was received.
   */
  lemma StartCarriesItsCommandIff(s: State, i: nat, msg: Msg, between: seq<Action>, t: State)
    requires Enabled(s, Receive(i, msg)) && Run(Apply(s, Receive(i, msg)), between, t) && Enabled(t, SendStart)
    ensures Apply(t, SendStart).emitted == t.emitted + [Start(LastReceived(between, msg))]
    ensures Apply(t, SendStart).emitted == t.emitted + [Start(msg)] <==> LastReceived(between, msg) == msg
    ensures (forall k :: 0 <= k < |between| ==> !between[k].Receive?) ==> LastReceived(between, msg) == msg
  {
    BufferHoldsLastReceived(Apply(s, Receive(i, msg)), between, t);
    var m := LastReceived(between, msg);
    if t.emitted + [Start(m)] == t.emitted + [Start(msg)] {
      assert (t.emitted + [Start(m)])[|t.emitted|] == (t.emitted + [Start(msg)])[|t.emitted|];
    }
    if forall k :: 0 <= k < |between| ==> !between[k].Receive? {
      NothingReceived(between, msg);
    }
  }

  /** It does go wrong: START is accepted, another message arrives, and the Start carries that one. */
  lemma StartCarriesOtherMessage(s: State, run: Msg, other: Msg) returns (acts: seq<Action>, t: State)
    requires Init(s) && 0 in s.commands && 1 in s.commands && run.command == CMD_START
    ensures Run(s, acts, t) && t.emitted == [Start(other)]
    ensures CommandActions(0, run) <= acts
  {
    var s1 := TakeCommand(s, 0, run);
    var s2 := Apply(s1, Receive(1, other));
    var s3 := Apply(Apply(s2, CollectorLock), Switch);
    t := Apply(s3, SendStart);
    RunOne(Apply(s2, CollectorLock), Switch, [SendStart], t);
    RunOne(s2, CollectorLock, [Switch, SendStart], t);
    RunOne(s1, Receive(1, other), [CollectorLock, Switch, SendStart], t);
    var last := [Receive(1, other), CollectorLock, Switch, SendStart];
    RunConcat(s, CommandActions(0, run), s1, last, t);
    acts := CommandActions(0, run) + last;
  }

  /** Start and End in a stream without bare sessions: each End closes the Start before it. */
  lemma {:induction false} StartBeforeEnd(bs: seq<Block>, j: nat) returns (i: nat)
    requires PhaseOf(bs) != Wrong && Bare(bs) == 0 && j < |bs| && bs[j].End?
    ensures i < j && bs[i].Start? && forall k :: i < k < j ==> !bs[k].End? && !bs[k].Start?
    decreases |bs|
  {
    var n := |bs| - 1;
    assert PhaseOf(bs[..n]) != Wrong && Bare(bs[..n]) == 0;
    if j < n {
      i := StartBeforeEnd(bs[..n], j);
      assert forall k :: 0 <= k < n ==> bs[..n][k] == bs[k];
    } else {
      i := OpenedBy(bs[..n]);
      assert forall k :: 0 <= k < n ==> bs[..n][k] == bs[k];
    }
  }

  lemma {:induction false} OpenedBy(bs: seq<Block>) returns (i: nat)
    requires (InRun(PhaseOf(bs)) || PhaseOf(bs) == Final) && Bare(bs) == 0
    ensures i < |bs| && bs[i].Start? && forall k :: i < k < |bs| ==> !bs[k].End? && !bs[k].Start?
    decreases |bs|
  {
    var n := |bs| - 1;
    if bs[n].Start? {
      i := n;
    } else {
      assert PhaseOf(bs) == Advance(PhaseOf(bs[..n]), bs[n]);
      i := OpenedBy(bs[..n]);
      assert forall k :: 0 <= k < n ==> bs[..n][k] == bs[k];
    }
  }

  /** If no STOP lands on RUN_START, Start and End strictly alternate. */
  lemma StartsAndEndsAlternate(s: State, acts: seq<Action>, t: State, j: nat) returns (i: nat)
    requires Init(s) && Run(s, acts, t) && t.early == 0 && j < |t.emitted| && t.emitted[j].End?
    ensures i < j && t.emitted[i].Start?
    ensures forall k :: i < k < j ==> !t.emitted[k].End? && !t.emitted[k].Start?
  {
    Reach(s, acts, t);
    i := StartBeforeEnd(t.emitted, j);
  }

  /** Every End carries the run number and comment of the last Start before it, whatever messages have
      overwritten the command buffer since. */
  lemma EndRepeatsItsStart(s: State, acts: seq<Action>, t: State, j: nat)
    requires Init(s) && Run(s, acts, t) && j < |t.emitted| && t.emitted[j].End?
    ensures t.emitted[j].msg == LastStart(t.emitted[..j], s.cmb)
  {
    Reach(s, acts, t);
  }

  /** The status never leaves its four values, so the branch that keeps the lock is never taken: the
      collector holds the lock at the switch only. */
  lemma StatusAndLock(s: State, acts: seq<Action>, t: State)
    requires Init(s) && Run(s, acts, t)
    ensures t.status in {RUN_STOP, RUN_START, RUN_OFF, RUN_ON}
    ensures t.lock == ByCollector <==> t.collector.AtSwitch?
  {
    Reach(s, acts, t);
  }
}
