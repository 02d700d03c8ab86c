/**
 What the commands bring about: START leads to a Start block and STOP to a final drain and an End, from
 every reachable state.  Status values and commands are the plain numbers of the protocol: 0 stop, 1 start,
 2 off, 3 on; commands 1 START and 2 STOP.
 */
module RunProgress {
  import opened RunControl

  // ---- The command threads ----

  /** The thread waits for a message and nobody holds the lock. */
  predicate Ready(s: State, i: nat) { i in s.commands && s.commands[i].Listening? && s.lock.Free? }

  /** What one command, taken without interruption, does to the status. */
  lemma CommandTaken(s: State, i: nat, msg: Msg) returns (t: State)
    requires Ready(s, i) && (msg.command == 1 || msg.command == 2)
    ensures Run(s, CommandActions(i, msg), t) && Ready(t, i)
    ensures t == s.(mb := msg, status := t.status, early := t.early, commands := s.commands)
    ensures msg.command == 1 && s.status == 2 ==> t.status == 1
    ensures msg.command == 2 && (s.status == 3 || s.status == 1) ==> t.status == 0
    ensures msg.command == 1 && s.status != 2 ==> t.status == s.status
    ensures msg.command == 2 && (s.status == 0 || s.status == 2) ==> t.status == s.status
  {
    t := TakeCommand(s, i, msg);
    assert s.commands[i := Listening] == s.commands;
  }

  /** Any other command leaves everything but the message buffer alone. */
  lemma OtherCommandTaken(s: State, i: nat, msg: Msg)
    requires Ready(s, i) && msg.command != 1 && msg.command != 2
    ensures Enabled(s, Receive(i, msg)) && Enabled(Apply(s, Receive(i, msg)), Decode(i))
    ensures Apply(Apply(s, Receive(i, msg)), Decode(i)) == s.(mb := msg)
  {
    assert s.commands[i := Received][i := Listening] == s.commands;
  }

  // ---- The collector's own steps ----

  predicate CollectorStep(a: Action) {
    a.CollectorLock? || a.Switch? || a.SendStart? || a.Poll? || a.SendData? || a.SendFinalScaler? || a.SendFinal?
  }

  /** A run in which only the collector moves. */
  ghost predicate Alone(s: State, acts: seq<Action>, t: State) {
    Run(s, acts, t) && forall k :: 0 <= k < |acts| ==> CollectorStep(acts[k])
  }

  lemma AloneCons(s: State, a: Action, rest: seq<Action>, t: State)
    requires Enabled(s, a) && CollectorStep(a) && Alone(Apply(s, a), rest, t)
    ensures Alone(s, [a] + rest, t)
  {
    RunOne(s, a, rest, t);
  }

  lemma AloneConcat(s: State, a: seq<Action>, u: State, b: seq<Action>, t: State)
    requires Alone(s, a, u) && Alone(u, b, t)
    ensures Alone(s, a + b, t)
  {
    RunConcat(s, a, u, b, t);
  }

  lemma Nothing(s: State)
    ensures Alone(s, [], s)
  {
  }

  function Repeat(b: Block, n: nat): (r: seq<Block>)
    ensures |r| == n && forall i :: 0 <= i < n ==> r[i] == b
  {
    seq(n, _ => b)
  }

  /** With the lock free the collector comes back to the top of its loop, whatever it is doing. */
  lemma ToTop(s: State) returns (acts: seq<Action>, t: State)
    requires s.lock.Free? && !s.collector.AtSwitch?
    ensures Alone(s, acts, t) && t.collector.AtTop? && s.emitted <= t.emitted
    ensures t == s.(collector := AtTop, emitted := t.emitted, cmb := t.cmb)
  {
    match s.collector {
      case AtTop =>
        acts, t := [], s;
      case Starting =>
        t := Apply(s, SendStart);
        Nothing(t);
        AloneCons(s, SendStart, [], t);
        acts := [SendStart] + [];
      case Polling =>
        t := Apply(s, Poll(false));
        Nothing(t);
        AloneCons(s, Poll(false), [], t);
        acts := [Poll(false)] + [];
      case ReadingOut =>
        t := Apply(s, SendData(false));
        Nothing(t);
        AloneCons(s, SendData(false), [], t);
        acts := [SendData(false)] + [];
      case Draining =>
        t := Apply(s, SendFinal(false));
        Nothing(t);
        AloneCons(s, SendFinal(false), [], t);
        acts := [SendFinal(false)] + [];
      case Stopping =>
        var u := Apply(s, SendFinalScaler);
        t := Apply(u, SendFinal(false));
        Nothing(t);
        AloneCons(u, SendFinal(false), [], t);
        AloneCons(s, SendFinalScaler, [SendFinal(false)] + [], t);
        acts := [SendFinalScaler] + ([SendFinal(false)] + []);
    }
  }

  predicate AtRest(s: State, status: int) { s.lock.Free? && s.collector.AtTop? && s.status == status }

  /** Status 1: the Start block goes out with the message in the buffer, and the run is on. */
  lemma StartSession(s: State) returns (acts: seq<Action>, t: State)
    requires AtRest(s, 1)
    ensures Alone(s, acts, t)
    ensures t == s.(status := 3, cmb := s.mb, emitted := s.emitted + [Start(s.mb)])
  {
    var s1 := Apply(s, CollectorLock);
    var s2 := Apply(s1, Switch);
    t := Apply(s2, SendStart);
    Nothing(t);
    AloneCons(s2, SendStart, [], t);
    AloneCons(s1, Switch, [SendStart] + [], t);
    AloneCons(s, CollectorLock, [Switch] + ([SendStart] + []), t);
    acts := [CollectorLock] + ([Switch] + ([SendStart] + []));
  }

  lemma {:induction false} DataBlocks(s: State, n: nat) returns (acts: seq<Action>, t: State)
    requires s.collector.ReadingOut?
    ensures Alone(s, acts, t) && t == s.(collector := AtTop, emitted := s.emitted + Repeat(Data(false), n))
    decreases n
  {
    if n == 0 {
      t := Apply(s, SendData(false));
      Nothing(t);
      AloneCons(s, SendData(false), [], t);
      acts := [SendData(false)] + [];
      assert s.emitted + Repeat(Data(false), 0) == s.emitted;
    } else {
      var rest;
      rest, t := DataBlocks(Apply(s, SendData(true)), n - 1);
      AloneCons(s, SendData(true), rest, t);
      acts := [SendData(true)] + rest;
      assert s.emitted + [Data(false)] + Repeat(Data(false), n - 1) == s.emitted + Repeat(Data(false), n);
    }
  }

  lemma {:induction false} FinalBlocks(s: State, n: nat) returns (acts: seq<Action>, t: State)
    requires s.collector.Draining?
    ensures Alone(s, acts, t)
    ensures t == s.(collector := AtTop, emitted := s.emitted + Repeat(Data(true), n) + [End(s.cmb)])
    decreases n
  {
    if n == 0 {
      t := Apply(s, SendFinal(false));
      Nothing(t);
      AloneCons(s, SendFinal(false), [], t);
      acts := [SendFinal(false)] + [];
      assert s.emitted + Repeat(Data(true), 0) == s.emitted;
    } else {
      var rest;
      rest, t := FinalBlocks(Apply(s, SendFinal(true)), n - 1);
      AloneCons(s, SendFinal(true), rest, t);
      acts := [SendFinal(true)] + rest;
      assert s.emitted + [Data(true)] + Repeat(Data(true), n - 1) == s.emitted + Repeat(Data(true), n);
    }
  }

  /** Status 3 and an overflow: a scaler block and any number of data blocks. */
  lemma ReadoutPass(s: State, n: nat) returns (acts: seq<Action>, t: State)
    requires AtRest(s, 3)
    ensures Alone(s, acts, t)
    ensures t == s.(emitted := s.emitted + [Scaler(false)] + Repeat(Data(false), n))
  {
    var s1 := Apply(s, CollectorLock);
    var s2 := Apply(s1, Switch);
    var s3 := Apply(s2, Poll(true));
    var rest;
    rest, t := DataBlocks(s3, n);
    AloneCons(s2, Poll(true), rest, t);
    AloneCons(s1, Switch, [Poll(true)] + rest, t);
    AloneCons(s, CollectorLock, [Switch] + ([Poll(true)] + rest), t);
    acts := [CollectorLock] + ([Switch] + ([Poll(true)] + rest));
  }

  /** Status 0: the final scaler block, any number of data blocks, the End, and the run is off. */
  lemma StopSession(s: State, n: nat) returns (acts: seq<Action>, t: State)
    requires AtRest(s, 0)
    ensures Alone(s, acts, t)
    ensures t == s.(status := 2, emitted := s.emitted + [Scaler(true)] + Repeat(Data(true), n) + [End(s.cmb)])
  {
    var s1 := Apply(s, CollectorLock);
    var s2 := Apply(s1, Switch);
    var s3 := Apply(s2, SendFinalScaler);
    var rest;
    rest, t := FinalBlocks(s3, n);
    AloneCons(s2, SendFinalScaler, rest, t);
    AloneCons(s1, Switch, [SendFinalScaler] + rest, t);
    AloneCons(s, CollectorLock, [Switch] + ([SendFinalScaler] + rest), t);
    acts := [CollectorLock] + ([Switch] + ([SendFinalScaler] + rest));
  }

  // ---- From every reachable state ----

  lemma Reachable(s: State, acts: seq<Action>, u: State)
    requires Init(s) && Run(s, acts, u)
    ensures u.lock.Free? ==> !u.collector.AtSwitch?
  {
    Reach(s, acts, u);
  }

  /**
   STOP is obeyed. From every reachable state with the run on, a STOP makes the status 0; then the collector,
   left alone, sends the final scaler block, `n` data blocks and the End of the command it saved, and the
   status is 2.
   */
  lemma StopIsObeyed(s: State, before: seq<Action>, u: State, i: nat, msg: Msg, n: nat)
    returns (v: State, w: State, acts: seq<Action>, t: State)
    requires Init(s) && Run(s, before, u) && Ready(u, i) && u.status == 3 && msg.command == 2
    ensures Run(u, CommandActions(i, msg), v) && v.status == 0 && v.emitted == u.emitted
    ensures Alone(v, acts, t) && t.status == 2 && v.emitted <= w.emitted
    ensures t.emitted == w.emitted + [Scaler(true)] + Repeat(Data(true), n) + [End(w.cmb)]
  {
    Reachable(s, before, u);
    v := CommandTaken(u, i, msg);
    var top, last;
    top, w := ToTop(v);
    last, t := StopSession(w, n);
    AloneConcat(v, top, w, last, t);
    acts := top + last;
  }

  /** START is obeyed: from every reachable state with the run off, the Start with its message goes out and the
      status is 3. */
  lemma StartIsObeyed(s: State, before: seq<Action>, u: State, i: nat, msg: Msg)
    returns (v: State, w: State, acts: seq<Action>, t: State)
    requires Init(s) && Run(s, before, u) && Ready(u, i) && u.status == 2 && msg.command == 1
    ensures Run(u, CommandActions(i, msg), v) && v.status == 1 && v.emitted == u.emitted
    ensures Alone(v, acts, t) && t.status == 3 && v.emitted <= w.emitted
    ensures t.emitted == w.emitted + [Start(msg)] && t.cmb == msg
  {
    Reachable(s, before, u);
    v := CommandTaken(u, i, msg);
    var top, last;
    top, w := ToTop(v);
    last, t := StartSession(w);
    AloneConcat(v, top, w, last, t);
    acts := top + last;
  }

  /** A whole run, with any numbers of data blocks: its End carries the message of its Start, not that of the
      STOP. */
  lemma WholeRun(s: State, m: Msg, stop: Msg, n: nat, k: nat) returns (acts: seq<Action>, t: State)
    requires Init(s) && 0 in s.commands && m.command == 1 && stop.command == 2
    ensures Run(s, acts, t) && t.status == 2
    ensures t.emitted == [Start(m)] + [Scaler(false)] + Repeat(Data(false), n)
                         + [Scaler(true)] + Repeat(Data(true), k) + [End(m)]
  {
    var s1 := CommandTaken(s, 0, m);
    var a2, s2 := StartSession(s1);
    var a3, s3 := ReadoutPass(s2, n);
    var s4 := CommandTaken(s3, 0, stop);
    var a5;
    a5, t := StopSession(s4, k);
    RunConcat(s3, CommandActions(0, stop), s4, a5, t);
    var rest := CommandActions(0, stop) + a5;
    RunConcat(s2, a3, s3, rest, t);
    RunConcat(s1, a2, s2, a3 + rest, t);
    RunConcat(s, CommandActions(0, m), s1, a2 + (a3 + rest), t);
    acts := CommandActions(0, m) + (a2 + (a3 + rest));
    assert [] + [Start(m)] == [Start(m)];
  }
}
