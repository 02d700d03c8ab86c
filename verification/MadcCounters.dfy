/**
 The event counters in the end-of-event words a module's stream carries after repair, for every input,
 followed through the counter table over any number of calls.
 */
module MadcCounters {
  import opened Basics
  import opened Words
  import opened MadcStream

  /** One end of event in the repaired stream: its counter, whether the repair made it up,
      and whether the counter table took note of it. */
  datatype End = End(counter: int, generated: bool, recorded: bool)

  // ---- End words ----

  function EndCounters(ws: seq<Word>): seq<int> {
    if ws == [] then []
    else (if Sig(ws[0]) == SIG_END then [EventCounter(ws[0])] else []) + EndCounters(ws[1..])
  }

  lemma {:induction false} EndCountersConcat(a: seq<Word>, b: seq<Word>)
    ensures EndCounters(a + b) == EndCounters(a) + EndCounters(b)
    decreases |a|
  {
    if a == [] {
      assert a + b == b;
    } else {
      assert (a + b)[1..] == a[1..] + b && (a + b)[0] == a[0];
      EndCountersConcat(a[1..], b);
      var x := if Sig(a[0]) == SIG_END then [EventCounter(a[0])] else [];
      assert x + (EndCounters(a[1..]) + EndCounters(b)) == (x + EndCounters(a[1..])) + EndCounters(b);
    }
  }

  lemma EndCountersOne(w: Word)
    ensures EndCounters([w]) == if Sig(w) == SIG_END then [EventCounter(w)] else []
  {
    assert EndCounters([w][1..]) == [];
  }

  function Counters(es: seq<End>): (r: seq<int>)
    ensures |r| == |es| && forall i :: 0 <= i < |es| ==> r[i] == es[i].counter
  {
    seq(|es|, i requires 0 <= i < |es| => es[i].counter)
  }

  /** Writing over a word that is no end by one that is no end. */
  lemma {:induction false} EndCountersPatch(out: seq<Word>, pos: nat, w: Word)
    requires pos < |out| && Sig(out[pos]) != SIG_END && Sig(w) != SIG_END
    ensures EndCounters(out[pos := w]) == EndCounters(out)
    decreases |out|
  {
    if pos > 0 {
      assert out[pos := w][1..] == out[1..][pos - 1 := w];
      EndCountersPatch(out[1..], pos - 1, w);
    } else {
      assert out[pos := w][1..] == out[1..];
    }
  }

  lemma EndCountersPush(out: seq<Word>, w: Word)
    ensures EndCounters(out + [w]) == EndCounters(out) + if Sig(w) == SIG_END then [EventCounter(w)] else []
  {
    EndCountersConcat(out, [w]);
    EndCountersOne(w);
  }

  // ---- Counting on from the last recorded end ----

  /** Counter of the last recorded end among the first `n`, starting from what the table held before. */
  function LastRecorded(start: int, es: seq<End>, n: nat): int
    requires n <= |es|
  {
    if n == 0 then start
    else if es[n - 1].recorded then es[n - 1].counter
    else LastRecorded(start, es, n - 1)
  }

  /** A generated end at `k` is one more than the last recorded end in front of it. */
  predicate ChainedAt(start: int, es: seq<End>, k: nat)
    requires k < |es|
  {
    es[k].generated ==> es[k].counter == (LastRecorded(start, es, k) + 1) % COUNTER_RANGE
  }

  predicate Chained(start: int, es: seq<End>) {
    forall k :: 0 <= k < |es| ==> ChainedAt(start, es, k)
  }

  lemma {:induction false} LastRecordedFront(start: int, a: seq<End>, b: seq<End>, n: nat)
    requires n <= |a|
    ensures LastRecorded(start, a + b, n) == LastRecorded(start, a, n)
  {
    if n > 0 {
      LastRecordedFront(start, a, b, n - 1);
    }
  }

  lemma {:induction false} LastRecordedBack(start: int, a: seq<End>, b: seq<End>, n: nat)
    requires n <= |b|
    ensures LastRecorded(start, a + b, |a| + n) == LastRecorded(LastRecorded(start, a, |a|), b, n)
  {
    if n > 0 {
      LastRecordedBack(start, a, b, n - 1);
    } else {
      LastRecordedFront(start, a, b, |a|);
    }
  }

  lemma ChainConcat(start: int, a: seq<End>, b: seq<End>)
    requires Chained(start, a) && Chained(LastRecorded(start, a, |a|), b)
    ensures Chained(start, a + b)
  {
    forall k | 0 <= k < |a + b| ensures ChainedAt(start, a + b, k) {
      if k < |a| {
        LastRecordedFront(start, a, b, k);
        assert ChainedAt(start, a, k);
      } else {
        LastRecordedBack(start, a, b, k - |a|);
        assert ChainedAt(LastRecorded(start, a, |a|), b, k - |a|);
      }
    }
  }

  /** The ends `es` are chained from what the cell held, and the cell follows them. */
  predicate Follows(before: int, es: seq<End>, after: int) {
    var start := before % COUNTER_RANGE;
    Chained(start, es) && after % COUNTER_RANGE == LastRecorded(start, es, |es|)
  }

  lemma FollowsConcat(before: int, a: seq<End>, between: int, b: seq<End>, after: int)
    requires Follows(before, a, between) && Follows(between, b, after)
    ensures Follows(before, a + b, after)
  {
    ChainConcat(before % COUNTER_RANGE, a, b);
    LastRecordedBack(before % COUNTER_RANGE, a, b, |b|);
  }

  lemma FollowsNone(before: int)
    ensures Follows(before, [], before)
  {
  }

  lemma FollowsOne(before: int, e: End, after: int)
    requires e.generated ==> e.counter == (before % COUNTER_RANGE + 1) % COUNTER_RANGE
    requires after % COUNTER_RANGE == if e.recorded then e.counter else before % COUNTER_RANGE
    ensures Follows(before, [e], after)
  {
    assert LastRecorded(before % COUNTER_RANGE, [e], 0) == before % COUNTER_RANGE;
  }

  // ---- The ends of one call ----

  /** What one word of the module adds. */
  function WordEnds(s: State, w: Word): seq<End>
    requires s.Valid()
  {
    if Sig(w) == SIG_HEADER && s.headerFlag then [Generated(s.table, s.moduleId)]
    else if Sig(w) == SIG_END then [End(EventCounter(w), false, s.moduleId >= 0)]
    else []
  }

  function Generated(table: Table, id: int): End
    requires 0 <= id < N_COUNTERS
  {
    End(Next(Cell(table, id)) % COUNTER_RANGE, true, true)
  }

  /** What the end of the call adds. */
  function FinishEnds(s: State, mid: int): seq<End>
    requires s.Valid() && 0 <= mid < N_COUNTERS
  {
    if s.headerFlag then [Generated(s.table, mid)] else []
  }

  function RunEnds(s: State, ws: seq<Word>, mid: int, res: int): seq<End>
    requires s.Valid() && 0 <= mid < N_COUNTERS
    decreases |ws|
  {
    if ws == [] then [] else WordEnds(s, ws[0]) + RunEnds(Step(s, ws[0], mid, res), ws[1..], mid, res)
  }

  function CallEnds(table: Table, ws: seq<Word>, mid: int, res: int): seq<End>
    requires 0 <= mid < N_COUNTERS
  {
    RunEnds(Init(table), ws, mid, res) + FinishEnds(Run(Init(table), ws, mid, res), mid)
  }

  // ---- They are what the end words of the buffer say ----

  /** The saved position holds no end word, so patches cannot touch one. */
  predicate PatchSafe(s: State) {
    s.Valid() && (s.headerPos >= 0 ==> Sig(s.out[s.headerPos]) != SIG_END)
  }

  lemma CloseEndWords(s: State, id: int)
    requires PatchSafe(s) && 0 <= id < N_COUNTERS
    ensures var r := CloseEvent(s, id);
            PatchSafe(r) && EndCounters(r.out) == EndCounters(s.out) + [Generated(s.table, id).counter]
  {
    var e := PackEnd(Next(Cell(s.table, id)));
    EndCountersPush(s.out, e);
    var out := s.out + [e];
    if s.headerPos >= 0 {
      EndCountersPatch(out, s.headerPos, SetSubheader(out[s.headerPos], SUB_NO_END));
    }
  }

  lemma HeaderEndWords(s: State, w: Word)
    requires PatchSafe(s) && Sig(w) == SIG_HEADER
    ensures var r := StepHeader(s, w);
            PatchSafe(r) && EndCounters(r.out) == EndCounters(s.out) + Counters(WordEnds(s, w))
  {
    if s.headerFlag {
      CloseEndWords(s, s.moduleId);
      EndCountersPush(CloseEvent(s, s.moduleId).out, w);
    } else {
      EndCountersPush(s.out, w);
    }
  }

  lemma DataEndWords(s: State, w: Word)
    requires PatchSafe(s) && Sig(w) == SIG_DATA
    ensures var r := StepData(s, w); PatchSafe(r) && EndCounters(r.out) == EndCounters(s.out)
  {
    EndCountersPush(s.out, w);
    EndCountersPush(s.out + [w], w);
  }

  lemma EndEndWords(s: State, w: Word, mid: int, res: int)
    requires PatchSafe(s) && Sig(w) == SIG_END && 0 <= mid < N_COUNTERS
    ensures var r := StepEnd(s, w, mid, res);
            PatchSafe(r) && EndCounters(r.out) == EndCounters(s.out) + [EventCounter(w)]
  {
    EndCountersPush(s.out, w);
    var out := s.out + [w];
    if s.Pending() {
      EndCountersPatch(out, s.headerPos, PackHeader(|out| - s.headerPos - 1, res, mid, SUB_NO_HEADER));
    }
  }

  lemma StepEndWords(s: State, w: Word, mid: int, res: int)
    requires PatchSafe(s) && 0 <= mid < N_COUNTERS
    ensures var r := Step(s, w, mid, res);
            PatchSafe(r) && EndCounters(r.out) == EndCounters(s.out) + Counters(WordEnds(s, w))
  {
    if Sig(w) == SIG_HEADER {
      HeaderEndWords(s, w);
    } else if Sig(w) == SIG_DATA {
      DataEndWords(s, w);
    } else if Sig(w) == SIG_END {
      EndEndWords(s, w, mid, res);
    } else {
      EndCountersPush(s.out, w);
    }
  }

  lemma CountersConcat(a: seq<End>, b: seq<End>)
    ensures Counters(a + b) == Counters(a) + Counters(b)
  {
  }

  lemma {:induction false} RunEndWords(s: State, ws: seq<Word>, mid: int, res: int)
    requires PatchSafe(s) && 0 <= mid < N_COUNTERS
    ensures var r := Run(s, ws, mid, res);
            PatchSafe(r) && EndCounters(r.out) == EndCounters(s.out) + Counters(RunEnds(s, ws, mid, res))
    decreases |ws|
  {
    if ws != [] {
      var t := Step(s, ws[0], mid, res);
      StepEndWords(s, ws[0], mid, res);
      RunEndWords(t, ws[1..], mid, res);
      CountersConcat(WordEnds(s, ws[0]), RunEnds(t, ws[1..], mid, res));
      Assoc(EndCounters(s.out), Counters(WordEnds(s, ws[0])), Counters(RunEnds(t, ws[1..], mid, res)));
    }
  }

  /** For every input: the ends of a call are what the end words of its buffer say. */
  lemma CallEndsAreTheEndWords(table: Table, ws: seq<Word>, mid: int, res: int)
    requires 0 <= mid < N_COUNTERS
    ensures EndCounters(Repaired(table, ws, mid, res).out) == Counters(CallEnds(table, ws, mid, res))
  {
    var s := Run(Init(table), ws, mid, res);
    RunEndWords(Init(table), ws, mid, res);
    if s.headerFlag {
      CloseEndWords(s, mid);
    }
    CountersConcat(RunEnds(Init(table), ws, mid, res), FinishEnds(s, mid));
  }

  // ---- They count on ----

  /** The headers carry the module's id. */
  predicate Carry(ws: seq<Word>, mid: int) {
    forall i :: 0 <= i < |ws| && Sig(ws[i]) == SIG_HEADER ==> ModuleId(ws[i]) == mid
  }

  /** The loop has seen no header, or headers of the module only. */
  predicate Own(s: State, mid: int) { s.Valid() && (s.moduleId == -1 || s.moduleId == mid) }

  lemma StepFollows(s: State, w: Word, mid: int, res: int)
    requires Own(s, mid) && 0 <= mid < 0x100 && (Sig(w) == SIG_HEADER ==> ModuleId(w) == mid)
    ensures var r := Step(s, w, mid, res);
            Own(r, mid) && Follows(Cell(s.table, mid), WordEnds(s, w), Cell(r.table, mid))
  {
    var r := Step(s, w, mid, res);
    if WordEnds(s, w) == [] {
      FollowsNone(Cell(s.table, mid));
    } else {
      FollowsOne(Cell(s.table, mid), WordEnds(s, w)[0], Cell(r.table, mid));
    }
  }

  lemma {:induction false} RunFollows(s: State, ws: seq<Word>, mid: int, res: int)
    requires Own(s, mid) && 0 <= mid < 0x100 && Carry(ws, mid)
    ensures var r := Run(s, ws, mid, res);
            Own(r, mid) && Follows(Cell(s.table, mid), RunEnds(s, ws, mid, res), Cell(r.table, mid))
    decreases |ws|
  {
    if ws == [] {
      FollowsNone(Cell(s.table, mid));
    } else {
      var t := Step(s, ws[0], mid, res);
      StepFollows(s, ws[0], mid, res);
      RunFollows(t, ws[1..], mid, res);
      FollowsConcat(Cell(s.table, mid), WordEnds(s, ws[0]), Cell(t.table, mid), RunEnds(t, ws[1..], mid, res),
                    Cell(Run(t, ws[1..], mid, res).table, mid));
    }
  }

  lemma FinishFollows(s: State, mid: int)
    requires Own(s, mid) && 0 <= mid < 0x100
    ensures Follows(Cell(s.table, mid), FinishEnds(s, mid), Cell(Finish(s, mid).table, mid))
  {
    if s.headerFlag {
      FollowsOne(Cell(s.table, mid), Generated(s.table, mid), Cell(Finish(s, mid).table, mid));
    } else {
      FollowsNone(Cell(s.table, mid));
    }
  }

  /** For every input whose headers carry the module's id: the generated ends count on, and the module's cell
      of the table follows. */
  lemma CallFollows(table: Table, ws: seq<Word>, mid: int, res: int)
    requires 0 <= mid < 0x100 && Carry(ws, mid)
    ensures Follows(Cell(table, mid), CallEnds(table, ws, mid, res), Cell(Repaired(table, ws, mid, res).table, mid))
  {
    var s := Run(Init(table), ws, mid, res);
    RunFollows(Init(table), ws, mid, res);
    FinishFollows(s, mid);
    FollowsConcat(Cell(table, mid), RunEnds(Init(table), ws, mid, res), Cell(s.table, mid), FinishEnds(s, mid),
                  Cell(Finish(s, mid).table, mid));
  }

  lemma StepKeepsOther(s: State, w: Word, mid: int, res: int, other: int)
    requires Own(s, mid) && 0 <= mid < 0x100 && 0 <= other < 0x100 && mid != other
    requires Sig(w) == SIG_HEADER ==> ModuleId(w) == mid
    ensures Own(Step(s, w, mid, res), mid) && Cell(Step(s, w, mid, res).table, other) == Cell(s.table, other)
  {
  }

  lemma {:induction false} RunKeepsOther(s: State, ws: seq<Word>, mid: int, res: int, other: int)
    requires Own(s, mid) && 0 <= mid < 0x100 && 0 <= other < 0x100 && mid != other && Carry(ws, mid)
    ensures Own(Run(s, ws, mid, res), mid) && Cell(Run(s, ws, mid, res).table, other) == Cell(s.table, other)
    decreases |ws|
  {
    if ws != [] {
      StepKeepsOther(s, ws[0], mid, res, other);
      RunKeepsOther(Step(s, ws[0], mid, res), ws[1..], mid, res, other);
    }
  }

  /** A call for one module leaves the cells of the other modules alone. */
  lemma CallKeepsOther(table: Table, ws: seq<Word>, mid: int, res: int, other: int)
    requires 0 <= mid < 0x100 && 0 <= other < 0x100 && mid != other && Carry(ws, mid)
    ensures Cell(Repaired(table, ws, mid, res).table, other) == Cell(table, other)
  {
    RunKeepsOther(Init(table), ws, mid, res, other);
  }

  // ---- Which ends the table takes note of ----

  predicate HasHeader(ws: seq<Word>) { exists i :: 0 <= i < |ws| && Sig(ws[i]) == SIG_HEADER }

  lemma {:induction false} SeenIff(s: State, ws: seq<Word>, mid: int, res: int)
    requires s.Valid() && 0 <= mid < N_COUNTERS
    ensures Run(s, ws, mid, res).moduleId >= 0 <==> s.moduleId >= 0 || HasHeader(ws)
    decreases |ws|
  {
    if ws != [] {
      SeenIff(Step(s, ws[0], mid, res), ws[1..], mid, res);
      HeaderInRest(ws);
    }
  }

  lemma HeaderInRest(ws: seq<Word>)
    requires ws != []
    ensures HasHeader(ws) <==> Sig(ws[0]) == SIG_HEADER || HasHeader(ws[1..])
  {
    if HasHeader(ws[1..]) {
      var i :| 0 <= i < |ws[1..]| && Sig(ws[1..][i]) == SIG_HEADER;
      assert Sig(ws[i + 1]) == SIG_HEADER;
    }
    if HasHeader(ws) {
      var i :| 0 <= i < |ws| && Sig(ws[i]) == SIG_HEADER;
      assert i > 0 ==> ws[1..][i - 1] == ws[i];
    }
  }

  lemma {:induction false} RunEndsAppend(s: State, a: seq<Word>, b: seq<Word>, mid: int, res: int)
    requires s.Valid() && 0 <= mid < N_COUNTERS
    ensures RunEnds(s, a + b, mid, res) == RunEnds(s, a, mid, res) + RunEnds(Run(s, a, mid, res), b, mid, res)
    decreases |a|
  {
    if a == [] {
      assert a + b == b;
    } else {
      var t := Step(s, a[0], mid, res);
      assert (a + b)[1..] == a[1..] + b && (a + b)[0] == a[0];
      RunEndsAppend(t, a[1..], b, mid, res);
      Assoc(WordEnds(s, a[0]), RunEnds(t, a[1..], mid, res), RunEnds(Run(t, a[1..], mid, res), b, mid, res));
    }
  }

  /** The end at word `w` is recorded exactly when the call has had a header before it. */
  lemma RecordedIff(table: Table, before: seq<Word>, w: Word, mid: int, res: int)
    requires 0 <= mid < N_COUNTERS && Sig(w) == SIG_END
    ensures RunEnds(Init(table), before + [w], mid, res)
            == RunEnds(Init(table), before, mid, res) + [End(EventCounter(w), false, HasHeader(before))]
  {
    var t := Run(Init(table), before, mid, res);
    RunEndsAppend(Init(table), before, [w], mid, res);
    SeenIff(Init(table), before, mid, res);
    assert [w][1..] == [] && RunEnds(Step(t, w, mid, res), [], mid, res) == [];
    assert RunEnds(t, [w], mid, res) == WordEnds(t, w);
  }

  predicate AllRecorded(es: seq<End>) { forall i :: 0 <= i < |es| ==> es[i].recorded }

  /** The call sees a header before any end. */
  predicate HeaderFirst(ws: seq<Word>) {
    ws == [] || Sig(ws[0]) == SIG_HEADER || (Sig(ws[0]) != SIG_END && HeaderFirst(ws[1..]))
  }

  lemma {:induction false} SeenRecorded(s: State, ws: seq<Word>, mid: int, res: int)
    requires s.Valid() && 0 <= mid < N_COUNTERS
    ensures AllRecorded(RunEnds(s, ws, mid, res)) <==> s.moduleId >= 0 || HeaderFirst(ws)
    decreases |ws|
  {
    if ws != [] {
      SeenRecorded(Step(s, ws[0], mid, res), ws[1..], mid, res);
      RecordedParts(WordEnds(s, ws[0]), RunEnds(Step(s, ws[0], mid, res), ws[1..], mid, res));
      WordRecorded(s, ws[0]);
    }
  }

  lemma WordRecorded(s: State, w: Word)
    requires s.Valid()
    ensures AllRecorded(WordEnds(s, w)) <==> Sig(w) != SIG_END || s.moduleId >= 0
  {
    if Sig(w) == SIG_END {
      assert WordEnds(s, w)[0].recorded <==> s.moduleId >= 0;
    }
  }

  lemma RecordedParts(a: seq<End>, b: seq<End>)
    ensures AllRecorded(a + b) <==> AllRecorded(a) && AllRecorded(b)
  {
    if AllRecorded(a + b) {
      forall i | 0 <= i < |a| ensures a[i].recorded { assert (a + b)[i] == a[i]; }
      forall i | 0 <= i < |b| ensures b[i].recorded { assert (a + b)[|a| + i] == b[i]; }
    }
  }

  /** All ends of a call are recorded exactly when it sees a header before any end. */
  lemma AllRecordedIff(table: Table, ws: seq<Word>, mid: int, res: int)
    requires 0 <= mid < N_COUNTERS
    ensures AllRecorded(CallEnds(table, ws, mid, res)) <==> HeaderFirst(ws)
  {
    SeenRecorded(Init(table), ws, mid, res);
    RecordedParts(RunEnds(Init(table), ws, mid, res), FinishEnds(Run(Init(table), ws, mid, res), mid));
  }

  // ---- Many calls, of any modules, on one table ----

  datatype Call = Call(ws: seq<Word>, mid: int, res: int)

  /** Module ids are bytes. */
  predicate ById(calls: seq<Call>) { forall c :: 0 <= c < |calls| ==> 0 <= calls[c].mid < 0x100 }

  /** The headers of a call carry the id of its module. */
  predicate Carried(calls: seq<Call>) { forall c :: 0 <= c < |calls| ==> Carry(calls[c].ws, calls[c].mid) }

  function TableAfter(c: Call, table: Table): Table
    requires 0 <= c.mid < 0x100
  {
    Repaired(table, c.ws, c.mid, c.res).table
  }

  /** The counter table after the first `n` calls. */
  function TablesAfter(calls: seq<Call>, n: nat, table: Table): Table
    requires n <= |calls| && ById(calls)
  {
    if n == 0 then table else TableAfter(calls[n - 1], TablesAfter(calls, n - 1, table))
  }

  /** The ends that module `mid` gets in one call. */
  function EndsFor(c: Call, table: Table, mid: int): seq<End>
    requires 0 <= c.mid < 0x100
  {
    if c.mid == mid then CallEnds(table, c.ws, mid, c.res) else []
  }

  /** The ends of module `mid` over the first `n` calls. */
  function AllEnds(calls: seq<Call>, n: nat, table: Table, mid: int): seq<End>
    requires n <= |calls| && ById(calls)
  {
    if n == 0 then []
    else AllEnds(calls, n - 1, table, mid) + EndsFor(calls[n - 1], TablesAfter(calls, n - 1, table), mid)
  }

  lemma OneMoreCall(before: int, es: seq<End>, c: Call, table: Table, mid: int)
    requires 0 <= c.mid < 0x100 && 0 <= mid < 0x100 && Carry(c.ws, c.mid) && Follows(before, es, Cell(table, mid))
    ensures Follows(before, es + EndsFor(c, table, mid), Cell(TableAfter(c, table), mid))
  {
    if c.mid == mid {
      CallFollows(table, c.ws, mid, c.res);
    } else {
      CallKeepsOther(table, c.ws, c.mid, c.res, mid);
      FollowsNone(Cell(table, mid));
    }
    FollowsConcat(before, es, Cell(table, mid), EndsFor(c, table, mid), Cell(TableAfter(c, table), mid));
  }

  /** Over any number of calls, those of other modules in between, every generated end of event of a
      module counts one more than the last end the table recorded for it. */
  lemma {:induction false} CountersChainAcrossCalls(calls: seq<Call>, n: nat, table: Table, mid: int)
    requires n <= |calls| && ById(calls) && Carried(calls) && 0 <= mid < 0x100
    ensures Follows(Cell(table, mid), AllEnds(calls, n, table, mid), Cell(TablesAfter(calls, n, table), mid))
  {
    if n > 0 {
      var es, t := AllEnds(calls, n - 1, table, mid), TablesAfter(calls, n - 1, table);
      CountersChainAcrossCalls(calls, n - 1, table, mid);
      OneMoreCall(Cell(table, mid), es, calls[n - 1], t, mid);
      assert AllEnds(calls, n, table, mid) == es + EndsFor(calls[n - 1], t, mid);
      assert TablesAfter(calls, n, table) == TableAfter(calls[n - 1], t);
    } else {
      FollowsNone(Cell(table, mid));
    }
  }

  predicate InRange(c: int) { 0 <= c < COUNTER_RANGE }

  predicate AllInRange(es: seq<End>) { forall i :: 0 <= i < |es| ==> InRange(es[i].counter) }

  lemma {:induction false} LastRecordedInRange(start: int, es: seq<End>, n: nat)
    requires InRange(start) && AllInRange(es) && n <= |es|
    ensures InRange(LastRecorded(start, es, n))
  {
    if n > 0 {
      LastRecordedInRange(start, es, n - 1);
    }
  }

  lemma {:induction false} RunEndsInRange(s: State, ws: seq<Word>, mid: int, res: int)
    requires s.Valid() && 0 <= mid < N_COUNTERS
    ensures AllInRange(RunEnds(s, ws, mid, res))
    decreases |ws|
  {
    if ws != [] {
      RunEndsInRange(Step(s, ws[0], mid, res), ws[1..], mid, res);
    }
  }

  lemma EndsForInRange(c: Call, table: Table, mid: int)
    requires 0 <= c.mid < 0x100
    ensures AllInRange(EndsFor(c, table, mid))
  {
    RunEndsInRange(Init(table), c.ws, c.mid, c.res);
  }

  lemma {:induction false} AllEndsInRange(calls: seq<Call>, n: nat, table: Table, mid: int)
    requires n <= |calls| && ById(calls)
    ensures AllInRange(AllEnds(calls, n, table, mid))
  {
    if n > 0 {
      AllEndsInRange(calls, n - 1, table, mid);
      EndsForInRange(calls[n - 1], TablesAfter(calls, n - 1, table), mid);
    }
  }

  /** The end at `k` is one more than the end just before it. */
  predicate Continues(es: seq<End>, k: nat)
    requires 0 < k < |es|
  {
    es[k].counter == (es[k - 1].counter + 1) % COUNTER_RANGE
  }

  /** The table, starting at `start`, knows the number of the end just before `k`. */
  predicate TableKnows(start: int, es: seq<End>, k: nat)
    requires 0 < k < |es|
  {
    es[k - 1].recorded || LastRecorded(start, es, k - 1) == es[k - 1].counter
  }

  lemma ContinuesAt(before: int, es: seq<End>, after: int, k: nat)
    requires Follows(before, es, after) && AllInRange(es) && 0 < k < |es| && es[k].generated
    ensures Continues(es, k) <==> TableKnows(before % COUNTER_RANGE, es, k)
  {
    LastRecordedInRange(before % COUNTER_RANGE, es, k - 1);
    assert ChainedAt(before % COUNTER_RANGE, es, k);
  }

  /** So over any number of calls a generated end continues the end just before it, exactly when the
      table's idea of that end is right -- always, if that end was recorded. */
  lemma {:induction false} GeneratedContinues(calls: seq<Call>, table: Table, mid: int, es: seq<End>, k: nat)
    requires ById(calls) && Carried(calls) && 0 <= mid < 0x100
    requires es == AllEnds(calls, |calls|, table, mid) && 0 < k < |es| && es[k].generated
    ensures Continues(es, k) <==> TableKnows(Cell(table, mid) % COUNTER_RANGE, es, k)
  {
    CountersChainAcrossCalls(calls, |calls|, table, mid);
    AllEndsInRange(calls, |calls|, table, mid);
    ContinuesAt(Cell(table, mid), es, Cell(TablesAfter(calls, |calls|, table), mid), k);
  }

  predicate HeadersFirst(calls: seq<Call>) { forall c :: 0 <= c < |calls| ==> HeaderFirst(calls[c].ws) }

  lemma {:induction false} HeadedCallsRecorded(calls: seq<Call>, n: nat, table: Table, mid: int)
    requires n <= |calls| && ById(calls) && HeadersFirst(calls)
    ensures AllRecorded(AllEnds(calls, n, table, mid))
  {
    if n > 0 {
      HeadedCallsRecorded(calls, n - 1, table, mid);
      OneMoreRecorded(AllEnds(calls, n - 1, table, mid), calls[n - 1], TablesAfter(calls, n - 1, table), mid);
    }
  }

  lemma OneMoreRecorded(es: seq<End>, c: Call, table: Table, mid: int)
    requires 0 <= c.mid < 0x100 && HeaderFirst(c.ws) && AllRecorded(es)
    ensures AllRecorded(es + EndsFor(c, table, mid))
  {
    AllRecordedIff(table, c.ws, c.mid, c.res);
    RecordedParts(es, EndsFor(c, table, mid));
  }

  /** If every call sees a header before any end, every generated end is one more than the end before it. */
  lemma {:induction false} HeadedCallsContinue(calls: seq<Call>, table: Table, mid: int, es: seq<End>, k: nat)
    requires ById(calls) && Carried(calls) && HeadersFirst(calls) && 0 <= mid < 0x100
    requires es == AllEnds(calls, |calls|, table, mid) && 0 < k < |es| && es[k].generated
    ensures Continues(es, k)
  {
    GeneratedContinues(calls, table, mid, es, k);
    HeadedCallsRecorded(calls, |calls|, table, mid);
  }

  /** The gap is real: an end in front of every header of its call goes to the cell before the table, and the
      next generated end repeats an old number. */
  lemma HeadlessEndIsForgotten(table: Table, mid: int, res: int, d: Word, e: Word, h: Word)
    requires 0 <= mid < 0x100 && Cell(table, mid) == 0
    requires Sig(d) == SIG_DATA && Sig(e) == SIG_END && EventCounter(e) == 7
    requires Sig(h) == SIG_HEADER && ModuleId(h) == mid
    ensures var ws := [d, e, h];
            var r := Repaired(table, ws, mid, res);
            && EndCounters(r.out) == [7, 1]
            && Cell(r.table, mid) == 1
  {
    ForgottenEnd(table, mid, res, d, e, h, [d, e, h]);
    CallEndsAreTheEndWords(table, [d, e, h], mid, res);
  }

  lemma ForgottenEnd(table: Table, mid: int, res: int, d: Word, e: Word, h: Word, ws: seq<Word>)
    requires 0 <= mid < 0x100 && Cell(table, mid) == 0 && ws == [d, e, h]
    requires Sig(d) == SIG_DATA && Sig(e) == SIG_END && EventCounter(e) == 7
    requires Sig(h) == SIG_HEADER && ModuleId(h) == mid
    ensures CallEnds(table, ws, mid, res) == [End(7, false, false), End(1, true, true)]
    ensures Cell(Repaired(table, ws, mid, res).table, mid) == 1
  {
    var s1 := Step(Init(table), d, mid, res);
    var s2 := Step(s1, e, mid, res);
    ThreeWords(Init(table), d, e, h, mid, res);
    FragmentUnseen(table, mid, res, d, e);
    HeaderOpens(s2, h, mid, res);
    assert RunEnds(Init(table), ws, mid, res) == [End(7, false, false)];
  }

  lemma FragmentUnseen(table: Table, mid: int, res: int, d: Word, e: Word)
    requires 0 <= mid < 0x100 && Sig(d) == SIG_DATA && Sig(e) == SIG_END
    ensures var s1 := Step(Init(table), d, mid, res);
            var s2 := Step(s1, e, mid, res);
            && WordEnds(Init(table), d) == [] && WordEnds(s1, e) == [End(EventCounter(e), false, false)]
            && s2.Idle() && Cell(s2.table, mid) == Cell(table, mid)
  {
  }

  lemma HeaderOpens(s: State, h: Word, mid: int, res: int)
    requires s.Valid() && s.Idle() && Sig(h) == SIG_HEADER && 0 <= mid < N_COUNTERS
    ensures var t := Step(s, h, mid, res);
            && WordEnds(s, h) == [] && FinishEnds(t, mid) == [Generated(s.table, mid)]
            && Cell(Finish(t, mid).table, mid) == Next(Cell(s.table, mid))
  {
  }

  lemma ThreeWords(s: State, a: Word, b: Word, c: Word, mid: int, res: int)
    requires s.Valid() && 0 <= mid < N_COUNTERS
    ensures var s1 := Step(s, a, mid, res);
            var s2 := Step(s1, b, mid, res);
            && Run(s, [a, b, c], mid, res) == Step(s2, c, mid, res)
            && RunEnds(s, [a, b, c], mid, res) == WordEnds(s, a) + WordEnds(s1, b) + WordEnds(s2, c)
  {
    var s1 := Step(s, a, mid, res);
    var s2 := Step(s1, b, mid, res);
    assert [a, b, c][1..] == [b, c] && [b, c][1..] == [c] && [c][1..] == [];
    var s3 := Step(s2, c, mid, res);
    assert Run(s2, [c], mid, res) == Run(s3, [], mid, res) == s3;
    assert RunEnds(s2, [c], mid, res) == WordEnds(s2, c) + RunEnds(s3, [], mid, res) == WordEnds(s2, c);
    assert RunEnds(s1, [b, c], mid, res) == WordEnds(s1, b) + WordEnds(s2, c);
    Assoc(WordEnds(s, a), WordEnds(s1, b), WordEnds(s2, c));
  }
}
