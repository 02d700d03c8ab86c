/**
 The MADC32 counters over a whole run of the read-out: every pass calls all the modules in turn on one
 counter table, and a hang-up leaves that table alone.
 */
module VmedaqCounters {
  import opened Words
  import opened MadcStream
  import opened MadcCounters
  import V = Vmedaq

  // ---- The calls of a run ----

  function CallsOf(adcs: seq<V.AdcInput>): (r: seq<Call>)
    ensures |r| == |adcs|
    ensures forall i :: 0 <= i < |adcs| ==> r[i] == Call(adcs[i].fifo, adcs[i].mid, adcs[i].resolution)
  {
    seq(|adcs|, i requires 0 <= i < |adcs| => Call(adcs[i].fifo, adcs[i].mid, adcs[i].resolution))
  }

  /** None at a hang-up, one for each ADC at a pass. */
  function TurnCalls(turn: V.Turn): seq<Call> {
    match turn
    case Hangup => []
    case Pass(hw) => CallsOf(hw.adcs)
  }

  /** All calls of the first `n` turns, in order. */
  function Calls(turns: seq<V.Turn>, n: nat): seq<Call>
    requires n <= |turns|
  {
    if n == 0 then [] else Calls(turns, n - 1) + TurnCalls(turns[n - 1])
  }

  lemma ByIdParts(a: seq<Call>, b: seq<Call>)
    requires ById(a + b)
    ensures ById(a) && ById(b)
  {
    forall c | 0 <= c < |a| ensures 0 <= a[c].mid < 0x100 {
      assert (a + b)[c] == a[c];
    }
    forall c | 0 <= c < |b| ensures 0 <= b[c].mid < 0x100 {
      assert (a + b)[|a| + c] == b[c];
    }
  }

  // ---- The table they leave ----

  lemma {:induction false} PassTable(adcs: seq<V.AdcInput>, calls: seq<Call>, n: nat, table: Table)
    requires calls == CallsOf(adcs) && ById(calls) && n <= |adcs|
    requires forall i :: 0 <= i < |adcs| ==> V.ValidAdc(adcs[i])
    ensures V.AllAdcTable(adcs[..n], table) == TablesAfter(calls, n, table)
  {
    if n > 0 {
      PassTable(adcs, calls, n - 1, table);
      assert adcs[..n][..n - 1] == adcs[..n - 1] && adcs[..n][n - 1] == adcs[n - 1];
    }
  }

  lemma {:induction false} TablesFront(a: seq<Call>, b: seq<Call>, k: nat, table: Table)
    requires ById(a) && ById(b) && ById(a + b) && k <= |a|
    ensures TablesAfter(a + b, k, table) == TablesAfter(a, k, table)
  {
    if k > 0 {
      TablesFront(a, b, k - 1, table);
      assert (a + b)[k - 1] == a[k - 1];
    }
  }

  lemma {:induction false} TablesConcat(a: seq<Call>, b: seq<Call>, k: nat, table: Table)
    requires ById(a) && ById(b) && ById(a + b) && k <= |b|
    ensures TablesAfter(a + b, |a| + k, table) == TablesAfter(b, k, TablesAfter(a, |a|, table))
  {
    if k > 0 {
      TablesConcat(a, b, k - 1, table);
      assert (a + b)[|a| + k - 1] == b[k - 1];
    } else {
      TablesFront(a, b, |a|, table);
    }
  }

  lemma TableOfTurn(turn: V.Turn, calls: seq<Call>, h: V.History)
    requires |h.latched| == 3 && (turn.Pass? ==> turn.hw.Valid()) && calls == TurnCalls(turn) && ById(calls)
    ensures V.AfterTurn(turn, h).table == TablesAfter(calls, |calls|, h.table)
  {
    if turn.Pass? {
      PassTable(turn.hw.adcs, calls, |calls|, h.table);
      assert turn.hw.adcs[..|calls|] == turn.hw.adcs;
    }
  }

  lemma OneMoreTurn(front: seq<Call>, calls: seq<Call>, table: Table, between: Table, after: Table)
    requires ById(front) && ById(calls) && ById(front + calls)
    requires between == TablesAfter(front, |front|, table) && after == TablesAfter(calls, |calls|, between)
    ensures after == TablesAfter(front + calls, |front + calls|, table)
  {
    TablesConcat(front, calls, |calls|, table);
  }

  lemma AfterOneMore(turns: seq<V.Turn>, n: nat, h: V.History)
    requires V.ValidTurns(turns) && 0 < n <= |turns| && |h.latched| == 3
    ensures V.After(turns, n, h) == V.AfterTurn(turns[n - 1], V.After(turns, n - 1, h))
  {
  }

  /** The table a run leaves is the one its calls leave, one after the other. */
  lemma {:induction false} RunTable(turns: seq<V.Turn>, n: nat, h: V.History, calls: seq<Call>)
    requires V.ValidTurns(turns) && n <= |turns| && |h.latched| == 3 && calls == Calls(turns, n) && ById(calls)
    ensures V.After(turns, n, h).table == TablesAfter(calls, |calls|, h.table)
  {
    if n > 0 {
      var front, last, p := Calls(turns, n - 1), TurnCalls(turns[n - 1]), V.After(turns, n - 1, h);
      ByIdParts(front, last);
      RunTable(turns, n - 1, h, front);
      TableOfTurn(turns[n - 1], last, p);
      OneMoreTurn(front, last, h.table, p.table, V.AfterTurn(turns[n - 1], p).table);
      AfterOneMore(turns, n, h);
    }
  }

  /** Over any run of passes and hang-ups, with any number of modules and whatever they send behind headers that
      carry their ids: the generated ends of each module count on from its last recorded end. */
  lemma RunCountersChain(turns: seq<V.Turn>, h: V.History, mid: int, calls: seq<Call>)
    requires V.ValidTurns(turns) && |h.latched| == 3 && 0 <= mid < 0x100
    requires calls == Calls(turns, |turns|) && ById(calls) && Carried(calls)
    ensures Follows(Cell(h.table, mid), AllEnds(calls, |calls|, h.table, mid),
                    Cell(V.After(turns, |turns|, h).table, mid))
  {
    RunTable(turns, |turns|, h, calls);
    CountersChainAcrossCalls(calls, |calls|, h.table, mid);
  }

  // ---- Which of the ends reach the file ----

  predicate HasEnd(ws: seq<Word>) { exists i :: 0 <= i < |ws| && Sig(ws[i]) == SIG_END }

  lemma PaddingHasNoEnd(out: seq<Word>)
    ensures EndCounters(Padded(out)) == EndCounters(out)
  {
    if |out| % 2 == 1 {
      EndCountersPush(out, 0);
    }
  }

  /** A call hands over no block exactly when the module sent no end-of-event word; else the end words of the
      block are the ends of the call. */
  lemma BlockOrNothing(a: V.AdcInput, table: Table)
    requires V.ValidAdc(a)
    ensures V.AdcContents(a, table) == [] <==> !HasEnd(a.fifo)
    ensures HasEnd(a.fifo) ==>
              EndCounters(V.AdcContents(a, table)[0].payload) == Counters(CallEnds(table, a.fifo, a.mid, a.resolution))
  {
    DeliveredIff(table, a.fifo, a.mid, a.resolution);
    CallEndsAreTheEndWords(table, a.fifo, a.mid, a.resolution);
    PaddingHasNoEnd(Repaired(table, a.fifo, a.mid, a.resolution).out);
  }

  function Headers(ws: seq<Word>): nat {
    if ws == [] then 0 else (if Sig(ws[0]) == SIG_HEADER then 1 else 0) + Headers(ws[1..])
  }

  lemma CountOn(a: int, b: int, n: nat)
    requires b % COUNTER_RANGE == (a + 1) % COUNTER_RANGE
    ensures (b + n) % COUNTER_RANGE == (a + 1 + n) % COUNTER_RANGE
  {
    assert (b + n - (a + 1 + n)) % COUNTER_RANGE == 0;
  }

  lemma {:induction false} EndlessCounts(s: State, ws: seq<Word>, mid: int, res: int)
    requires Own(s, mid) && 0 <= mid < 0x100 && Carry(ws, mid) && !HasEnd(ws)
    ensures Cell(Finish(Run(s, ws, mid, res), mid).table, mid) % COUNTER_RANGE
            == (Cell(s.table, mid) + (if s.headerFlag then 1 else 0) + Headers(ws)) % COUNTER_RANGE
    decreases |ws|
  {
    if ws != [] {
      assert Sig(ws[0]) != SIG_END;
      EndInRest(ws);
      var t := Step(s, ws[0], mid, res);
      EndlessStep(s, ws[0], mid, res);
      EndlessCounts(t, ws[1..], mid, res);
      if Sig(ws[0]) == SIG_HEADER && s.headerFlag {
        CountOn(Cell(s.table, mid), Cell(t.table, mid), 1 + Headers(ws[1..]));
      }
    }
  }

  lemma EndInRest(ws: seq<Word>)
    requires ws != []
    ensures HasEnd(ws[1..]) ==> HasEnd(ws)
  {
    if HasEnd(ws[1..]) {
      var i :| 0 <= i < |ws[1..]| && Sig(ws[1..][i]) == SIG_END;
      assert Sig(ws[i + 1]) == SIG_END;
    }
  }

  lemma EndlessStep(s: State, w: Word, mid: int, res: int)
    requires Own(s, mid) && 0 <= mid < 0x100 && Sig(w) != SIG_END && (Sig(w) == SIG_HEADER ==> ModuleId(w) == mid)
    ensures var t := Step(s, w, mid, res);
            && Own(t, mid) && (t.headerFlag <==> s.headerFlag || Sig(w) == SIG_HEADER)
            && if Sig(w) == SIG_HEADER && s.headerFlag
               then Cell(t.table, mid) % COUNTER_RANGE == (Cell(s.table, mid) + 1) % COUNTER_RANGE
               else Cell(t.table, mid) == Cell(s.table, mid)
  {
  }

  /** A call that hands over nothing still counts: the counter moves on by the number of its headers, while
      its words are lost. */
  lemma DroppedCallCounts(table: Table, ws: seq<Word>, mid: int, res: int)
    requires 0 <= mid < 0x100 && Carry(ws, mid) && !HasEnd(ws)
    ensures Cell(Repaired(table, ws, mid, res).table, mid) % COUNTER_RANGE
            == (Cell(table, mid) + Headers(ws)) % COUNTER_RANGE
  {
    EndlessCounts(Init(table), ws, mid, res);
  }

  /** The shortest call that loses its words: a header whose event is still to come. */
  lemma HeaderAloneIsLost(table: Table, h: Word, mid: int, res: int)
    requires 0 <= mid < 0x100 && Sig(h) == SIG_HEADER && ModuleId(h) == mid
    ensures V.AdcContents(V.AdcInput([h], mid, res), table) == []
    ensures Cell(Repaired(table, [h], mid, res).table, mid) % COUNTER_RANGE
            == (Cell(table, mid) + 1) % COUNTER_RANGE
  {
    BlockOrNothing(V.AdcInput([h], mid, res), table);
    DroppedCallCounts(table, [h], mid, res);
    assert Headers([h][1..]) == 0;
  }
}
