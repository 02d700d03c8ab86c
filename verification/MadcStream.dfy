/**
 The one-pass repair of a MADC32 FIFO read-out, as a state machine over the words of
 one call.  `out` is the buffer behind the four VMEDAQ header words and `inserted`
 marks the positions that the repair made up.
 */
module MadcStream {
  import opened Words

  const N_COUNTERS := 0x1_0000

  /** The counter table.  Cell 0 is the memory in front of the C array, which index -1 hits. */
  type Table = t: seq<int> | |t| == N_COUNTERS + 1 witness seq(N_COUNTERS + 1, i => 0)

  function Cell(t: Table, id: int): int
    requires -1 <= id < N_COUNTERS
  {
    t[id + 1]
  }

  function Record(t: Table, id: int, counter: int): Table
    requires -1 <= id < N_COUNTERS
  {
    t[id + 1 := counter]
  }

  datatype State = State(
    out: seq<Word>,
    inserted: seq<bool>,
    headerFlag: bool,
    noHeader: bool,
    endFlag: bool,
    headerPos: int,
    moduleId: int,
    eventCount: int,
    table: Table)
  {
    predicate Valid() {
      && |inserted| == |out|
      && -1 <= headerPos < |out|
      && (headerPos >= 0 ==> inserted[headerPos])
      && (noHeader ==> headerPos >= 0)
      && -1 <= moduleId < N_COUNTERS
      && (headerFlag ==> moduleId >= 0 && !endFlag)
    }

    /** Between two events. */
    predicate Idle() { !headerFlag && !noHeader }

    /** A placeholder is waiting for the end of event that will fill it in. */
    predicate Pending() { !headerFlag && noHeader }

    function Append(w: Word, made: bool): State {
      this.(out := out + [w], inserted := inserted + [made])
    }
  }

  function Init(table: Table): State {
    State([], [], false, false, false, -1, -1, -1, table)
  }

  /** The subheader patch that goes with a generated end of event. */
  function LatePatch(out: seq<Word>, pos: int): (r: seq<Word>)
    requires -1 <= pos < |out|
    ensures |r| == |out|
    ensures forall i :: 0 <= i < |out| && i != pos ==> r[i] == out[i]
    ensures forall i :: 0 <= i < |out| ==> Sig(r[i]) == Sig(out[i])
  {
    if pos >= 0 then out[pos := SetSubheader(out[pos], SUB_NO_END)] else out
  }

  /** Makes up the end of event of the open event, counting in cell `id`. */
  function CloseEvent(s: State, id: int): (r: State)
    requires s.Valid() && 0 <= id < N_COUNTERS
    ensures r.Valid()
  {
    var n := Next(Cell(s.table, id));
    var t := s.Append(PackEnd(n), true);
    t.(out := LatePatch(t.out, t.headerPos), table := Record(s.table, id, n),
       headerFlag := false, noHeader := false, endFlag := true)
  }

  function StepHeader(s: State, w: Word): (r: State)
    requires s.Valid()
    ensures r.Valid()
  {
    var s1 := if s.headerFlag && !s.endFlag then CloseEvent(s, s.moduleId) else s;
    s1.Append(w, false).(headerFlag := true, endFlag := false, moduleId := ModuleId(w))
  }

  function StepData(s: State, w: Word): (r: State)
    requires s.Valid()
    ensures r.Valid()
  {
    if s.Idle() then
      s.Append(w, true).Append(w, false).(noHeader := true, headerPos := |s.out|)
    else
      s.Append(w, false)
  }

  function StepEnd(s: State, w: Word, mid: int, res: int): (r: State)
    requires s.Valid() && 0 <= mid < N_COUNTERS
    ensures r.Valid()
  {
    var count := EventCounter(w);
    var id := if 0 <= s.moduleId < N_COUNTERS then mid else s.moduleId;
    var t := s.Append(w, false);
    var out := if s.Pending()
               then t.out[s.headerPos := PackHeader(|t.out| - s.headerPos - 1, res, mid, SUB_NO_HEADER)]
               else t.out;
    t.(out := out, eventCount := count, moduleId := id, table := Record(s.table, id, count),
       headerFlag := false, noHeader := false, endFlag := true)
  }

  /** One pass of the read-out loop. */
  function Step(s: State, w: Word, mid: int, res: int): (r: State)
    requires s.Valid() && 0 <= mid < N_COUNTERS
    ensures r.Valid()
  {
    if Sig(w) == SIG_HEADER then StepHeader(s, w)
    else if Sig(w) == SIG_DATA then StepData(s, w)
    else if Sig(w) == SIG_END then StepEnd(s, w, mid, res)
    else s.Append(w, false)
  }

  function Run(s: State, ws: seq<Word>, mid: int, res: int): (r: State)
    requires s.Valid() && 0 <= mid < N_COUNTERS
    ensures r.Valid()
    decreases |ws|
  {
    if ws == [] then s else Run(Step(s, ws[0], mid, res), ws[1..], mid, res)
  }

  /** What happens behind the loop: an event still open is closed. */
  function Finish(s: State, mid: int): (r: State)
    requires s.Valid() && 0 <= mid < N_COUNTERS
    ensures r.Valid()
  {
    if s.headerFlag && !s.endFlag then CloseEvent(s, mid) else s
  }

  /** The buffer contents and the counter table a whole call leaves behind. */
  function Repaired(table: Table, ws: seq<Word>, mid: int, res: int): (r: State)
    requires 0 <= mid < N_COUNTERS
    ensures r.Valid()
  {
    Finish(Run(Init(table), ws, mid, res), mid)
  }

  /** Filler for the 64-bit boundary. */
  function Padded(out: seq<Word>): (r: seq<Word>)
    ensures |r| % 2 == 0 && out <= r && |r| <= |out| + 1
  {
    if |out| % 2 == 1 then out + [0] else out
  }

  lemma {:induction false} RunAppend(s: State, a: seq<Word>, b: seq<Word>, mid: int, res: int)
    requires s.Valid() && 0 <= mid < N_COUNTERS
    ensures Run(s, a + b, mid, res) == Run(Run(s, a, mid, res), b, mid, res)
    decreases |a|
  {
    if a == [] {
      assert a + b == b;
    } else {
      assert (a + b)[1..] == a[1..] + b;
      RunAppend(Step(s, a[0], mid, res), a[1..], b, mid, res);
    }
  }

  // ---- Conservation: nothing the module sent is lost, altered or reordered ----

  /** The words at the positions that were not made up. */
  function Erase(out: seq<Word>, inserted: seq<bool>): seq<Word>
    requires |inserted| == |out|
  {
    if out == [] then []
    else
      var n := |out| - 1;
      Erase(out[..n], inserted[..n]) + (if inserted[n] then [] else [out[n]])
  }

  lemma EraseAppend(s: State, w: Word, made: bool)
    requires |s.inserted| == |s.out|
    ensures var t := s.Append(w, made);
            Erase(t.out, t.inserted) == Erase(s.out, s.inserted) + (if made then [] else [w])
  {
    var t := s.Append(w, made);
    assert t.out[..|s.out|] == s.out && t.inserted[..|s.out|] == s.inserted;
  }

  lemma {:induction false} EraseIgnoresInserted(out: seq<Word>, inserted: seq<bool>, pos: nat, w: Word)
    requires |inserted| == |out| && pos < |out| && inserted[pos]
    ensures Erase(out[pos := w], inserted) == Erase(out, inserted)
    decreases |out|
  {
    var n := |out| - 1;
    if pos < n {
      assert out[pos := w][..n] == out[..n][pos := w];
      EraseIgnoresInserted(out[..n], inserted[..n], pos, w);
    } else {
      assert out[pos := w][..n] == out[..n];
    }
  }

  lemma CloseConserves(s: State, id: int)
    requires s.Valid() && 0 <= id < N_COUNTERS
    ensures var r := CloseEvent(s, id); Erase(r.out, r.inserted) == Erase(s.out, s.inserted)
  {
    var e := PackEnd(Next(Cell(s.table, id)));
    EraseAppend(s, e, true);
    var t := s.Append(e, true);
    if t.headerPos >= 0 {
      EraseIgnoresInserted(t.out, t.inserted, t.headerPos, SetSubheader(t.out[t.headerPos], SUB_NO_END));
    }
  }

  lemma HeaderConserves(s: State, w: Word)
    requires s.Valid()
    ensures var r := StepHeader(s, w); Erase(r.out, r.inserted) == Erase(s.out, s.inserted) + [w]
  {
    if s.headerFlag && !s.endFlag {
      CloseConserves(s, s.moduleId);
      EraseAppend(CloseEvent(s, s.moduleId), w, false);
    } else {
      EraseAppend(s, w, false);
    }
  }

  lemma DataConserves(s: State, w: Word)
    requires s.Valid()
    ensures var r := StepData(s, w); Erase(r.out, r.inserted) == Erase(s.out, s.inserted) + [w]
  {
    if s.Idle() {
      EraseAppend2(s, w);
    } else {
      EraseAppend(s, w, false);
    }
  }

  lemma EraseAppend2(s: State, w: Word)
    requires |s.inserted| == |s.out|
    ensures var t := s.Append(w, true).Append(w, false);
            Erase(t.out, t.inserted) == Erase(s.out, s.inserted) + [w]
  {
    var e, a := Erase(s.out, s.inserted), s.Append(w, true);
    EraseAppend(s, w, true);
    assert e + [] == e;
    EraseAppend(a, w, false);
  }

  lemma EndConserves(s: State, w: Word, mid: int, res: int)
    requires s.Valid() && 0 <= mid < N_COUNTERS
    ensures var r := StepEnd(s, w, mid, res); Erase(r.out, r.inserted) == Erase(s.out, s.inserted) + [w]
  {
    EraseAppend(s, w, false);
    if s.Pending() {
      var t := s.Append(w, false);
      EraseIgnoresInserted(t.out, t.inserted, s.headerPos,
                           PackHeader(|t.out| - s.headerPos - 1, res, mid, SUB_NO_HEADER));
    }
  }

  lemma StepConserves(s: State, w: Word, mid: int, res: int)
    requires s.Valid() && 0 <= mid < N_COUNTERS
    ensures var r := Step(s, w, mid, res); Erase(r.out, r.inserted) == Erase(s.out, s.inserted) + [w]
  {
    if Sig(w) == SIG_HEADER {
      HeaderConserves(s, w);
    } else if Sig(w) == SIG_DATA {
      DataConserves(s, w);
    } else if Sig(w) == SIG_END {
      EndConserves(s, w, mid, res);
    } else {
      EraseAppend(s, w, false);
    }
  }

  lemma {:induction false} RunConserves(s: State, ws: seq<Word>, mid: int, res: int)
    requires s.Valid() && 0 <= mid < N_COUNTERS
    ensures var r := Run(s, ws, mid, res); Erase(r.out, r.inserted) == Erase(s.out, s.inserted) + ws
    decreases |ws|
  {
    if ws != [] {
      StepConserves(s, ws[0], mid, res);
      RunConserves(Step(s, ws[0], mid, res), ws[1..], mid, res);
      assert [ws[0]] + ws[1..] == ws;
    }
  }

  lemma StepSize(s: State, w: Word, mid: int, res: int)
    requires s.Valid() && 0 <= mid < N_COUNTERS
    ensures |s.out| < |Step(s, w, mid, res).out| <= |s.out| + 2
  {
  }

  lemma {:induction false} RunSize(s: State, ws: seq<Word>, mid: int, res: int)
    requires s.Valid() && 0 <= mid < N_COUNTERS
    ensures |s.out| <= |Run(s, ws, mid, res).out| <= |s.out| + 2 * |ws|
    decreases |ws|
  {
    if ws != [] {
      StepSize(s, ws[0], mid, res);
      RunSize(Step(s, ws[0], mid, res), ws[1..], mid, res);
    }
  }

  /** Whatever the module sends: erasing the inserted positions gives the input back, and the
      buffer holds at most two words per input word and one more. */
  lemma Conservation(table: Table, ws: seq<Word>, mid: int, res: int)
    requires 0 <= mid < N_COUNTERS
    ensures var r := Repaired(table, ws, mid, res);
            Erase(r.out, r.inserted) == ws && |r.out| <= 2 * |ws| + 1
  {
    RunConserves(Init(table), ws, mid, res);
    RunSize(Init(table), ws, mid, res);
    var s := Run(Init(table), ws, mid, res);
    if s.headerFlag && !s.endFlag {
      CloseConserves(s, mid);
    }
    assert [] + ws == ws;
  }

  lemma {:induction false} EventCountSeen(s: State, ws: seq<Word>, mid: int, res: int)
    requires s.Valid() && 0 <= mid < N_COUNTERS
    ensures Run(s, ws, mid, res).eventCount >= 0
            <==> s.eventCount >= 0 || exists i :: 0 <= i < |ws| && Sig(ws[i]) == SIG_END
    decreases |ws|
  {
    if ws != [] {
      EventCountSeen(Step(s, ws[0], mid, res), ws[1..], mid, res);
      assert forall i :: 0 < i < |ws| ==> ws[i] == ws[1..][i - 1];
    }
  }

  /** A call hands over a block exactly when its chunk holds an end-of-event word of the module. */
  lemma DeliveredIff(table: Table, ws: seq<Word>, mid: int, res: int)
    requires 0 <= mid < N_COUNTERS
    ensures Repaired(table, ws, mid, res).eventCount >= 0 <==> exists i :: 0 <= i < |ws| && Sig(ws[i]) == SIG_END
  {
    EventCountSeen(Init(table), ws, mid, res);
  }
}
