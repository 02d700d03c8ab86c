/**
 The repair said event by event, without buffers, flags or back-patching: every event
 gets the header or the end it lost, and a generated header knows by looking ahead
 whether a later event will lose its end.  The in-place repair computes exactly this.
 */
module MadcRepair {
  import opened Words
  import opened MadcStream
  import F = MadcFraming

  datatype Event =
    | Complete(h: Word, body: seq<Word>, e: Word)
    | LostEnd(h: Word, body: seq<Word>)
    | LostHeader(body: seq<Word>, e: Word)
  {
    predicate Valid() {
      && (forall i :: 0 <= i < |body| ==> IsBody(body[i]))
      && (!LostHeader? ==> Sig(h) == SIG_HEADER)
      && (!LostEnd? ==> Sig(e) == SIG_END)
      && (LostHeader? ==> body != [] && Sig(body[0]) == SIG_DATA)
    }

    function Words(): seq<Word> {
      match this
      case Complete(h, b, e) => [h] + b + [e]
      case LostEnd(h, b) => [h] + b
      case LostHeader(b, e) => b + [e]
    }
  }

  function Flatten(evs: seq<Event>): seq<Word> {
    if evs == [] then [] else evs[0].Words() + Flatten(evs[1..])
  }

  predicate AllValid(evs: seq<Event>) {
    forall i :: 0 <= i < |evs| ==> evs[i].Valid()
  }

  /** An endless event followed by a headless one cannot be told from a single complete event. */
  predicate Normal(evs: seq<Event>) {
    && AllValid(evs)
    && forall i :: 0 <= i < |evs| - 1 ==> !(evs[i].LostEnd? && evs[i + 1].LostHeader?)
  }

  // ---- The reference repair ----

  /** Is the first faulty event from here on one that lost its end? */
  predicate LateEnd(evs: seq<Event>) {
    evs != [] && (evs[0].LostEnd? || (evs[0].Complete? && LateEnd(evs[1..])))
  }

  datatype Result = Result(words: seq<Word>, table: Table)

  /** The cell that counts a generated end: the module's own at the end of a chunk, else the header's. */
  function EndCell(evs: seq<Event>, mid: int): (id: int)
    requires evs != [] && evs[0].LostEnd? && 0 <= mid < N_COUNTERS
    ensures 0 <= id < N_COUNTERS
  {
    if |evs| == 1 then mid else ModuleId(evs[0].h)
  }

  function Repair(evs: seq<Event>, seen: bool, table: Table, mid: int, res: int): Result
    requires 0 <= mid < N_COUNTERS
  {
    if evs == [] then Result([], table)
    else
      match evs[0]
      case Complete(h, b, e) =>
        var r := Repair(evs[1..], true, Record(table, mid, EventCounter(e)), mid, res);
        r.(words := evs[0].Words() + r.words)
      case LostEnd(h, b) =>
        var id := EndCell(evs, mid);
        var n := Next(Cell(table, id));
        var r := Repair(evs[1..], true, Record(table, id, n), mid, res);
        r.(words := [h] + b + [PackEnd(n)] + r.words)
      case LostHeader(b, e) =>
        var r := Repair(evs[1..], seen, Record(table, if seen then mid else -1, EventCounter(e)), mid, res);
        var sub := if LateEnd(evs[1..]) then SUB_NO_END else SUB_NO_HEADER;
        r.(words := [PackHeader(|b| + 1, res, mid, sub)] + evs[0].Words() + r.words)
  }

  // ---- What the loop does with one event ----

  lemma {:induction false} RunBody(s: State, b: seq<Word>, mid: int, res: int)
    requires s.Valid() && 0 <= mid < N_COUNTERS && !s.Idle()
    requires forall i :: 0 <= i < |b| ==> IsBody(b[i])
    ensures var r := Run(s, b, mid, res);
            && r.out == s.out + b
            && r == s.(out := r.out, inserted := r.inserted)
    decreases |b|
  {
    if b == [] {
      assert s.out + b == s.out;
    } else {
      RunBody(Step(s, b[0], mid, res), b[1..], mid, res);
      assert (s.out + [b[0]]) + b[1..] == s.out + b;
    }
  }

  lemma RunHeaded(s: State, h: Word, b: seq<Word>, mid: int, res: int)
    requires s.Valid() && 0 <= mid < N_COUNTERS && s.Idle() && Sig(h) == SIG_HEADER
    requires forall i :: 0 <= i < |b| ==> IsBody(b[i])
    ensures var r := Run(s, [h] + b, mid, res);
            && r.out == s.out + [h] + b && r.headerFlag && !r.noHeader && !r.endFlag
            && r.headerPos == s.headerPos && r.moduleId == ModuleId(h) && r.table == s.table
  {
    assert ([h] + b)[1..] == b;
    RunBody(Step(s, h, mid, res), b, mid, res);
  }

  lemma RunComplete(s: State, ev: Event, mid: int, res: int)
    requires s.Valid() && 0 <= mid < N_COUNTERS && s.Idle() && ev.Valid() && ev.Complete?
    ensures var r := Run(s, ev.Words(), mid, res);
            && r.out == s.out + ev.Words() && r.Idle() && r.headerPos == s.headerPos
            && r.moduleId == mid && r.table == Record(s.table, mid, EventCounter(ev.e))
  {
    RunHeaded(s, ev.h, ev.body, mid, res);
    RunAppend(s, [ev.h] + ev.body, [ev.e], mid, res);
    var t := Run(s, [ev.h] + ev.body, mid, res);
    assert Run(t, [ev.e], mid, res) == Step(t, ev.e, mid, res);
  }

  lemma RunFragment(s: State, b: seq<Word>, mid: int, res: int)
    requires s.Valid() && 0 <= mid < N_COUNTERS && s.Idle()
    requires b != [] && Sig(b[0]) == SIG_DATA && forall i :: 0 <= i < |b| ==> IsBody(b[i])
    ensures var r := Run(s, b, mid, res);
            && r.out == s.out + [b[0]] + b && r.Pending() && r.headerPos == |s.out|
            && r.moduleId == s.moduleId && r.table == s.table
  {
    var w, t := b[0], Step(s, b[0], mid, res);
    RunBody(t, b[1..], mid, res);
    assert t.out == s.out + [w] + [w];
    assert [w] + b[1..] == b;
  }

  lemma EndFragment(s: State, n: nat, b: seq<Word>, e: Word, mid: int, res: int)
    requires s.Valid() && 0 <= mid < N_COUNTERS && Sig(e) == SIG_END && s.Pending()
    requires s.headerPos == n && |s.out| == n + 1 + |b| && s.out[n + 1..] == b
    ensures var r := Step(s, e, mid, res);
            && r.out == s.out[..n] + [PackHeader(|b| + 1, res, mid, SUB_NO_HEADER)] + (b + [e])
            && r.Idle() && r.headerPos == n
            && r.moduleId == (if s.moduleId >= 0 then mid else -1)
            && r.table == Record(s.table, r.moduleId, EventCounter(e))
  {
    var r := StepEnd(s, e, mid, res);
    assert r.out[n + 1..] == b + [e];
    assert r.out == r.out[..n] + [r.out[n]] + r.out[n + 1..];
  }

  lemma RunHeadless(s: State, ev: Event, mid: int, res: int)
    requires s.Valid() && 0 <= mid < N_COUNTERS && s.Idle() && ev.Valid() && ev.LostHeader?
    ensures var r := Run(s, ev.Words(), mid, res);
            && r.out == s.out + [PackHeader(|ev.body| + 1, res, mid, SUB_NO_HEADER)] + ev.Words()
            && r.Idle() && r.headerPos == |s.out|
            && r.moduleId == (if s.moduleId >= 0 then mid else -1)
            && r.table == Record(s.table, r.moduleId, EventCounter(ev.e))
  {
    RunFragment(s, ev.body, mid, res);
    var u := Run(s, ev.body, mid, res);
    EndFragment(u, |s.out|, ev.body, ev.e, mid, res);
    RunAppend(s, ev.body, [ev.e], mid, res);
    assert Run(u, [ev.e], mid, res) == Step(u, ev.e, mid, res);
  }

  /** A header that finds an event open closes it first; so does the end of the chunk. */
  lemma CloseOpen(s: State, ws: seq<Word>, mid: int, res: int)
    requires s.Valid() && 0 <= mid < N_COUNTERS && s.headerFlag && !s.endFlag
    requires ws != [] && Sig(ws[0]) == SIG_HEADER
    ensures Run(s, ws, mid, res) == Run(CloseEvent(s, s.moduleId), ws, mid, res)
  {
  }

  // ---- In-place repair = reference repair ----

  function PatchedIf(out: seq<Word>, pos: int, late: bool): (r: seq<Word>)
    requires -1 <= pos < |out|
  {
    if late then LatePatch(out, pos) else out
  }

  lemma PatchTwice(out: seq<Word>, pos: int)
    requires -1 <= pos < |out|
    ensures LatePatch(LatePatch(out, pos), pos) == LatePatch(out, pos)
  {
  }

  lemma PatchConcat(a: seq<Word>, b: seq<Word>, pos: int, late: bool)
    requires -1 <= pos < |a|
    ensures PatchedIf(a + b, pos, late) == PatchedIf(a, pos, late) + b
  {
    if late && pos >= 0 {
      var w := SetSubheader(a[pos], SUB_NO_END);
      assert (a + b)[pos] == a[pos];
      assert (a + b)[pos := w] == a[pos := w] + b;
    }
  }

  lemma FlattenStart(evs: seq<Event>)
    requires evs != [] && AllValid(evs) && !evs[0].LostHeader?
    ensures Flatten(evs) != [] && Sig(Flatten(evs)[0]) == SIG_HEADER
  {
  }

  ghost predicate Matches(s: State, evs: seq<Event>, mid: int, res: int)
    requires s.Valid() && 0 <= mid < N_COUNTERS
  {
    var r := Finish(Run(s, Flatten(evs), mid, res), mid);
    var spec := Repair(evs, s.moduleId >= 0, s.table, mid, res);
    r.out == PatchedIf(s.out, s.headerPos, LateEnd(evs)) + spec.words && r.table == spec.table
  }

  lemma GlueComplete(out: seq<Word>, pos: int, late: bool, ws: seq<Word>, rest: seq<Word>)
    requires -1 <= pos < |out|
    ensures PatchedIf(out + ws, pos, late) + rest == PatchedIf(out, pos, late) + (ws + rest)
  {
    PatchConcat(out, ws, pos, late);
  }

  lemma GlueHeadless(out: seq<Word>, nWords: int, res: int, mid: int, late: bool, ws: seq<Word>, rest: seq<Word>)
    ensures var g := PackHeader(nWords, res, mid, SUB_NO_HEADER);
            var g' := PackHeader(nWords, res, mid, if late then SUB_NO_END else SUB_NO_HEADER);
            PatchedIf(out + [g] + ws, |out|, late) + rest == out + ([g'] + ws + rest)
  {
    var g := PackHeader(nWords, res, mid, SUB_NO_HEADER);
    PatchConcat(out + [g], ws, |out|, late);
  }

  lemma GlueEndless(out: seq<Word>, pos: int, late: bool, ws: seq<Word>, rest: seq<Word>)
    requires -1 <= pos < |out|
    ensures PatchedIf(LatePatch(out + ws, pos), pos, late) + rest == LatePatch(out, pos) + (ws + rest)
  {
    PatchTwice(out + ws, pos);
    PatchConcat(out, ws, pos, true);
  }

  lemma RunSplit(s: State, evs: seq<Event>, mid: int, res: int)
    requires s.Valid() && 0 <= mid < N_COUNTERS && evs != []
    ensures Run(s, Flatten(evs), mid, res) == Run(Run(s, evs[0].Words(), mid, res), Flatten(evs[1..]), mid, res)
  {
    RunAppend(s, evs[0].Words(), Flatten(evs[1..]), mid, res);
  }

  lemma MatchComplete(s: State, evs: seq<Event>, mid: int, res: int, t: State)
    requires s.Valid() && 0 <= mid < N_COUNTERS && s.Idle() && Normal(evs) && evs != [] && evs[0].Complete?
    requires t == Run(s, evs[0].Words(), mid, res) && Matches(t, evs[1..], mid, res)
    ensures Matches(s, evs, mid, res)
  {
    RunComplete(s, evs[0], mid, res);
    RunSplit(s, evs, mid, res);
    var spec := Repair(evs[1..], true, t.table, mid, res);
    GlueComplete(s.out, s.headerPos, LateEnd(evs[1..]), evs[0].Words(), spec.words);
  }

  lemma MatchHeadless(s: State, evs: seq<Event>, mid: int, res: int, t: State)
    requires s.Valid() && 0 <= mid < N_COUNTERS && s.Idle() && Normal(evs) && evs != [] && evs[0].LostHeader?
    requires t == Run(s, evs[0].Words(), mid, res) && Matches(t, evs[1..], mid, res)
    ensures Matches(s, evs, mid, res)
  {
    var ev := evs[0];
    RunHeadless(s, ev, mid, res);
    RunSplit(s, evs, mid, res);
    var spec := Repair(evs[1..], t.moduleId >= 0, t.table, mid, res);
    GlueHeadless(s.out, |ev.body| + 1, res, mid, LateEnd(evs[1..]), ev.Words(), spec.words);
  }

  lemma RunEndless(s: State, ev: Event, mid: int, res: int, id: int)
    requires s.Valid() && 0 <= mid < N_COUNTERS && s.Idle() && ev.Valid() && ev.LostEnd? && 0 <= id < N_COUNTERS
    ensures var t := Run(s, ev.Words(), mid, res);
            var c := CloseEvent(t, id);
            var n := Next(Cell(s.table, id));
            && t.headerFlag && !t.endFlag && t.moduleId == ModuleId(ev.h)
            && c.out == LatePatch(s.out + ([ev.h] + ev.body + [PackEnd(n)]), s.headerPos)
            && c.headerPos == s.headerPos && c.table == Record(s.table, id, n) && c.Idle() && c.moduleId == t.moduleId
  {
    RunHeaded(s, ev.h, ev.body, mid, res);
    var n := Next(Cell(s.table, id));
    assert s.out + [ev.h] + ev.body + [PackEnd(n)] == s.out + ([ev.h] + ev.body + [PackEnd(n)]);
  }

  lemma MatchEndless(s: State, evs: seq<Event>, mid: int, res: int, t: State)
    requires s.Valid() && 0 <= mid < N_COUNTERS && s.Idle() && Normal(evs) && |evs| > 1 && evs[0].LostEnd?
    requires t == Run(s, evs[0].Words(), mid, res) && t.headerFlag && !t.endFlag
    requires Matches(CloseEvent(t, t.moduleId), evs[1..], mid, res)
    ensures Matches(s, evs, mid, res)
  {
    var ev := evs[0];
    RunEndless(s, ev, mid, res, ModuleId(ev.h));
    RunSplit(s, evs, mid, res);
    FlattenStart(evs[1..]);
    CloseOpen(t, Flatten(evs[1..]), mid, res);
    var n := Next(Cell(s.table, t.moduleId));
    var spec := Repair(evs[1..], true, Record(s.table, t.moduleId, n), mid, res);
    GlueEndless(s.out, s.headerPos, LateEnd(evs[1..]), [ev.h] + ev.body + [PackEnd(n)], spec.words);
  }

  lemma MatchLastEndless(s: State, evs: seq<Event>, mid: int, res: int)
    requires s.Valid() && 0 <= mid < N_COUNTERS && s.Idle() && Normal(evs) && |evs| == 1 && evs[0].LostEnd?
    ensures Matches(s, evs, mid, res)
  {
    var ev := evs[0];
    RunEndless(s, ev, mid, res, mid);
    assert Flatten(evs) == ev.Words() by { assert Flatten(evs[1..]) == []; }
    var n := Next(Cell(s.table, mid));
    var ws := [ev.h] + ev.body + [PackEnd(n)];
    PatchConcat(s.out, ws, s.headerPos, true);
    assert Repair(evs, s.moduleId >= 0, s.table, mid, res) == Result(ws, Record(s.table, mid, n)) by {
      assert Repair(evs[1..], true, Record(s.table, mid, n), mid, res) == Result([], Record(s.table, mid, n));
      assert ws + [] == ws;
    }
  }

  lemma {:induction false} RunMatches(s: State, evs: seq<Event>, mid: int, res: int)
    requires s.Valid() && 0 <= mid < N_COUNTERS && s.Idle() && Normal(evs)
    ensures Matches(s, evs, mid, res)
    decreases |evs|
  {
    if evs == [] {
    } else {
      var t := Run(s, evs[0].Words(), mid, res);
      match evs[0] {
        case Complete(_, _, _) =>
          RunComplete(s, evs[0], mid, res);
          RunMatches(t, evs[1..], mid, res);
          MatchComplete(s, evs, mid, res, t);
        case LostHeader(_, _) =>
          RunHeadless(s, evs[0], mid, res);
          RunMatches(t, evs[1..], mid, res);
          MatchHeadless(s, evs, mid, res, t);
        case LostEnd(_, _) =>
          if |evs| == 1 {
            MatchLastEndless(s, evs, mid, res);
          } else {
            RunEndless(s, evs[0], mid, res, ModuleId(evs[0].h));
            RunMatches(CloseEvent(t, t.moduleId), evs[1..], mid, res);
            MatchEndless(s, evs, mid, res, t);
          }
      }
    }
  }

  /** The one-pass, back-patching repair of a chunk is the look-ahead repair of its events. */
  lemma RepairedIsRepair(evs: seq<Event>, table: Table, mid: int, res: int)
    requires 0 <= mid < N_COUNTERS && Normal(evs)
    ensures var r := Repaired(table, Flatten(evs), mid, res);
            var spec := Repair(evs, false, table, mid, res);
            r.out == spec.words && r.table == spec.table
  {
    RunMatches(Init(table), evs, mid, res);
  }

  // ---- Repairable chunks are the concatenations of the three kinds of event ----

  lemma {:induction false} ModeConcat(m: F.Mode, a: seq<Word>, b: seq<Word>)
    ensures F.ModeAfter(m, a + b) == F.ModeAfter(F.ModeAfter(m, a), b)
    decreases |a|
  {
    if a == [] {
      assert a + b == b;
    } else {
      assert (a + b)[1..] == a[1..] + b;
      ModeConcat(F.NextMode(m, a[0]), a[1..], b);
    }
  }

  lemma {:induction false} ModeBody(m: F.Mode, b: seq<Word>)
    requires m != F.Between && forall i :: 0 <= i < |b| ==> IsBody(b[i])
    ensures F.ModeAfter(m, b) == m
    decreases |b|
  {
    if b != [] {
      ModeBody(m, b[1..]);
    }
  }

  lemma ModePush(m: F.Mode, a: seq<Word>, w: Word)
    ensures F.ModeAfter(m, a + [w]) == F.NextMode(F.ModeAfter(m, a), w)
  {
    ModeConcat(m, a, [w]);
    assert F.ModeAfter(F.ModeAfter(m, a), [w]) == F.NextMode(F.ModeAfter(m, a), w);
  }

  /** Where an event leaves the reader. */
  lemma ModeEvent(m: F.Mode, ev: Event)
    requires (m == F.Between || m == F.Headed) && ev.Valid()
    ensures F.ModeAfter(m, ev.Words()) == if ev.LostEnd? then F.Headed else F.Between
  {
    if !ev.LostHeader? {
      assert ([ev.h] + ev.body)[1..] == ev.body;
      ModeBody(F.Headed, ev.body);
      if ev.Complete? { ModePush(m, [ev.h] + ev.body, ev.e); }
    } else {
      var b := ev.body;
      ModeBody(F.NextMode(m, b[0]), b[1..]);
      ModePush(m, b, ev.e);
    }
  }

  lemma {:induction false} FlattenRepairable(m: F.Mode, evs: seq<Event>)
    requires (m == F.Between || m == F.Headed) && AllValid(evs)
    ensures F.Repairable(m, Flatten(evs))
    decreases |evs|
  {
    if evs != [] {
      ModeEvent(m, evs[0]);
      ModeConcat(m, evs[0].Words(), Flatten(evs[1..]));
      FlattenRepairable(if evs[0].LostEnd? then F.Headed else F.Between, evs[1..]);
    }
  }

  lemma Attach(ev: Event, rest: seq<Event>) returns (evs: seq<Event>)
    requires ev.Valid() && Normal(rest) && (ev.LostEnd? && rest != [] ==> !rest[0].LostHeader?)
    ensures Normal(evs) && Flatten(evs) == ev.Words() + Flatten(rest) && evs != [] && evs[0] == ev
  {
    evs := [ev] + rest;
    assert evs[1..] == rest;
  }

  /** Cuts a chunk behind its leading body words. */
  lemma {:induction false} SplitBody(ws: seq<Word>) returns (b: seq<Word>, rest: seq<Word>)
    ensures ws == b + rest && forall i :: 0 <= i < |b| ==> IsBody(b[i])
    ensures rest != [] ==> !IsBody(rest[0])
    ensures ws != [] && IsBody(ws[0]) ==> b != []
    decreases |ws|
  {
    if ws == [] || !IsBody(ws[0]) {
      b, rest := [], ws;
    } else {
      b, rest := SplitBody(ws[1..]);
      b := [ws[0]] + b;
    }
  }

  lemma SplitHeaded(ws: seq<Word>) returns (h: Word, b: seq<Word>, rest: seq<Word>)
    requires ws != [] && Sig(ws[0]) == SIG_HEADER
    ensures LostEnd(h, b).Valid() && ws == [h] + b + rest && (rest != [] ==> !IsBody(rest[0]))
    ensures forall m | m == F.Between || m == F.Headed :: F.ModeAfter(m, ws) == F.ModeAfter(F.Headed, rest)
  {
    h := ws[0];
    b, rest := SplitBody(ws[1..]);
    forall m | m == F.Between || m == F.Headed ensures F.ModeAfter(m, ws) == F.ModeAfter(F.Headed, rest) {
      ModeConcat(F.Headed, b, rest);
      ModeBody(F.Headed, b);
    }
  }

  lemma SplitHeadless(ws: seq<Word>) returns (b: seq<Word>, e: Word, rest: seq<Word>)
    requires ws != [] && Sig(ws[0]) == SIG_DATA && F.Repairable(F.Between, ws)
    ensures LostHeader(b, e).Valid() && ws == b + [e] + rest && F.Repairable(F.Between, rest)
  {
    var tail;
    b, tail := SplitBody(ws);
    ModeConcat(F.Between, b, tail);
    ModeBody(F.Headless, b[1..]);
    if tail != [] && Sig(tail[0]) == SIG_END {
      e, rest := tail[0], tail[1..];
    } else {
      if tail != [] { F.HopelessAfter(tail[1..]); }
      assert false;
    }
  }

  lemma {:induction false} ParseEvents(ws: seq<Word>) returns (evs: seq<Event>)
    requires F.Repairable(F.Between, ws)
    ensures Normal(evs) && Flatten(evs) == ws
    decreases |ws|
  {
    if ws == [] {
      evs := [];
    } else if Sig(ws[0]) == SIG_HEADER {
      evs := ParseHeaded(ws);
    } else if Sig(ws[0]) == SIG_DATA {
      var b, e, rest := SplitHeadless(ws);
      var tail := ParseEvents(rest);
      evs := Attach(LostHeader(b, e), tail);
    } else {
      F.HopelessAfter(ws[1..]);
      assert false;
    }
  }

  lemma RejoinEnd(h: Word, b: seq<Word>, rest: seq<Word>)
    requires rest != []
    ensures [h] + b + [rest[0]] + rest[1..] == [h] + b + rest
  {
  }

  lemma AttachComplete(h: Word, b: seq<Word>, rest: seq<Word>, tail: seq<Event>) returns (evs: seq<Event>)
    requires LostEnd(h, b).Valid() && rest != [] && Sig(rest[0]) == SIG_END
    requires Normal(tail) && Flatten(tail) == rest[1..]
    ensures Normal(evs) && Flatten(evs) == [h] + b + rest
  {
    evs := Attach(Complete(h, b, rest[0]), tail);
    RejoinEnd(h, b, rest);
  }

  lemma HeadlessStart(evs: seq<Event>)
    requires evs != [] && evs[0].Valid() && evs[0].LostHeader?
    ensures Flatten(evs) != [] && Sig(Flatten(evs)[0]) == SIG_DATA
  {
    assert Flatten(evs)[0] == evs[0].body[0];
  }

  lemma AttachEndless(h: Word, b: seq<Word>, rest: seq<Word>, tail: seq<Event>) returns (evs: seq<Event>)
    requires LostEnd(h, b).Valid() && (rest != [] ==> Sig(rest[0]) == SIG_HEADER)
    requires Normal(tail) && Flatten(tail) == rest
    ensures Normal(evs) && Flatten(evs) == [h] + b + rest
  {
    if tail != [] && tail[0].LostHeader? {
      HeadlessStart(tail);
      assert false;
    } else {
      evs := Attach(LostEnd(h, b), tail);
    }
  }

  lemma {:induction false} ParseHeaded(ws: seq<Word>) returns (evs: seq<Event>)
    requires ws != [] && Sig(ws[0]) == SIG_HEADER && F.Repairable(F.Between, ws)
    ensures Normal(evs) && Flatten(evs) == ws
    decreases |ws|, 0
  {
    var h, b, rest := SplitHeaded(ws);
    if rest != [] && Sig(rest[0]) == SIG_END {
      var tail := ParseEvents(rest[1..]);
      evs := AttachComplete(h, b, rest, tail);
    } else {
      var tail := ParseEvents(rest);
      evs := AttachEndless(h, b, rest, tail);
    }
  }

  /** Repairable = cut out of complete, endless and headless events, in any order and number. */
  lemma RepairableIffEvents(ws: seq<Word>)
    ensures F.Repairable(F.Between, ws) <==> exists evs :: AllValid(evs) && Flatten(evs) == ws
    ensures F.Repairable(F.Between, ws) <==> exists evs :: Normal(evs) && Flatten(evs) == ws
  {
    if F.Repairable(F.Between, ws) {
      var evs := ParseEvents(ws);
    }
    forall evs | AllValid(evs) && Flatten(evs) == ws ensures F.Repairable(F.Between, ws) {
      FlattenRepairable(F.Between, evs);
    }
  }

  /** Every chunk made of the three kinds of event comes out as `(header body* end)*`, and no other chunk does. */
  lemma EventsComeOutFramed(table: Table, ws: seq<Word>, mid: int, res: int)
    requires 0 <= mid < N_COUNTERS
    ensures F.Framed(Repaired(table, ws, mid, res).out) <==> exists evs :: AllValid(evs) && Flatten(evs) == ws
  {
    F.FramedIffRepairable(table, ws, mid, res);
    RepairableIffEvents(ws);
  }
}
