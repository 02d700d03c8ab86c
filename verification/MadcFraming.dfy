/**
 When is a repaired buffer a sequence of events `header body* end`?  Exactly when the
 chunk was cut out of complete events, events without their end and events without
 their header -- decided here for every input, late patches included.
 */
module MadcFraming {
  import opened Words
  import opened MadcStream

  // ---- The shape of a correct buffer ----

  datatype Frame = Outside | Inside | Broken

  function Advance(f: Frame, w: Word): Frame {
    if f == Outside && Sig(w) == SIG_HEADER then Inside
    else if f == Inside && Sig(w) == SIG_END then Outside
    else if f == Inside && IsBody(w) then Inside
    else Broken
  }

  function Scan(f: Frame, ws: seq<Word>): Frame
    decreases |ws|
  {
    if ws == [] then f else Advance(Scan(f, ws[..|ws| - 1]), ws[|ws| - 1])
  }

  /** `(header body* end)*` */
  predicate Framed(ws: seq<Word>) { Scan(Outside, ws) == Outside }

  // ---- The chunks that can be repaired ----

  datatype Mode = Between | Headed | Headless | Hopeless

  /** Reading a chunk from left to right as complete, endless and headless events. */
  function NextMode(m: Mode, w: Word): Mode {
    match m
    case Between => if Sig(w) == SIG_HEADER then Headed else if Sig(w) == SIG_DATA then Headless else Hopeless
    case Headed => if Sig(w) == SIG_END then Between else Headed
    case Headless => if Sig(w) == SIG_END then Between else if Sig(w) == SIG_HEADER then Hopeless else Headless
    case Hopeless => Hopeless
  }

  function ModeAfter(m: Mode, ws: seq<Word>): Mode
    decreases |ws|
  {
    if ws == [] then m else ModeAfter(NextMode(m, ws[0]), ws[1..])
  }

  predicate Repairable(m: Mode, ws: seq<Word>) {
    ModeAfter(m, ws) == Between || ModeAfter(m, ws) == Headed
  }

  // ---- Facts about scanning ----

  lemma ScanPush(f: Frame, ws: seq<Word>, w: Word)
    ensures Scan(f, ws + [w]) == Advance(Scan(f, ws), w)
  {
    assert (ws + [w])[..|ws|] == ws;
  }

  lemma {:induction false} ScanConcat(f: Frame, a: seq<Word>, b: seq<Word>)
    ensures Scan(f, a + b) == Scan(Scan(f, a), b)
    decreases |b|
  {
    if b == [] {
      assert a + b == a;
    } else {
      var n := |b| - 1;
      assert (a + b)[..|a| + n] == a + b[..n];
      ScanConcat(f, a, b[..n]);
    }
  }

  lemma {:induction false} ScanSigs(f: Frame, a: seq<Word>, b: seq<Word>)
    requires |a| == |b| && forall i :: 0 <= i < |a| ==> Sig(a[i]) == Sig(b[i])
    ensures Scan(f, a) == Scan(f, b)
    decreases |a|
  {
    if a != [] {
      ScanSigs(f, a[..|a| - 1], b[..|b| - 1]);
    }
  }

  lemma {:induction false} ScanBody(ws: seq<Word>)
    requires forall i :: 0 <= i < |ws| ==> IsBody(ws[i])
    ensures Scan(Inside, ws) == Inside
    decreases |ws|
  {
    if ws != [] {
      ScanBody(ws[..|ws| - 1]);
    }
  }

  lemma {:induction false} ScanBroken(ws: seq<Word>)
    ensures Scan(Broken, ws) == Broken
    decreases |ws|
  {
    if ws != [] {
      ScanBroken(ws[..|ws| - 1]);
    }
  }

  // ---- What has been written stays ----

  /** The placeholder that an end of event may still turn into a header. */
  predicate Open(s: State, i: int) { s.Pending() && i == s.headerPos }

  /** From `s` to `r` every word stays what it is, except that the open placeholder may become a header and
      that a made-up word may get another subheader. */
  predicate KeepsWords(s: State, r: State)
    requires s.Valid() && r.Valid()
  {
    && |s.out| <= |r.out|
    && (forall i :: 0 <= i < |s.out| ==> r.inserted[i] == s.inserted[i])
    && (forall i :: 0 <= i < |s.out| && !s.inserted[i] ==> r.out[i] == s.out[i])
    && (forall i :: 0 <= i < |s.out| && !Open(s, i) ==>
          Sig(r.out[i]) == Sig(s.out[i]) && Low(r.out[i]) == Low(s.out[i]))
    && (forall i :: 0 <= i < |s.out| && Open(r, i) ==> Open(s, i))
  }

  lemma HeaderKeepsWords(s: State, w: Word)
    requires s.Valid()
    ensures KeepsWords(s, StepHeader(s, w))
  {
  }

  lemma EndKeepsWords(s: State, w: Word, mid: int, res: int)
    requires s.Valid() && 0 <= mid < N_COUNTERS
    ensures KeepsWords(s, StepEnd(s, w, mid, res))
  {
  }

  lemma StepKeepsWords(s: State, w: Word, mid: int, res: int)
    requires s.Valid() && 0 <= mid < N_COUNTERS
    ensures KeepsWords(s, Step(s, w, mid, res))
  {
    if Sig(w) == SIG_HEADER {
      HeaderKeepsWords(s, w);
    } else if Sig(w) == SIG_END {
      EndKeepsWords(s, w, mid, res);
    }
  }

  lemma KeepsWordsTwice(s: State, r: State, t: State)
    requires s.Valid() && r.Valid() && t.Valid() && KeepsWords(s, r) && KeepsWords(r, t)
    ensures KeepsWords(s, t)
  {
  }

  /** So it is over the rest of a call, whatever comes. */
  lemma {:induction false} RunKeepsWords(s: State, ws: seq<Word>, mid: int, res: int)
    requires s.Valid() && 0 <= mid < N_COUNTERS
    ensures KeepsWords(s, Finish(Run(s, ws, mid, res), mid))
    decreases |ws|
  {
    if ws == [] {
      FinishKeepsWords(s, mid);
    } else {
      var r := Step(s, ws[0], mid, res);
      StepKeepsWords(s, ws[0], mid, res);
      RunKeepsWords(r, ws[1..], mid, res);
      KeepsWordsTwice(s, r, Finish(Run(s, ws, mid, res), mid));
    }
  }

  lemma FinishKeepsWords(s: State, mid: int)
    requires s.Valid() && 0 <= mid < N_COUNTERS
    ensures KeepsWords(s, Finish(s, mid))
  {
  }

  /** A buffer whose settled part is broken is never mended. */
  lemma BrokenStays(s: State, ws: seq<Word>, mid: int, res: int)
    requires s.Valid() && 0 <= mid < N_COUNTERS
    requires !s.Pending() && Scan(Outside, s.out) == Broken
    ensures !Framed(Finish(Run(s, ws, mid, res), mid).out)
  {
    RunKeepsWords(s, ws, mid, res);
    var out := Finish(Run(s, ws, mid, res), mid).out;
    var k := |s.out|;
    ScanSigs(Outside, s.out, out[..k]);
    ScanConcat(Outside, out[..k], out[k..]);
    ScanBroken(out[k..]);
    assert out == out[..k] + out[k..];
  }

  // ---- The three ways the loop can stand ----

  predicate AtMode(s: State, m: Mode)
    requires s.Valid()
  {
    match m
    case Between => s.Idle() && Scan(Outside, s.out) == Outside
    case Headed => s.headerFlag && !s.noHeader && Scan(Outside, s.out) == Inside
    case Headless =>
      && s.Pending() && Scan(Outside, s.out[..s.headerPos]) == Outside
      && forall i :: s.headerPos <= i < |s.out| ==> IsBody(s.out[i])
    case Hopeless => !s.Pending() && Scan(Outside, s.out) == Broken
  }

  lemma ClosedScan(s: State, id: int)
    requires s.Valid() && 0 <= id < N_COUNTERS && AtMode(s, Headed)
    ensures AtMode(CloseEvent(s, id), Between)
  {
    var e := PackEnd(Next(Cell(s.table, id)));
    ScanPush(Outside, s.out, e);
    ScanSigs(Outside, s.out + [e], CloseEvent(s, id).out);
  }

  lemma PlaceholderScan(s: State, w: Word, mid: int, res: int)
    requires s.Valid() && 0 <= mid < N_COUNTERS && AtMode(s, Headless) && Sig(w) == SIG_END
    ensures AtMode(StepEnd(s, w, mid, res), Between)
  {
    var out := StepEnd(s, w, mid, res).out;
    var p := s.headerPos;
    var head, body := out[..p], out[p + 1..|out| - 1];
    assert head == s.out[..p] && body == s.out[p + 1..];
    assert out == ((head + [out[p]]) + body) + [w];
    ScanPush(Outside, head, out[p]);
    ScanConcat(Outside, head + [out[p]], body);
    ScanBody(body);
    ScanPush(Outside, (head + [out[p]]) + body, w);
  }

  /** A headless fragment that is cut off leaves its placeholder unfilled. */
  lemma FragmentBreaks(s: State)
    requires s.Valid() && AtMode(s, Headless)
    ensures Scan(Outside, s.out) == Broken
  {
    var p := s.headerPos;
    assert s.out == (s.out[..p] + [s.out[p]]) + s.out[p + 1..];
    ScanPush(Outside, s.out[..p], s.out[p]);
    ScanConcat(Outside, s.out[..p] + [s.out[p]], s.out[p + 1..]);
    ScanBroken(s.out[p + 1..]);
  }

  lemma BetweenStep(s: State, w: Word, mid: int, res: int)
    requires s.Valid() && 0 <= mid < N_COUNTERS && AtMode(s, Between)
    ensures AtMode(Step(s, w, mid, res), NextMode(Between, w))
  {
    ScanPush(Outside, s.out, w);
    if Sig(w) == SIG_DATA {
      var r := StepData(s, w);
      assert r.out[..r.headerPos] == s.out;
    }
  }

  lemma HeadedStep(s: State, w: Word, mid: int, res: int)
    requires s.Valid() && 0 <= mid < N_COUNTERS && AtMode(s, Headed)
    ensures AtMode(Step(s, w, mid, res), NextMode(Headed, w))
  {
    ScanPush(Outside, s.out, w);
    if Sig(w) == SIG_HEADER {
      ClosedScan(s, s.moduleId);
      ScanPush(Outside, CloseEvent(s, s.moduleId).out, w);
    }
  }

  lemma HeadlessStep(s: State, w: Word, mid: int, res: int)
    requires s.Valid() && 0 <= mid < N_COUNTERS && AtMode(s, Headless)
    ensures AtMode(Step(s, w, mid, res), NextMode(Headless, w))
  {
    if Sig(w) == SIG_END {
      PlaceholderScan(s, w, mid, res);
    } else if Sig(w) == SIG_HEADER {
      FragmentBreaks(s);
      ScanPush(Outside, s.out, w);
    } else {
      var r := Step(s, w, mid, res);
      assert r.out[..r.headerPos] == s.out[..s.headerPos];
    }
  }

  lemma {:induction false} HopelessAfter(ws: seq<Word>)
    ensures ModeAfter(Hopeless, ws) == Hopeless
    decreases |ws|
  {
    if ws != [] {
      HopelessAfter(ws[1..]);
    }
  }

  /** The loop moves in step with the modes; a hopeless buffer is never mended. */
  lemma {:induction false} FramedFrom(s: State, m: Mode, ws: seq<Word>, mid: int, res: int)
    requires s.Valid() && 0 <= mid < N_COUNTERS && AtMode(s, m)
    ensures Framed(Finish(Run(s, ws, mid, res), mid).out) <==> Repairable(m, ws)
    decreases |ws|
  {
    if m == Hopeless {
      BrokenStays(s, ws, mid, res);
      HopelessAfter(ws);
    } else if ws == [] {
      match m {
        case Between =>
        case Headed => ClosedScan(s, mid);
        case Headless => FragmentBreaks(s);
      }
    } else {
      match m {
        case Between => BetweenStep(s, ws[0], mid, res);
        case Headed => HeadedStep(s, ws[0], mid, res);
        case Headless => HeadlessStep(s, ws[0], mid, res);
      }
      FramedFrom(Step(s, ws[0], mid, res), NextMode(m, ws[0]), ws[1..], mid, res);
    }
  }

  /** For every chunk: the repaired buffer is `(header body* end)*` if and only if the chunk is repairable. */
  lemma FramedIffRepairable(table: Table, ws: seq<Word>, mid: int, res: int)
    requires 0 <= mid < N_COUNTERS
    ensures Framed(Repaired(table, ws, mid, res).out) <==> Repairable(Between, ws)
  {
    FramedFrom(Init(table), Between, ws, mid, res);
  }
}
