/**
 The headers the repair makes up, for every input whatsoever: each counts the words of its event
 and names the module, no matter which late patches follow.
 */
module MadcHeaders {
  import opened Words
  import opened MadcStream

  /** The event of the header at `p` ends at `q`, and the header says so. */
  predicate Counted(out: seq<Word>, p: nat, q: nat, mid: int, res: int) {
    && p < q < |out| && Sig(out[p]) == SIG_HEADER && Sig(out[q]) == SIG_END
    && (forall i :: p < i < q ==> IsBody(out[i]))
    && NDataWords(out[p]) == (q - p) % 0x1000
    && ModuleId(out[p]) == mid % 0x100 && AdcResolution(out[p]) == res % 8 && OutputFormat(out[p]) == 0
  }

  /** Every made-up position holds a counted header, an end of event, or an unfilled placeholder. */
  ghost predicate MadeUp(out: seq<Word>, inserted: seq<bool>, mid: int, res: int) {
    |inserted| == |out|
    && forall p :: 0 <= p < |out| && inserted[p] && Sig(out[p]) == SIG_HEADER ==>
         exists q :: Counted(out, p, q, mid, res)
  }

  ghost predicate Inv(s: State, mid: int, res: int) {
    && s.Valid() && MadeUp(s.out, s.inserted, mid, res)
    && (s.Pending() ==> forall i :: s.headerPos <= i < |s.out| ==> IsBody(s.out[i]))
  }

  /** Growing the buffer and patching subheaders keep what a header counts. */
  lemma CountedKept(a: seq<Word>, b: seq<Word>, p: nat, q: nat, mid: int, res: int)
    requires |a| <= |b| && Counted(a, p, q, mid, res)
    requires forall i :: 0 <= i < |a| ==> Sig(b[i]) == Sig(a[i])
    requires Low(b[p]) == Low(a[p])
    ensures Counted(b, p, q, mid, res)
  {
  }

  /** `t` extends `s` by words that are not made-up headers; old words keep all but the subheader. */
  predicate Extends(s: State, t: State) {
    && |s.out| <= |t.out| && |s.inserted| == |s.out| && |t.inserted| == |t.out|
    && (forall i :: 0 <= i < |s.out| ==> t.inserted[i] == s.inserted[i])
    && (forall i :: 0 <= i < |s.out| ==> Sig(t.out[i]) == Sig(s.out[i]) && Low(t.out[i]) == Low(s.out[i]))
    && (forall i :: |s.out| <= i < |t.out| && t.inserted[i] ==> Sig(t.out[i]) != SIG_HEADER)
  }

  lemma MadeUpExtends(s: State, t: State, mid: int, res: int)
    requires MadeUp(s.out, s.inserted, mid, res) && Extends(s, t)
    ensures MadeUp(t.out, t.inserted, mid, res)
  {
    forall p | 0 <= p < |t.out| && t.inserted[p] && Sig(t.out[p]) == SIG_HEADER
      ensures exists q :: Counted(t.out, p, q, mid, res)
    {
      assert s.inserted[p] && Sig(s.out[p]) == SIG_HEADER;
      var q :| Counted(s.out, p, q, mid, res);
      CountedKept(s.out, t.out, p, q, mid, res);
    }
  }

  /** Filling the placeholder in: the new header counts, the older ones lie in front of it. */
  lemma FillKeeps(s: State, t: State, mid: int, res: int)
    requires Inv(s, mid, res) && s.Pending() && |t.out| == |s.out| + 1 && |t.inserted| == |t.out|
    requires forall i :: 0 <= i < |s.out| ==> t.inserted[i] == s.inserted[i]
    requires forall i :: 0 <= i < |s.out| && i != s.headerPos ==> t.out[i] == s.out[i]
    requires !t.inserted[|s.out|] && Sig(t.out[|s.out|]) == SIG_END
    requires t.out[s.headerPos] == PackHeader(|s.out| - s.headerPos, res, mid, SUB_NO_HEADER)
    ensures MadeUp(t.out, t.inserted, mid, res)
  {
    assert Counted(t.out, s.headerPos, |s.out|, mid, res);
    forall p | 0 <= p < |t.out| && t.inserted[p] && Sig(t.out[p]) == SIG_HEADER
      ensures exists q :: Counted(t.out, p, q, mid, res)
    {
      if p != s.headerPos {
        var q :| Counted(s.out, p, q, mid, res);
        OlderEnds(s.out, p, q, s.headerPos, mid, res);
        assert Counted(t.out, p, q, mid, res);
      }
    }
  }

  /** An event that is counted ends in front of a stretch of body words, or begins behind its start. */
  lemma OlderEnds(out: seq<Word>, p: nat, q: nat, pos: nat, mid: int, res: int)
    requires Counted(out, p, q, mid, res) && forall i :: pos <= i < |out| ==> IsBody(out[i])
    ensures p < q < pos
  {
  }

  lemma CloseExtends(s: State, id: int)
    requires s.Valid() && 0 <= id < N_COUNTERS
    ensures Extends(s, CloseEvent(s, id))
  {
  }

  lemma CloseKeeps(s: State, id: int, mid: int, res: int)
    requires Inv(s, mid, res) && 0 <= id < N_COUNTERS
    ensures Inv(CloseEvent(s, id), mid, res)
  {
    CloseExtends(s, id);
    MadeUpExtends(s, CloseEvent(s, id), mid, res);
  }

  lemma AppendKeeps(s: State, w: Word, mid: int, res: int)
    requires Inv(s, mid, res)
    ensures MadeUp(s.out + [w], s.inserted + [false], mid, res)
  {
    assert Extends(s, s.Append(w, false));
    MadeUpExtends(s, s.Append(w, false), mid, res);
  }

  lemma HeaderKeeps(s: State, w: Word, mid: int, res: int)
    requires Inv(s, mid, res)
    ensures Inv(StepHeader(s, w), mid, res)
  {
    if s.headerFlag && !s.endFlag {
      CloseKeeps(s, s.moduleId, mid, res);
      AppendKeeps(CloseEvent(s, s.moduleId), w, mid, res);
    } else {
      AppendKeeps(s, w, mid, res);
    }
  }

  lemma DataKeeps(s: State, w: Word, mid: int, res: int)
    requires Inv(s, mid, res) && Sig(w) == SIG_DATA
    ensures Inv(StepData(s, w), mid, res)
  {
    assert Extends(s, StepData(s, w));
    MadeUpExtends(s, StepData(s, w), mid, res);
  }

  lemma EndKeeps(s: State, w: Word, mid: int, res: int)
    requires Inv(s, mid, res) && Sig(w) == SIG_END && 0 <= mid < N_COUNTERS
    ensures Inv(StepEnd(s, w, mid, res), mid, res)
  {
    if s.Pending() {
      FillKeeps(s, StepEnd(s, w, mid, res), mid, res);
    } else {
      AppendKeeps(s, w, mid, res);
    }
  }

  lemma StepKeeps(s: State, w: Word, mid: int, res: int)
    requires Inv(s, mid, res) && 0 <= mid < N_COUNTERS
    ensures Inv(Step(s, w, mid, res), mid, res)
  {
    if Sig(w) == SIG_HEADER {
      HeaderKeeps(s, w, mid, res);
    } else if Sig(w) == SIG_DATA {
      DataKeeps(s, w, mid, res);
    } else if Sig(w) == SIG_END {
      EndKeeps(s, w, mid, res);
    } else {
      AppendKeeps(s, w, mid, res);
    }
  }

  lemma {:induction false} RunKeeps(s: State, ws: seq<Word>, mid: int, res: int)
    requires Inv(s, mid, res) && 0 <= mid < N_COUNTERS
    ensures Inv(Run(s, ws, mid, res), mid, res)
    decreases |ws|
  {
    if ws != [] {
      StepKeeps(s, ws[0], mid, res);
      RunKeeps(Step(s, ws[0], mid, res), ws[1..], mid, res);
    }
  }

  /**
   Whatever the module sends: a header at a made-up position is followed by body words and an end
   of event, and its word count (modulo 4096) reaches exactly to that end.
   */
  lemma GeneratedHeadersCount(table: Table, ws: seq<Word>, mid: int, res: int, p: nat) returns (q: nat)
    requires 0 <= mid < N_COUNTERS
    requires var r := Repaired(table, ws, mid, res);
             p < |r.out| && r.inserted[p] && Sig(r.out[p]) == SIG_HEADER
    ensures Counted(Repaired(table, ws, mid, res).out, p, q, mid, res)
  {
    RunKeeps(Init(table), ws, mid, res);
    var s := Run(Init(table), ws, mid, res);
    if s.headerFlag && !s.endFlag {
      CloseKeeps(s, mid, mid, res);
    }
    q :| Counted(Repaired(table, ws, mid, res).out, p, q, mid, res);
  }
}
