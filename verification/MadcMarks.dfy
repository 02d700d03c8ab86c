/**
 The subheader of a generated header: it should say "no header", and says "no end of event" instead when a
 later event of the call turns out to have lost its end.
 */
module MadcMarks {
  import opened Words
  import opened MadcStream
  import opened MadcRepair
  import F = MadcFraming

  /** The first faulty event behind event `i` lost its end. */
  predicate NextFaultLostEnd(evs: seq<Event>, i: nat) {
    exists j :: i < j < |evs| && evs[j].LostEnd? && forall k :: i < k < j ==> evs[k].Complete?
  }

  /** Where event `i` begins in the repaired buffer: each event before it has its body, a header and an end. */
  function Place(evs: seq<Event>, i: nat): nat
    requires i <= |evs|
  {
    if i == 0 then 0 else Place(evs, i - 1) + |evs[i - 1].body| + 2
  }

  lemma {:induction false} PlaceBehind(evs: seq<Event>, i: nat)
    requires 0 < i <= |evs|
    ensures Place(evs, i) == |evs[0].body| + 2 + Place(evs[1..], i - 1)
  {
    if i > 1 {
      PlaceBehind(evs, i - 1);
    } else {
      assert Place(evs, 0) == 0 && Place(evs[1..], 0) == 0;
    }
  }

  /** One event of the reference repair: a header, the body and an end. */
  lemma RepairHead(evs: seq<Event>, seen: bool, table: Table, mid: int, res: int)
    returns (h: Word, e: Word, seen': bool, table': Table)
    requires 0 <= mid < N_COUNTERS && evs != []
    ensures Repair(evs, seen, table, mid, res).words
            == [h] + evs[0].body + [e] + Repair(evs[1..], seen', table', mid, res).words
    ensures evs[0].LostHeader? ==> h == Generated(evs[0], LateEnd(evs[1..]), mid, res)
  {
    match evs[0] {
      case Complete(h0, b, e0) =>
        h, e, seen', table' := h0, e0, true, Record(table, mid, EventCounter(e0));
      case LostEnd(h0, b) =>
        var id := EndCell(evs, mid);
        var n := Next(Cell(table, id));
        h, e, seen', table' := h0, PackEnd(n), true, Record(table, id, n);
      case LostHeader(b, e0) =>
        h, e := Generated(evs[0], LateEnd(evs[1..]), mid, res), e0;
        seen', table' := seen, Record(table, if seen then mid else -1, EventCounter(e0));
        assert [h] + (b + [e]) == [h] + b + [e];
    }
  }

  function Generated(ev: Event, late: bool, mid: int, res: int): Word {
    PackHeader(|ev.body| + 1, res, mid, if late then SUB_NO_END else SUB_NO_HEADER)
  }

  lemma {:induction false} GeneratedAt(evs: seq<Event>, seen: bool, table: Table, mid: int, res: int, i: nat)
    requires 0 <= mid < N_COUNTERS && i < |evs| && evs[i].LostHeader?
    ensures Place(evs, i) < |Repair(evs, seen, table, mid, res).words|
    ensures Repair(evs, seen, table, mid, res).words[Place(evs, i)]
            == Generated(evs[i], LateEnd(evs[i + 1..]), mid, res)
    decreases i
  {
    var h, e, seen', table' := RepairHead(evs, seen, table, mid, res);
    var rest := Repair(evs[1..], seen', table', mid, res).words;
    if i > 0 {
      GeneratedAt(evs[1..], seen', table', mid, res, i - 1);
      PlaceBehind(evs, i);
      assert evs[1..][i..] == evs[i + 1..];
      Behind(h, evs[0].body, e, rest, Place(evs[1..], i - 1));
    }
  }

  lemma Behind(h: Word, b: seq<Word>, e: Word, rest: seq<Word>, k: nat)
    requires k < |rest|
    ensures ([h] + b + [e] + rest)[|b| + 2 + k] == rest[k]
  {
  }

  lemma {:induction false} LateEndIff(evs: seq<Event>, i: nat)
    requires i < |evs|
    ensures LateEnd(evs[i + 1..]) <==> NextFaultLostEnd(evs, i)
    decreases |evs| - i
  {
    var n := i + 1;
    if n < |evs| {
      assert evs[n..][0] == evs[n] && evs[n..][1..] == evs[n + 1..];
      if evs[n].Complete? {
        LateEndIff(evs, n);
        SkipComplete(evs, i);
      }
    }
  }

  lemma SkipComplete(evs: seq<Event>, i: nat)
    requires i + 1 < |evs| && evs[i + 1].Complete?
    ensures NextFaultLostEnd(evs, i) <==> NextFaultLostEnd(evs, i + 1)
  {
  }

  /**
   The generated header of a headless event reads "no end of event" if and only if the first faulty event
   behind it lost its end; otherwise it reads "no header". Its own event has its end either way.
   */
  lemma MarkedNoEndIff(evs: seq<Event>, table: Table, mid: int, res: int, i: nat, p: nat)
    requires 0 <= mid < N_COUNTERS && Normal(evs) && i < |evs| && evs[i].LostHeader? && p == Place(evs, i)
    ensures var out := Repaired(table, Flatten(evs), mid, res).out;
            && p < |out| && Sig(out[p]) == SIG_HEADER
            && Subheader(out[p]) == if NextFaultLostEnd(evs, i) then SUB_NO_END else SUB_NO_HEADER
  {
    RepairedIsRepair(evs, table, mid, res);
    GeneratedAt(evs, false, table, mid, res, i);
    LateEndIff(evs, i);
  }

  /** The shortest input: a headless event with its end, then a header. The first word of the buffer is made up
      and reads "no end of event". */
  lemma EndedEventIsMarked(table: Table, d: Word, e: Word, h: Word, mid: int, res: int)
    requires 0 <= mid < N_COUNTERS && Sig(d) == SIG_DATA && Sig(e) == SIG_END && Sig(h) == SIG_HEADER
    ensures var r := Repaired(table, [d, e, h], mid, res);
            && |r.out| > 0 && r.inserted[0] && Sig(r.out[0]) == SIG_HEADER && Subheader(r.out[0]) == SUB_NO_END
  {
    var evs := [LostHeader([d], e), LostEnd(h, [])];
    TwoEvents(evs, d, e, h);
    assert evs[1].LostEnd?;
    MarkedNoEndIff(evs, table, mid, res, 0, 0);
    FirstIsMadeUp(table, d, [e, h], mid, res);
    assert [d] + [e, h] == [d, e, h];
  }

  lemma FirstIsMadeUp(table: Table, d: Word, rest: seq<Word>, mid: int, res: int)
    requires 0 <= mid < N_COUNTERS && Sig(d) == SIG_DATA
    ensures var r := Repaired(table, [d] + rest, mid, res); |r.out| > 0 && r.inserted[0]
  {
    var s := Step(Init(table), d, mid, res);
    assert ([d] + rest)[1..] == rest;
    F.RunKeepsWords(s, rest, mid, res);
  }

  lemma TwoEvents(evs: seq<Event>, d: Word, e: Word, h: Word)
    requires Sig(d) == SIG_DATA && Sig(e) == SIG_END && Sig(h) == SIG_HEADER
    requires evs == [LostHeader([d], e), LostEnd(h, [])]
    ensures Normal(evs) && Flatten(evs) == [d, e, h]
  {
    assert evs[1..] == [LostEnd(h, [])] && evs[1..][1..] == [];
    assert Flatten(evs[1..][1..]) == [];
    assert Flatten(evs[1..]) == [h];
  }
}
