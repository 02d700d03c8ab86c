/**
 The repair on plain 32-bit numbers: what goes in and what comes out, word by word.
 */
module MadcPlain {
  import opened Words
  import opened MadcStream
  import opened MadcRepair
  import M = MadcMarks

  predicate DataWord(w: Word) { w < 0x4000_0000 }

  predicate HeaderWord(w: Word) { 0x4000_0000 <= w < 0x8000_0000 }

  predicate EndWord(w: Word) { 0xC000_0000 <= w }

  /** Neither header nor end. */
  predicate BodyWords(b: seq<Word>) { forall i :: 0 <= i < |b| ==> !HeaderWord(b[i]) && !EndWord(b[i]) }

  lemma Classes(w: Word)
    ensures Sig(w) == SIG_DATA <==> DataWord(w)
    ensures Sig(w) == SIG_HEADER <==> HeaderWord(w)
    ensures Sig(w) == SIG_END <==> EndWord(w)
    ensures IsBody(w) <==> !HeaderWord(w) && !EndWord(w)
    ensures EndWord(w) ==> EventCounter(w) == w - 0xC000_0000
    ensures ModuleId(w) == w / 0x1_0000 % 0x100
  {
  }

  lemma AllBody(b: seq<Word>)
    requires BodyWords(b)
    ensures forall i :: 0 <= i < |b| ==> IsBody(b[i])
  {
    forall i | 0 <= i < |b| ensures IsBody(b[i]) {
      Classes(b[i]);
    }
  }

  /** A generated header: signature 1, subheader `sub`, id, resolution and word count in their places. */
  function HeaderNumber(sub: int, mid: int, res: int, n: int): int {
    0x4000_0000 + sub * 0x100_0000 + mid % 0x100 * 0x1_0000 + res % 8 * 0x1000 + n % 0x1000
  }

  lemma PackedHeader(n: int, res: int, mid: int)
    ensures PackHeader(n, res, mid, SUB_NO_HEADER) == HeaderNumber(1, mid, res, n)
    ensures PackHeader(n, res, mid, SUB_NO_END) == HeaderNumber(2, mid, res, n)
  {
  }

  lemma PackedEnd(c: int)
    ensures PackEnd(c) == 0xC000_0000 + c % 0x4000_0000
  {
  }

  /** The end word that follows `e`. */
  function Successor(e: Word): Word
    requires EndWord(e)
  {
    if e == 0xFFFF_FFFF then 0xC000_0000 else e + 1
  }

  lemma NextEnd(e: Word)
    requires EndWord(e)
    ensures PackEnd(Next(EventCounter(e))) == Successor(e)
  {
    Classes(e);
    PackedEnd(Next(EventCounter(e)));
  }

  lemma FlattenOne(ev: Event)
    ensures Flatten([ev]) == ev.Words()
  {
    assert [ev][1..] == [] && Flatten([]) == [];
  }

  /** A complete event passes unchanged. */
  lemma CompletePasses(table: Table, h: Word, b: seq<Word>, e: Word, mid: int, res: int)
    requires 0 <= mid < N_COUNTERS && HeaderWord(h) && BodyWords(b) && EndWord(e)
    ensures Repaired(table, [h] + b + [e], mid, res).out == [h] + b + [e]
  {
    var evs := [Complete(h, b, e)];
    Classes(h);
    Classes(e);
    AllBody(b);
    FlattenOne(evs[0]);
    RepairedIsRepair(evs, table, mid, res);
    assert evs[1..] == [];
    assert Repair([], true, Record(table, mid, EventCounter(e)), mid, res).words == [];
    assert [h] + b + [e] + [] == [h] + b + [e];
  }

  /** An event without its header gets one in front: subheader 1, the module's id, the resolution and the
      number of words that follow. */
  lemma HeaderIsPutInFront(table: Table, b: seq<Word>, e: Word, mid: int, res: int)
    requires 0 <= mid < N_COUNTERS && b != [] && DataWord(b[0]) && BodyWords(b) && EndWord(e)
    ensures Repaired(table, b + [e], mid, res).out == [HeaderNumber(1, mid, res, |b| + 1)] + (b + [e])
    ensures HeaderWord(HeaderNumber(1, mid, res, |b| + 1))
  {
    var ev := LostHeader(b, e);
    Classes(b[0]);
    Classes(e);
    AllBody(b);
    FlattenOne(ev);
    RepairedIsRepair([ev], table, mid, res);
    PackedHeader(|b| + 1, res, mid);
    assert [ev][1..] == [];
    assert Repair([], false, Record(table, -1, EventCounter(e)), mid, res).words == [];
    assert [HeaderNumber(1, mid, res, |b| + 1)] + ev.Words() + [] == [HeaderNumber(1, mid, res, |b| + 1)] + (b + [e]);
  }

  /** An event without its end behind a complete one gets the end word that follows the one before. */
  lemma EndIsPutBehind(table: Table, h: Word, b: seq<Word>, e: Word, h': Word, b': seq<Word>, mid: int, res: int)
    requires 0 <= mid < N_COUNTERS && HeaderWord(h) && BodyWords(b) && EndWord(e) && HeaderWord(h') && BodyWords(b')
    ensures Repaired(table, [h] + b + [e] + ([h'] + b'), mid, res).out
            == [h] + b + [e] + ([h'] + b' + [Successor(e)])
  {
    var evs := [Complete(h, b, e), LostEnd(h', b')];
    TwoEvents(evs, h, b, e, h', b');
    RepairedIsRepair(evs, table, mid, res);
    NextEnd(e);
    var t := Record(table, mid, EventCounter(e));
    assert evs[1..] == [LostEnd(h', b')] && evs[1..][1..] == [];
    assert Repair([], true, Record(t, mid, Next(EventCounter(e))), mid, res).words == [];
    assert Repair(evs[1..], true, t, mid, res).words == [h'] + b' + [Successor(e)] + [];
    assert [h'] + b' + [Successor(e)] + [] == [h'] + b' + [Successor(e)];
  }

  lemma TwoEvents(evs: seq<Event>, h: Word, b: seq<Word>, e: Word, h': Word, b': seq<Word>)
    requires HeaderWord(h) && BodyWords(b) && EndWord(e) && HeaderWord(h') && BodyWords(b')
    requires evs == [Complete(h, b, e), LostEnd(h', b')]
    ensures Normal(evs) && Flatten(evs) == [h] + b + [e] + ([h'] + b')
  {
    Classes(h);
    Classes(e);
    Classes(h');
    AllBody(b);
    AllBody(b');
    assert evs[1..] == [LostEnd(h', b')];
    FlattenOne(evs[1]);
  }

  /** The same in front of a third event, if the endless event carries the module's id: the end goes between. */
  lemma EndIsPutBetween(table: Table, h: Word, b: seq<Word>, e: Word, h': Word, b': seq<Word>,
                        h'': Word, e'': Word, mid: int, res: int)
    requires 0 <= mid < 0x100 && HeaderWord(h) && BodyWords(b) && EndWord(e) && HeaderWord(h') && BodyWords(b')
    requires HeaderWord(h'') && EndWord(e'') && h' / 0x1_0000 % 0x100 == mid
    ensures Repaired(table, [h] + b + [e] + ([h'] + b' + [h'', e'']), mid, res).out
            == [h] + b + [e] + ([h'] + b' + [Successor(e)] + [h'', e''])
  {
    var evs := [Complete(h, b, e), LostEnd(h', b'), Complete(h'', [], e'')];
    ThreeEvents(evs, h, b, e, h', b', h'', e'');
    RepairedIsRepair(evs, table, mid, res);
    NextEnd(e);
    Classes(h');
    var t := Record(table, mid, EventCounter(e));
    var t' := Record(t, mid, Next(EventCounter(e)));
    assert evs[1..][1..] == [evs[2]] && [evs[2]][1..] == [];
    assert Repair([], true, Record(t', mid, EventCounter(e'')), mid, res).words == [];
    assert Repair([evs[2]], true, t', mid, res).words == [h'', e''];
    assert Repair(evs[1..], true, t, mid, res).words == [h'] + b' + [Successor(e)] + [h'', e''];
  }

  lemma ThreeEvents(evs: seq<Event>, h: Word, b: seq<Word>, e: Word, h': Word, b': seq<Word>, h'': Word, e'': Word)
    requires HeaderWord(h) && BodyWords(b) && EndWord(e) && HeaderWord(h') && BodyWords(b')
    requires HeaderWord(h'') && EndWord(e'')
    requires evs == [Complete(h, b, e), LostEnd(h', b'), Complete(h'', [], e'')]
    ensures Normal(evs) && Flatten(evs) == [h] + b + [e] + ([h'] + b' + [h'', e''])
  {
    Classes(h);
    Classes(e);
    Classes(h');
    Classes(h'');
    Classes(e'');
    AllBody(b);
    AllBody(b');
    assert evs[1..] == [evs[1], evs[2]] && evs[1..][1..] == [evs[2]];
    FlattenOne(evs[2]);
    assert evs[2].Words() == [h'', e''];
    assert Flatten(evs[1..]) == [h'] + b' + [h'', e''];
  }

  /** A header behind a headless event turns the mark of the generated header from 1 into 2 when its own event
      does not end. */
  lemma MarkTurnsToTwo(table: Table, d: Word, e: Word, h: Word, mid: int, res: int)
    requires 0 <= mid < 0x100 && DataWord(d) && EndWord(e) && HeaderWord(h)
    ensures var out := Repaired(table, [d, e, h], mid, res).out;
            |out| == 5 && out[..4] == [HeaderNumber(2, mid, res, 2), d, e, h] && EndWord(out[4])
  {
    var evs := [LostHeader([d], e), LostEnd(h, [])];
    Classes(d);
    Classes(e);
    Classes(h);
    M.TwoEvents(evs, d, e, h);
    RepairedIsRepair(evs, table, mid, res);
    PackedHeader(2, res, mid);
    var t := Record(table, -1, EventCounter(e));
    var c := Next(Cell(t, mid));
    assert evs[1..] == [LostEnd(h, [])] && evs[1..][1..] == [];
    assert Repair([], true, Record(t, mid, c), mid, res).words == [];
    assert Repair(evs[1..], false, t, mid, res).words == [h, PackEnd(c)];
    assert Repair(evs, false, table, mid, res).words == [HeaderNumber(2, mid, res, 2), d, e, h, PackEnd(c)];
    PackedEnd(c);
  }

  /** The count a call returns is that of the last end word, or -1. */
  lemma {:induction false} CountIsLast(s: State, ws: seq<Word>, mid: int, res: int)
    requires s.Valid() && 0 <= mid < N_COUNTERS && forall i :: 0 <= i < |ws| ==> !EndWord(ws[i])
    ensures Run(s, ws, mid, res).eventCount == s.eventCount
    decreases |ws|
  {
    if ws != [] {
      Classes(ws[0]);
      CountIsLast(Step(s, ws[0], mid, res), ws[1..], mid, res);
    }
  }

  lemma ReturnedCount(table: Table, before: seq<Word>, e: Word, after: seq<Word>, mid: int, res: int)
    requires 0 <= mid < N_COUNTERS && EndWord(e) && forall i :: 0 <= i < |after| ==> !EndWord(after[i])
    ensures Repaired(table, before + ([e] + after), mid, res).eventCount == e - 0xC000_0000
    ensures Repaired(table, after, mid, res).eventCount == -1
  {
    var s := Run(Init(table), before, mid, res);
    RunAppend(Init(table), before, [e] + after, mid, res);
    assert ([e] + after)[1..] == after;
    Classes(e);
    CountIsLast(Step(s, e, mid, res), after, mid, res);
    CountIsLast(Init(table), after, mid, res);
  }

  /** The filler is a zero word, and only behind an odd number of words. */
  lemma Filler(out: seq<Word>)
    ensures Padded(out) == if |out| % 2 == 1 then out + [0] else out
  {
  }
}
