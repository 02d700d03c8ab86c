/**
 From the modules to the file: a pass over modules that hold whole events writes these events, module by module,
 and a run of passes keeps them all.  Words are plain numbers here.
 */
module VmedaqWhole {
  import opened Basics
  import opened Words
  import opened MadcStream
  import opened Vmedaq
  import opened VmedaqPass
  import R = MadcRepair
  import P = MadcPlain
  import B = VmedaqBlocks
  import Tdc
  import Scaler

  // ---- TDC words ----

  predicate GlobalHeader(w: Word) { 0x4000_0000 <= w < 0x4800_0000 }

  predicate GlobalTrailer(w: Word) { 0x8000_0000 <= w < 0x8800_0000 }

  predicate Filler(w: Word) { 0xC000_0000 <= w < 0xC800_0000 }

  lemma TdcClasses(w: Word)
    ensures Tdc.Id(w) == Tdc.ID_GLOBAL_HEADER <==> GlobalHeader(w)
    ensures Tdc.Id(w) == Tdc.ID_GLOBAL_TRAILER <==> GlobalTrailer(w)
    ensures Tdc.Id(w) == Tdc.ID_FILLER <==> Filler(w)
    ensures Tdc.EventCount(w) == w / 0x20 % 0x40_0000
  {
  }

  /** A global header, words of other kinds, a global trailer. */
  predicate TdcEvent(ev: Tdc.Event) {
    && GlobalHeader(ev.header) && GlobalTrailer(ev.trailer)
    && forall i :: 0 <= i < |ev.body| ==>
         !GlobalHeader(ev.body[i]) && !GlobalTrailer(ev.body[i]) && !Filler(ev.body[i])
  }

  lemma TdcEventIsValid(ev: Tdc.Event)
    requires TdcEvent(ev)
    ensures ev.Valid()
  {
    TdcClasses(ev.header);
    TdcClasses(ev.trailer);
    forall i | 0 <= i < |ev.body|
      ensures Tdc.Id(ev.body[i]) != Tdc.ID_GLOBAL_HEADER && Tdc.Id(ev.body[i]) != Tdc.ID_GLOBAL_TRAILER
              && Tdc.Id(ev.body[i]) != Tdc.ID_FILLER
    {
      TdcClasses(ev.body[i]);
    }
  }

  /** The TDC announces these events and delivers them first; they fit the 262144-word buffer. */
  predicate TdcHolds(t: TdcInput, evs: seq<Tdc.Event>) {
    && evs != [] && t.stored == |evs| && (forall i :: 0 <= i < |evs| ==> TdcEvent(evs[i]))
    && Tdc.Delivers(t.port, 0, Tdc.Flatten(evs)) && |Tdc.Flatten(evs)| + 4 <= 262144
  }

  /** Its block is of type 1 and holds these events and no more. */
  lemma TdcBlock(t: TdcInput, evs: seq<Tdc.Event>)
    requires TdcHolds(t, evs)
    ensures TdcContents(t) == [Content(1, Tdc.Flatten(evs))]
    ensures Tdc.Copy(t.port, 0, t.stored, ROOM, -1).eventCount == evs[|evs| - 1].header / 0x20 % 0x40_0000
  {
    forall i | 0 <= i < |evs| ensures evs[i].Valid() {
      TdcEventIsValid(evs[i]);
    }
    Tdc.CopyEvents(t.port, 0, ROOM, -1, evs);
  }

  predicate TdcBody(b: seq<Word>) {
    forall i :: 0 <= i < |b| ==> !GlobalHeader(b[i]) && !GlobalTrailer(b[i]) && !Filler(b[i])
  }

  lemma TdcAllBody(b: seq<Word>)
    requires TdcBody(b)
    ensures Tdc.AllBody(b)
  {
    forall i | 0 <= i < |b|
      ensures Tdc.Id(b[i]) != Tdc.ID_GLOBAL_HEADER && Tdc.Id(b[i]) != Tdc.ID_GLOBAL_TRAILER
              && Tdc.Id(b[i]) != Tdc.ID_FILLER
    {
      TdcClasses(b[i]);
    }
  }

  /** A filler ends the reading: the words before it are the block, whatever number of events was announced. */
  lemma FillerEndsTheBlock(t: TdcInput, h: Word, b: seq<Word>, f: Word)
    requires GlobalHeader(h) && TdcBody(b) && Filler(f) && |b| + 6 <= 262144
    requires Tdc.Delivers(t.port, 0, [h] + b + [f])
    ensures TdcContents(t) == [Content(1, [h] + b)]
  {
    TdcClasses(h);
    TdcClasses(f);
    TdcAllBody(b);
    Tdc.DeliversSplit(t.port, 0, [h] + b, [f]);
    Tdc.DeliversSplit(t.port, 0, [h], b);
    assert Tdc.At(t.port, 0 + 0) == [h][0] && Tdc.At(t.port, 1 + |b| + 0) == [f][0];
    Tdc.CopyFront(t.port, 0, t.stored, ROOM, -1, h, b);
    assert [h] + b + [] == [h] + b;
  }

  /** A TDC whose first word is a filler has no data. */
  lemma FillerFirst(t: TdcInput)
    requires Filler(Tdc.At(t.port, 0))
    ensures TdcContents(t) == []
  {
    TdcClasses(Tdc.At(t.port, 0));
  }

  // ---- Scaler words ----

  /** The reading stops when fewer than 33 words are free. */
  lemma StopsBelow33(port: Scaler.Port, k: nat, n: nat, room: int, kept: seq<Word>, t: Scaler.Taken)
    requires |kept| == 3 && |t.latched| == 3 && t.eventCount >= -1 && n > 0 && ScalerHeader(Scaler.At(port, k))
    ensures room < 33 ==> Scaler.Take(port, k, n, room, kept, t) == t
    ensures room >= 33 ==> Scaler.Take(port, k, n, room, kept, t).eventCount > t.eventCount
  {
    if room >= 33 {
      Scaler.TakeStep(port, k, n, room, kept, t);
    }
  }

  /** Header bit 26 set and three words announced in bits 18 to 23. */
  predicate ScalerHeader(w: Word) { w / 0x400_0000 % 2 == 1 && w / 0x4_0000 % 0x40 == 3 }

  /** The scaler announces these events and delivers them first. */
  predicate ScalerHolds(events: nat, meb: Scaler.Port, evs: seq<Scaler.Event>) {
    && evs != [] && events == |evs| && 4 * |evs| + 33 <= 262144
    && forall i :: 0 <= i < |evs| ==>
         && ScalerHeader(evs[i].header) && Scaler.At(meb, 4 * i) == evs[i].header
         && Scaler.At(meb, 4 * i + 1) == evs[i].c0 && Scaler.At(meb, 4 * i + 2) == evs[i].c1
         && Scaler.At(meb, 4 * i + 3) == evs[i].c2
  }

  lemma {:induction false} ScalerHoldsFrom(meb: Scaler.Port, evs: seq<Scaler.Event>, n: nat)
    requires n <= |evs| && ScalerHolds(|evs|, meb, evs)
    ensures Scaler.Holds(meb, 4 * n, evs[n..])
    decreases |evs| - n
  {
    if n < |evs| {
      ScalerHoldsFrom(meb, evs, n + 1);
      assert evs[n..][0] == evs[n] && evs[n..][1..] == evs[n + 1..];
    }
  }

  /** Four words for each event: 3 and the three channels. */
  lemma {:induction false} RecordsAt(evs: seq<Scaler.Event>, i: nat)
    requires i < |evs|
    ensures |Scaler.Records(evs)| == 4 * |evs|
    ensures Scaler.Records(evs)[4 * i..4 * i + 4] == [3, evs[i].c0, evs[i].c1, evs[i].c2]
    decreases |evs|
  {
    var rest := Scaler.Records(evs[1..]);
    if |evs| > 1 {
      RecordsAt(evs[1..], if i > 0 then i - 1 else 0);
    } else {
      assert rest == [];
    }
    var head := [3] + evs[0].Latch();
    assert Scaler.Records(evs) == head + rest && |head| == 4;
    if i > 0 {
      assert (head + rest)[4 * i..4 * i + 4] == rest[4 * (i - 1)..4 * (i - 1) + 4];
    }
  }

  /** Its block is of type 2 and holds these records; the latched values are those of the last event. */
  lemma ScalerBlock(events: nat, meb: Scaler.Port, latched: seq<Word>, evs: seq<Scaler.Event>)
    requires |latched| == 3 && ScalerHolds(events, meb, evs)
    ensures ScalerContents(events, meb, latched) == [Content(2, Scaler.Records(evs))]
    ensures ScalerTaken(events, meb, latched).latched == evs[|evs| - 1].Latch()
  {
    ScalerHoldsFrom(meb, evs, 0);
    assert evs[0..] == evs;
    Scaler.TakeEvents(meb, 0, ROOM, [0, 0, 0], Scaler.Taken([], -1, latched), evs);
    assert [] + Scaler.Records(evs) == Scaler.Records(evs);
  }

  // ---- ADC words ----

  predicate AdcEvent(ev: R.Event) {
    ev.Complete? && P.HeaderWord(ev.h) && P.BodyWords(ev.body) && P.EndWord(ev.e)
  }

  predicate AdcHolds(a: AdcInput, evs: seq<R.Event>) {
    ValidAdc(a) && evs != [] && (forall i :: 0 <= i < |evs| ==> AdcEvent(evs[i])) && a.fifo == R.Flatten(evs)
  }

  lemma AdcEventIsValid(ev: R.Event)
    requires AdcEvent(ev)
    ensures ev.Valid()
  {
    P.Classes(ev.h);
    P.Classes(ev.e);
    P.AllBody(ev.body);
  }

  /** Complete events pass through the repair unchanged. */
  lemma {:induction false} CompleteUnchanged(evs: seq<R.Event>, seen: bool, table: Table, mid: int, res: int)
    requires 0 <= mid < N_COUNTERS && forall i :: 0 <= i < |evs| ==> evs[i].Complete?
    ensures R.Repair(evs, seen, table, mid, res).words == R.Flatten(evs)
    decreases |evs|
  {
    if evs != [] {
      CompleteUnchanged(evs[1..], true, Record(table, mid, EventCounter(evs[0].e)), mid, res);
    }
  }

  /** Its block is of type 0x1000 and holds these events, with a zero word behind an odd number of words. */
  lemma AdcBlock(a: AdcInput, table: Table, evs: seq<R.Event>)
    requires AdcHolds(a, evs)
    ensures AdcContents(a, table)
            == [Content(0x1000, a.fifo + if |a.fifo| % 2 == 1 then [0] else [])]
  {
    forall i | 0 <= i < |evs| ensures evs[i].Valid() {
      AdcEventIsValid(evs[i]);
    }
    R.RepairedIsRepair(evs, table, a.mid, a.resolution);
    CompleteUnchanged(evs, false, table, a.mid, a.resolution);
    FifoHasEnd(evs);
    DeliveredIff(table, a.fifo, a.mid, a.resolution);
    assert a.fifo + [] == a.fifo;
  }

  lemma FifoHasEnd(evs: seq<R.Event>)
    requires evs != [] && AdcEvent(evs[0])
    ensures exists i :: 0 <= i < |R.Flatten(evs)| && Sig(R.Flatten(evs)[i]) == SIG_END
  {
    var ws := evs[0].Words();
    P.Classes(evs[0].e);
    assert ws[|ws| - 1] == evs[0].e;
    assert R.Flatten(evs)[|ws| - 1] == evs[0].e;
  }

  // ---- A whole pass ----

  function TdcBlocks(evs: seq<seq<Tdc.Event>>): (r: seq<Content>)
    ensures |r| == |evs| && forall i :: 0 <= i < |evs| ==> r[i] == Content(1, Tdc.Flatten(evs[i]))
  {
    seq(|evs|, i requires 0 <= i < |evs| => Content(1, Tdc.Flatten(evs[i])))
  }

  function AdcBlocks(adcs: seq<AdcInput>): (r: seq<Content>)
    ensures |r| == |adcs|
    ensures forall j :: 0 <= j < |adcs| ==>
              r[j] == Content(0x1000, adcs[j].fifo + if |adcs[j].fifo| % 2 == 1 then [0] else [])
  {
    seq(|adcs|, j requires 0 <= j < |adcs| =>
      Content(0x1000, adcs[j].fifo + if |adcs[j].fifo| % 2 == 1 then [0] else []))
  }

  lemma {:induction false} AllTdcBlocks(ts: seq<TdcInput>, evs: seq<seq<Tdc.Event>>, n: nat)
    requires |ts| == |evs| && n <= |ts| && forall i :: 0 <= i < |ts| ==> TdcHolds(ts[i], evs[i])
    ensures AllTdcContents(ts[..n]) == TdcBlocks(evs)[..n]
  {
    if n > 0 {
      AllTdcBlocks(ts, evs, n - 1);
      TdcBlock(ts[n - 1], evs[n - 1]);
      assert ts[..n][..n - 1] == ts[..n - 1];
    }
  }

  lemma {:induction false} JoinSingles(parts: seq<seq<Content>>, blocks: seq<Content>, n: nat)
    requires |blocks| == |parts| && n <= |parts| && forall j :: 0 <= j < |parts| ==> parts[j] == [blocks[j]]
    ensures Join(parts, n) == blocks[..n]
  {
    if n > 0 {
      JoinSingles(parts, blocks, n - 1);
    }
  }

  lemma AllAdcBlocks(adcs: seq<AdcInput>, evs: seq<seq<R.Event>>, table: Table)
    requires |adcs| == |evs| && ValidAdcs(adcs) && forall j :: 0 <= j < |adcs| ==> AdcHolds(adcs[j], evs[j])
    ensures AllAdcContents(adcs, table) == AdcBlocks(adcs)
  {
    var parts, blocks := AdcParts(adcs, table), AdcBlocks(adcs);
    forall j | 0 <= j < |adcs| ensures parts[j] == [blocks[j]] {
      AdcBlock(adcs[j], AllAdcTable(adcs[..j], table), evs[j]);
    }
    AdcsJoin(adcs, table, parts, |adcs|);
    JoinSingles(parts, blocks, |adcs|);
    assert adcs[..|adcs|] == adcs && blocks[..|adcs|] == blocks;
  }

  /** A pass over modules that all hold whole events: the scaler's records, then the events of each TDC, then the
      words of each ADC, one block for each module, in order. */
  lemma WholePass(hw: Hardware, table: Table, latched: seq<Word>, sc: seq<Scaler.Event>,
                  tdc: seq<seq<Tdc.Event>>, adc: seq<seq<R.Event>>)
    requires hw.Valid() && |latched| == 3 && ScalerHolds(hw.mebEvents, hw.meb, sc)
    requires |hw.tdcs| == |tdc| && forall i :: 0 <= i < |tdc| ==> TdcHolds(hw.tdcs[i], tdc[i])
    requires |hw.adcs| == |adc| && forall j :: 0 <= j < |adc| ==> AdcHolds(hw.adcs[j], adc[j])
    ensures Sweep(hw, table, latched) == [Content(2, Scaler.Records(sc))] + TdcBlocks(tdc) + AdcBlocks(hw.adcs)
  {
    ScalerBlock(hw.mebEvents, hw.meb, latched, sc);
    AllTdcBlocks(hw.tdcs, tdc, |tdc|);
    AllAdcBlocks(hw.adcs, adc, table);
    assert hw.tdcs[..|tdc|] == hw.tdcs && TdcBlocks(tdc)[..|tdc|] == TdcBlocks(tdc);
  }

  /** The latched scalers are those of the last event. */
  lemma LatchedAfterPass(hw: Hardware, latched: seq<Word>, sc: seq<Scaler.Event>)
    requires |latched| == 3 && ScalerHolds(hw.mebEvents, hw.meb, sc)
    ensures var last := sc[|sc| - 1]; ScalersAfter(hw, latched) == [last.c0, last.c1, last.c2]
  {
    ScalerBlock(hw.mebEvents, hw.meb, latched, sc);
  }

  // ---- A run of passes ----

  lemma TurnGrows(turn: Turn, h: History)
    requires (turn.Pass? ==> turn.hw.Valid()) && |h.latched| == 3
    ensures h.contents <= AfterTurn(turn, h).contents
  {
  }

  lemma OneMoreTurn(turns: seq<Turn>, n: nat, h: History)
    requires n < |turns| && ValidTurns(turns) && |h.latched| == 3
    ensures After(turns, n, h).contents <= After(turns, n + 1, h).contents
  {
    TurnGrows(turns[n], After(turns, n, h));
  }

  lemma {:induction false} ContentsGrow(turns: seq<Turn>, k: nat, n: nat, h: History)
    requires k <= n <= |turns| && ValidTurns(turns) && |h.latched| == 3
    ensures After(turns, k, h).contents <= After(turns, n, h).contents
    decreases n - k
  {
    if k < n {
      OneMoreTurn(turns, k, h);
      ContentsGrow(turns, k + 1, n, h);
      PrefixTwice(After(turns, k, h).contents, After(turns, k + 1, h).contents, After(turns, n, h).contents);
    }
  }

  lemma PrefixTwice(a: seq<Content>, b: seq<Content>, c: seq<Content>)
    requires a <= b <= c
    ensures a <= c
  {
  }

  lemma TurnAdds(turn: Turn, h: History)
    requires (turn.Pass? ==> turn.hw.Valid()) && |h.latched| == 3
    ensures AfterTurn(turn, h).contents
            == h.contents + if turn.Pass? then Sweep(turn.hw, h.table, h.latched) else []
  {
  }

  /** Behind what came before, the blocks of pass `i` stand in the run, whole and in order. */
  lemma PassIsInTheRun(turns: seq<Turn>, i: nat, h: History)
    requires ValidTurns(turns) && i < |turns| && turns[i].Pass? && |h.latched| == 3
    ensures var p := After(turns, i, h);
            p.contents + Sweep(turns[i].hw, p.table, p.latched) <= After(turns, |turns|, h).contents
  {
    TurnAdds(turns[i], After(turns, i, h));
    ContentsGrow(turns, i + 1, |turns|, h);
  }

  /** The words of a block: the letters VMED, type, counter, four times the number of words, and the payload. */
  lemma BlockWords(b: B.Block)
    requires |b.payload| + 4 <= 262144
    ensures b.Fits() && b.Words() == [0x44454D56, b.kind, b.counter, 4 * (|b.payload| + 4)] + b.payload
  {
  }
}
