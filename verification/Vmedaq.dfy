/**
 The VMEDAQ read-out: one shared data buffer that every module check fills with a block,
 and a file the blocks go to.
 */
module Vmedaq {
  import opened Basics
  import opened Words
  import opened MadcStream
  import opened VmedaqBlocks
  import Tdc
  import Scaler

  /** What one module check hands over, before the block gets its number. */
  datatype Content = Content(kind: Word, payload: seq<Word>)

  datatype TdcInput = TdcInput(port: Tdc.Port, stored: nat)
  datatype AdcInput = AdcInput(fifo: seq<Word>, mid: int, resolution: int)

  predicate ValidAdc(a: AdcInput) {
    |a.fifo| < 0x1_0000 && 0 <= a.mid < N_COUNTERS
  }

  /** All the hardware answers during one pass over the modules. */
  datatype Hardware = Hardware(
    mebEvents: nat, meb: Scaler.Port, tdcs: seq<TdcInput>, adcs: seq<AdcInput>, almostFull: bool)
  {
    predicate Valid() { forall i :: 0 <= i < |adcs| ==> ValidAdc(adcs[i]) }
  }

  // ---- What the module checks compute ----

  const ROOM := DATA_BUF_SIZE - HEADER_WORDS

  function ScalerTaken(events: nat, meb: Scaler.Port, latched: seq<Word>): (r: Scaler.Taken)
    requires |latched| == 3
    ensures |r.latched| == 3 && r.eventCount >= -1 && |r.words| <= ROOM
  {
    Scaler.TakeSize(meb, 0, events, ROOM, [0, 0, 0], Scaler.Taken([], -1, latched));
    Scaler.Take(meb, 0, events, ROOM, [0, 0, 0], Scaler.Taken([], -1, latched))
  }

  /** With events announced there is always a block, even if none is found. */
  function ScalerContents(events: nat, meb: Scaler.Port, latched: seq<Word>): (r: seq<Content>)
    requires |latched| == 3
    ensures forall i :: 0 <= i < |r| ==> |r[i].payload| <= ROOM
  {
    if events == 0 then [] else [Content(TYPE_V830, ScalerTaken(events, meb, latched).words)]
  }

  function TdcContents(t: TdcInput): (r: seq<Content>)
    ensures forall i :: 0 <= i < |r| ==> |r[i].payload| <= ROOM
  {
    var c := Tdc.Copy(t.port, 0, t.stored, ROOM, -1);
    if c.eventCount < 0 then [] else [Content(TYPE_V1190, c.words)]
  }

  function AdcState(a: AdcInput, table: Table): (r: State)
    requires ValidAdc(a)
    ensures r.Valid()
  {
    Repaired(table, a.fifo, a.mid, a.resolution)
  }

  function AdcContents(a: AdcInput, table: Table): (r: seq<Content>)
    requires ValidAdc(a)
  {
    var s := AdcState(a, table);
    if s.eventCount < 0 then [] else [Content(TYPE_MADC32, Padded(s.out))]
  }

  function AllTdcContents(ts: seq<TdcInput>): seq<Content> {
    if ts == [] then [] else AllTdcContents(ts[..|ts| - 1]) + TdcContents(ts[|ts| - 1])
  }

  function AllAdcTable(adcs: seq<AdcInput>, table: Table): Table
    requires forall i :: 0 <= i < |adcs| ==> ValidAdc(adcs[i])
  {
    if adcs == [] then table else AdcState(adcs[|adcs| - 1], AllAdcTable(adcs[..|adcs| - 1], table)).table
  }

  function AllAdcContents(adcs: seq<AdcInput>, table: Table): seq<Content>
    requires forall i :: 0 <= i < |adcs| ==> ValidAdc(adcs[i])
  {
    if adcs == [] then []
    else
      var n := |adcs| - 1;
      AllAdcContents(adcs[..n], table) + AdcContents(adcs[n], AllAdcTable(adcs[..n], table))
  }

  /** The blocks of one pass: scaler, then TDCs, then ADCs, each in module order. */
  function Sweep(hw: Hardware, table: Table, latched: seq<Word>): seq<Content>
    requires hw.Valid() && |latched| == 3
  {
    ScalerContents(hw.mebEvents, hw.meb, latched) + AllTdcContents(hw.tdcs) + AllAdcContents(hw.adcs, table)
  }

  /** No module delivered an event. */
  predicate Quiet(hw: Hardware, table: Table, latched: seq<Word>)
    requires hw.Valid() && |latched| == 3
  {
    && (hw.mebEvents == 0 || ScalerTaken(hw.mebEvents, hw.meb, latched).eventCount < 0)
    && AllTdcContents(hw.tdcs) == []
    && AllAdcContents(hw.adcs, table) == []
  }

  function ScalersAfter(hw: Hardware, latched: seq<Word>): (r: seq<Word>)
    requires |latched| == 3
    ensures |r| == 3
  {
    if hw.mebEvents == 0 then latched else ScalerTaken(hw.mebEvents, hw.meb, latched).latched
  }

  function Contents(bs: seq<Block>): (r: seq<Content>)
    ensures |r| == |bs|
  {
    seq(|bs|, i requires 0 <= i < |bs| => Content(bs[i].kind, bs[i].payload))
  }

  // ---- A run of the file-mode loop ----

  datatype Turn = Pass(hw: Hardware) | Hangup

  predicate ValidTurns(turns: seq<Turn>) {
    forall i :: 0 <= i < |turns| && turns[i].Pass? ==> turns[i].hw.Valid()
  }

  /** What the passes of a run carry from one to the next, and every block they hand over. */
  datatype History = History(table: Table, latched: seq<Word>, contents: seq<Content>, since: nat)

  function AfterTurn(turn: Turn, h: History): (r: History)
    requires (turn.Pass? ==> turn.hw.Valid()) && |h.latched| == 3
    ensures |r.latched| == 3
  {
    match turn
    case Hangup => h.(latched := [0, 0, 0], since := |h.contents|)
    case Pass(hw) =>
      History(AllAdcTable(hw.adcs, h.table), ScalersAfter(hw, h.latched),
              h.contents + Sweep(hw, h.table, h.latched), h.since)
  }

  /** After the first `n` turns. */
  function After(turns: seq<Turn>, n: nat, h: History): (r: History)
    requires n <= |turns| && ValidTurns(turns) && |h.latched| == 3
    ensures |r.latched| == 3
  {
    if n == 0 then h else AfterTurn(turns[n - 1], After(turns, n - 1, h))
  }

  lemma CountOn(n: int)
    ensures (n % TWO32 + 1) % TWO32 == (n + 1) % TWO32
  {
  }

  lemma NumberedPush(bs: seq<Block>, b: Block)
    requires Numbered(bs) && b.counter == |bs| % TWO32
    ensures Numbered(bs + [b])
  {
  }

  lemma ContentsPush(bs: seq<Block>, b: Block)
    ensures Contents(bs + [b]) == Contents(bs) + [Content(b.kind, b.payload)]
  {
  }

  lemma PushSince(bs: seq<Block>, since: nat, b: Block)
    requires since <= |bs| && Numbered(bs[since..]) && b.counter == (|bs| - since) % TWO32
    ensures Numbered((bs + [b])[since..])
    ensures TotalWords((bs + [b])[since..]) == TotalWords(bs[since..]) + b.Size()
  {
    TotalPush(bs[since..], b);
    NumberedPush(bs[since..], b);
    assert (bs + [b])[since..] == bs[since..] + [b];
  }

  /** The working variables of the MADC32 loop; `size` and `headerPos` are indices of the shared buffer. */
  datatype Flags = Flags(
    size: nat, headerFlag: bool, noHeader: bool, endFlag: bool,
    headerPos: int, moduleId: int, eventCount: int)

  class Daq {
    const buffer: array<Word>
    const counters: array<int>
    var blockCounter: Word
    var dataSize: int
    var counterOffset: Word
    var scalers: seq<Word>
    var file: seq<Word>
    /** Every block written so far, and how many had been written at the last reset. */
    ghost var blocks: seq<Block>
    ghost var since: nat

    ghost predicate Shape()
      reads this
    {
      && buffer.Length == DATA_BUF_SIZE && counters.Length == N_COUNTERS + 1
      && buffer as object != counters as object
      && |scalers| == 3
    }

    /** `pending` blocks have taken a number but are not in the file yet. */
    ghost predicate Inv(pending: nat)
      reads this
    {
      && Shape()
      && AllFit(blocks) && file == Concat(blocks)
      && since <= |blocks| && Numbered(blocks[since..])
      && blockCounter == (|blocks| - since + pending) % TWO32
      && dataSize == 4 * TotalWords(blocks[since..])
    }

    ghost predicate Valid()
      reads this
    {
      Inv(0)
    }

    ghost function CounterTable(): Table
      requires Shape()
      reads this, counters
    {
      counters[..]
    }

    /** What the next pass depends on, and every block so far. */
    ghost function Past(): History
      requires Shape()
      reads this, counters
    {
      History(CounterTable(), scalers, Contents(blocks), since)
    }

    constructor ()
      ensures Valid() && blocks == [] && since == 0 && file == [] && fresh(buffer) && fresh(counters)
      ensures CounterTable() == seq(N_COUNTERS + 1, i => 0)
    {
      buffer := new Word[DATA_BUF_SIZE](i => 0);
      counters := new int[N_COUNTERS + 1](i => 0);
      blockCounter, dataSize, counterOffset, scalers, file := 0, 0, 0, [0, 0, 0], [];
      blocks, since := [], 0;
    }

    /** The first `size` words of the buffer are the block `b`. */
    ghost predicate Holds(size: nat, b: Block)
      reads buffer
    {
      b.Fits() && size == b.Size() && size <= buffer.Length && buffer[..size] == b.Words()
    }

    method FillHeader(kind: Word, size: nat)
      requires Shape() && HEADER_WORDS <= size <= DATA_BUF_SIZE
      modifies buffer
      ensures buffer[..size] == HeaderWords(kind, blockCounter, size) + old(buffer[HEADER_WORDS..size])
    {
      buffer[0] := HEADER_ID;
      buffer[1] := kind;
      buffer[2] := blockCounter;
      buffer[3] := 4 * size;
      assert buffer[..HEADER_WORDS] == HeaderWords(kind, blockCounter, size);
      assert buffer[..size] == buffer[..HEADER_WORDS] + buffer[HEADER_WORDS..size];
    }

    /** `vmedaq_write_header`: takes the next block number. */
    method WriteHeader(kind: Word, size: nat)
      requires Valid() && HEADER_WORDS <= size <= DATA_BUF_SIZE
      modifies this`blockCounter, buffer
      ensures Inv(1)
      ensures Holds(size, Block(kind, old(blockCounter), old(buffer[HEADER_WORDS..size])))
    {
      FillHeader(kind, size);
      CountOn(|blocks| - since);
      blockCounter := (blockCounter + 1) % TWO32;
    }

    /** Appends the block in the buffer to the file, if there is one. */
    method Emit(size: nat, ghost content: Content)
      requires Inv(if size > 0 then 1 else 0)
      requires size > 0 ==> Holds(size, Block(content.kind, (|blocks| - since) % TWO32, content.payload))
      modifies this`file, this`dataSize, this`blocks
      ensures Valid() && old(blocks) <= blocks
      ensures Contents(blocks) == old(Contents(blocks)) + (if size > 0 then [content] else [])
    {
      if size > 0 {
        ghost var b := Block(content.kind, (|blocks| - since) % TWO32, content.payload);
        ConcatPush(blocks, b);
        PushSince(blocks, since, b);
        ContentsPush(blocks, b);
        file := file + buffer[..size];
        blocks := blocks + [b];
      } else {
        assert Contents(blocks) + [] == Contents(blocks);
      }
      dataSize := dataSize + 4 * size;
    }

    /** `reset_event_counters` (a SIGHUP or a new client): numbering and size start afresh. */
    method Reset()
      requires Valid()
      modifies this
      ensures Valid() && blocks == old(blocks) && file == old(file) && since == |blocks|
      ensures blockCounter == 0 && dataSize == 0 && counterOffset == 0 && scalers == [0, 0, 0]
    {
      dataSize := 0;
      scalers := [0, 0, 0];
      blockCounter := 0;
      counterOffset := 0;
      since := |blocks|;
    }

    // ---- V1190 ----

    method PutWord(size: nat, w: Word, ghost front: seq<Word>)
      requires Shape() && HEADER_WORDS <= size < DATA_BUF_SIZE && buffer[HEADER_WORDS..size] == front
      modifies buffer
      ensures buffer[HEADER_WORDS..size + 1] == front + [w]
    {
      buffer[size] := w;
      assert buffer[HEADER_WORDS..size] == front;
    }

    /** One read; `whole` is what the loop will have copied in the end. */
    method TdcTurn(port: Tdc.Port, k: nat, size: nat, stored: int, eventCount: int,
                   ghost front: seq<Word>, ghost whole: Tdc.Copied)
      returns (size': nat, stored': int, eventCount': int, endFlag: bool)
      requires Shape() && HEADER_WORDS <= size < DATA_BUF_SIZE && buffer[HEADER_WORDS..size] == front
      requires whole == Tdc.Join(front, Tdc.Copy(port, k, stored, DATA_BUF_SIZE - size, eventCount))
      modifies buffer
      ensures size <= size' <= size + 1 && (size' == size ==> endFlag)
      ensures endFlag ==> whole == Tdc.Copied(buffer[HEADER_WORDS..size'], eventCount')
      ensures !endFlag ==>
        whole == Tdc.Join(buffer[HEADER_WORDS..size'],
                          Tdc.Copy(port, k + 1, stored', DATA_BUF_SIZE - size', eventCount'))
    {
      var data := Tdc.At(port, k);
      Tdc.CopyStep(port, k, stored, DATA_BUF_SIZE - size, eventCount, front);
      size', stored', eventCount', endFlag := size, stored, eventCount, false;
      if Tdc.Id(data) == Tdc.ID_FILLER {
        endFlag := true;
      } else {
        PutWord(size, data, front);
        size' := size + 1;
        if Tdc.Id(data) == Tdc.ID_GLOBAL_HEADER {
          eventCount' := Tdc.EventCount(data);
        } else if Tdc.Id(data) == Tdc.ID_GLOBAL_TRAILER {
          stored' := stored - 1;
          endFlag := stored' <= 0;
        }
      }
    }

    /** The copying loop of `v1190_check_data`. */
    method TdcRead(t: TdcInput) returns (eventCount: int, size: nat)
      requires Shape()
      modifies buffer
      ensures HEADER_WORDS <= size <= DATA_BUF_SIZE
      ensures Tdc.Copied(buffer[HEADER_WORDS..size], eventCount) == Tdc.Copy(t.port, 0, t.stored, ROOM, -1)
    {
      ghost var whole := Tdc.Copy(t.port, 0, t.stored, ROOM, -1);
      size := HEADER_WORDS;
      eventCount := -1;
      var stored: int := t.stored;
      var k := 0;
      var endFlag := false;
      assert whole == Tdc.Join([], whole) by { assert [] + whole.words == whole.words; }
      while !endFlag
        invariant HEADER_WORDS <= size <= DATA_BUF_SIZE && (size < DATA_BUF_SIZE || endFlag)
        invariant !endFlag ==>
          whole == Tdc.Join(buffer[HEADER_WORDS..size], Tdc.Copy(t.port, k, stored, DATA_BUF_SIZE - size, eventCount))
        invariant endFlag ==> whole == Tdc.Copied(buffer[HEADER_WORDS..size], eventCount)
        decreases DATA_BUF_SIZE - size, !endFlag
      {
        size, stored, eventCount, endFlag :=
          TdcTurn(t.port, k, size, stored, eventCount, buffer[HEADER_WORDS..size], whole);
        k := k + 1;
        if size >= DATA_BUF_SIZE {
          Tdc.CopyFull(t.port, k, stored, eventCount, buffer[HEADER_WORDS..size]);
          break;
        }
      }
    }

    /** `v1190_check_data` */
    method TdcCheckData(t: TdcInput) returns (eventCount: int, size: nat)
      requires Valid()
      modifies this`blockCounter, buffer
      ensures Inv(if size > 0 then 1 else 0)
      ensures eventCount >= 0 <==> size > 0
      ensures eventCount == Tdc.Copy(t.port, 0, t.stored, ROOM, -1).eventCount
      ensures size == 0 ==> TdcContents(t) == []
      ensures size > 0 ==>
        && |TdcContents(t)| == 1
        && Holds(size, Block(TdcContents(t)[0].kind, old(blockCounter), TdcContents(t)[0].payload))
    {
      eventCount, size := TdcRead(t);
      if eventCount < 0 {
        size := 0;
      } else {
        WriteHeader(TYPE_V1190, size);
      }
    }

    // ---- V830 ----

    /** Reads on until a header word turns up, at most 32 words beyond the first. */
    method FindMebHeader(meb: Scaler.Port, k: nat) returns (data: Word, next: nat)
      ensures Scaler.HeaderBit(data) == 0 ==> Scaler.FindHeader(meb, k, k + Scaler.N_CHANNELS) == -1
      ensures Scaler.HeaderBit(data) != 0 ==>
        next > 0 && Scaler.FindHeader(meb, k, k + Scaler.N_CHANNELS) == next - 1 && data == Scaler.At(meb, next - 1)
    {
      data := Scaler.At(meb, k);
      next := k + 1;
      var j := 0;
      while j < Scaler.N_CHANNELS && Scaler.HeaderBit(data) == 0
        invariant 0 <= j <= Scaler.N_CHANNELS && next == k + 1 + j && data == Scaler.At(meb, k + j)
        invariant Scaler.FindHeader(meb, k, k + Scaler.N_CHANNELS)
                  == Scaler.FindHeader(meb, k + j, k + Scaler.N_CHANNELS)
      {
        data := Scaler.At(meb, next);
        next := next + 1;
        j := j + 1;
      }
    }

    /** Reads `n` channels into the working array; only the first 32 have a place there. */
    method ReadChannels(meb: Scaler.Port, k: nat, n: nat, counter: array<Word>)
      requires counter.Length == Scaler.N_CHANNELS
      modifies counter
      ensures forall j :: 0 <= j < Scaler.N_CHANNELS ==>
                counter[j] == if j < n then Scaler.At(meb, k + j) else old(counter[j])
      ensures counter[..3] == Scaler.Channels(meb, k, n, old(counter[..3]))
    {
      for i := 0 to n
        invariant forall j :: 0 <= j < Scaler.N_CHANNELS ==>
                    counter[j] == if j < i then Scaler.At(meb, k + j) else old(counter[j])
      {
        if i < Scaler.N_CHANNELS {
          counter[i] := Scaler.At(meb, k + i);
        }
      }
    }

    /** Writes the record of the latched values behind the words already there. */
    method WriteRecord(size: nat, ghost words: seq<Word>)
      requires Shape() && HEADER_WORDS <= size && size + 4 <= DATA_BUF_SIZE && buffer[HEADER_WORDS..size] == words
      modifies buffer
      ensures buffer[HEADER_WORDS..size + 4] == words + [3] + scalers
    {
      PutWord(size, 3, words);
      PutWord(size + 1, scalers[0], words + [3]);
      PutWord(size + 2, scalers[1], words + [3] + [scalers[0]]);
      PutWord(size + 3, scalers[2], words + [3] + [scalers[0]] + [scalers[1]]);
      assert words + [3] + [scalers[0]] + [scalers[1]] + [scalers[2]] == words + [3] + scalers;
    }

    /** One event of the scaler: the latched values and a record of them in the buffer. */
    method TakeEvent(meb: Scaler.Port, k: nat, counter: array<Word>, size: nat, ghost words: seq<Word>)
      returns (found: bool, next: nat)
      requires Shape() && counter.Length == Scaler.N_CHANNELS && HEADER_WORDS <= size && size + 4 <= DATA_BUF_SIZE
      requires counter != buffer && buffer[HEADER_WORDS..size] == words
      modifies this`scalers, buffer, counter
      ensures found == (Scaler.FindHeader(meb, k, k + Scaler.N_CHANNELS) >= 0)
      ensures !found ==> scalers == old(scalers) && buffer[HEADER_WORDS..size] == words
      ensures found ==>
        var h := Scaler.FindHeader(meb, k, k + Scaler.N_CHANNELS);
        var m := Scaler.NWords(Scaler.At(meb, h));
        && next == h + 1 + m
        && scalers == counter[..3] == Scaler.Channels(meb, h + 1, m, old(counter[..3]))
        && buffer[HEADER_WORDS..size + 4] == words + [3] + scalers
    {
      var data;
      data, next := FindMebHeader(meb, k);
      found := Scaler.HeaderBit(data) != 0;
      if found {
        var nWords := Scaler.NWords(data);
        ReadChannels(meb, next, nWords, counter);
        next := next + nWords;
        scalers := [counter[0], counter[1], counter[2]];
        WriteRecord(size, words);
      }
    }

    /** With `n` events to go, `t` taken so far and the words of `t` in the buffer, the loop will have taken
        `whole` in the end. */
    ghost predicate Taking(meb: Scaler.Port, k: nat, n: nat, counter: array<Word>, size: nat,
                           t: Scaler.Taken, whole: Scaler.Taken)
      reads this, buffer, counter
    {
      && Shape() && counter.Length == Scaler.N_CHANNELS && HEADER_WORDS <= size <= DATA_BUF_SIZE
      && t.eventCount >= -1 && t.words == buffer[HEADER_WORDS..size] && t.latched == scalers
      && whole == Scaler.Take(meb, k, n, DATA_BUF_SIZE - size, counter[..3], t)
    }

    /** One turn of the event loop. */
    method ScalerTurn(meb: Scaler.Port, k: nat, counter: array<Word>, size: nat,
                      ghost n: nat, ghost t: Scaler.Taken, ghost whole: Scaler.Taken)
      returns (found: bool, next: nat, ghost t': Scaler.Taken)
      requires Taking(meb, k, n, counter, size, t, whole) && n > 0 && counter != buffer
      modifies this`scalers, buffer, counter
      ensures !found ==> whole == t && t.words == buffer[HEADER_WORDS..size] && t.latched == scalers
      ensures found ==> Taking(meb, next, n - 1, counter, size + 4, t', whole) && t'.eventCount == t.eventCount + 1
      ensures Shape()
    {
      t' := t;
      if DATA_BUF_SIZE - size < 1 + Scaler.N_CHANNELS {
        Scaler.TakeNothing(meb, k, n, DATA_BUF_SIZE - size, counter[..3], t);
        found, next := false, k;
      } else {
        ghost var kept := counter[..3];
        found, next := TakeEvent(meb, k, counter, size, t.words);
        t' := Scaler.Taken(t.words + [3] + scalers, t.eventCount + 1, scalers);
        Scaler.TakeStep(meb, k, n, DATA_BUF_SIZE - size, kept, t);
      }
    }

    /** The event loop of `v830_check_data`, from read number `first` on. */
    method ScalerLoop(events: nat, meb: Scaler.Port, first: nat, counter: array<Word>, ghost whole: Scaler.Taken)
      returns (eventCount: int, size: nat)
      requires Shape() && counter.Length == Scaler.N_CHANNELS && counter != buffer
      requires whole == Scaler.Take(meb, first, events, ROOM, counter[..3], Scaler.Taken([], -1, scalers))
      modifies this`scalers, buffer, counter
      ensures Shape() && HEADER_WORDS <= size <= DATA_BUF_SIZE
      ensures Scaler.Taken(buffer[HEADER_WORDS..size], eventCount, scalers) == whole
    {
      size, eventCount := HEADER_WORDS, -1;
      var k, left := first, events;
      ghost var t := Scaler.Taken([], -1, scalers);
      while left > 0
        invariant Taking(meb, k, left, counter, size, t, whole) && t.eventCount == eventCount
      {
        var found;
        ghost var t';
        found, k, t' := ScalerTurn(meb, k, counter, size, left, t, whole);
        if !found {
          return;
        }
        size, eventCount, left, t := size + 4, eventCount + 1, left - 1, t';
      }
      Scaler.TakeNothing(meb, k, left, DATA_BUF_SIZE - size, counter[..3], t);
    }

    method ScalerRead(events: nat, meb: Scaler.Port) returns (eventCount: int, size: nat)
      requires Shape()
      modifies this`scalers, buffer
      ensures Shape() && HEADER_WORDS <= size <= DATA_BUF_SIZE
      ensures Scaler.Taken(buffer[HEADER_WORDS..size], eventCount, scalers) == ScalerTaken(events, meb, old(scalers))
    {
      var counter := new Word[Scaler.N_CHANNELS](i => 0);
      assert counter[..3] == [0, 0, 0];
      eventCount, size := ScalerLoop(events, meb, 0, counter, ScalerTaken(events, meb, scalers));
    }

    /** `v830_check_data`: a block whenever the scaler announces events, found or not. */
    method ScalerCheckData(events: nat, meb: Scaler.Port) returns (eventCount: int, size: nat)
      requires Valid()
      modifies this`blockCounter, this`scalers, buffer
      ensures Inv(if size > 0 then 1 else 0)
      ensures size == 0 ==> events == 0 && eventCount == -1 && scalers == old(scalers)
      ensures size > 0 ==>
        var r := ScalerTaken(events, meb, old(scalers));
        && events > 0 && eventCount == r.eventCount && scalers == r.latched
        && Holds(size, Block(TYPE_V830, old(blockCounter), r.words))
    {
      if events == 0 {
        size, eventCount := 0, -1;
      } else {
        eventCount, size := ScalerRead(events, meb);
        WriteHeader(TYPE_V830, size);
      }
    }

    // ---- MADC32 ----

    /** The working variables and the buffer stand for a state of the repair. */
    ghost predicate Mirrors(f: Flags, s: State)
      reads this, buffer, counters
    {
      && Shape() && s.Valid()
      && f.size == HEADER_WORDS + |s.out| && f.size <= DATA_BUF_SIZE
      && buffer[HEADER_WORDS..f.size] == s.out
      && counters[..] == s.table
      && f.headerFlag == s.headerFlag && f.noHeader == s.noHeader && f.endFlag == s.endFlag
      && f.headerPos == (if s.headerPos < 0 then -1 else HEADER_WORDS + s.headerPos)
      && f.moduleId == s.moduleId && f.eventCount == s.eventCount
    }

    method Put(f: Flags, w: Word, ghost s: State, ghost made: bool) returns (f': Flags)
      requires Mirrors(f, s) && f.size < DATA_BUF_SIZE
      modifies buffer
      ensures f' == f.(size := f.size + 1) && Mirrors(f', s.Append(w, made))
    {
      buffer[f.size] := w;
      f' := f.(size := f.size + 1);
      assert buffer[HEADER_WORDS..f'.size] == s.out + [w];
    }

    /** Writes over a word inside the first `size`. */
    method Overwrite(at: int, w: Word, size: nat, ghost out: seq<Word>)
      requires Shape() && HEADER_WORDS <= at < size <= DATA_BUF_SIZE && buffer[HEADER_WORDS..size] == out
      modifies buffer
      ensures buffer[HEADER_WORDS..size] == out[at - HEADER_WORDS := w]
      ensures buffer[size..] == old(buffer[size..])
    {
      buffer[at] := w;
    }

    /** Generates an end of event, counting in cell `id`, and marks the last generated header. */
    method CloseOpenEvent(f: Flags, id: int, ghost s: State) returns (f': Flags)
      requires Mirrors(f, s) && f.size < DATA_BUF_SIZE && 0 <= id < N_COUNTERS
      modifies buffer, counters
      ensures Mirrors(f', CloseEvent(s, id)) && f'.size == f.size + 1
      ensures buffer[f'.size..] == old(buffer[f'.size..])
    {
      counters[id + 1] := Next(counters[id + 1]);
      var eoe := PackEnd(counters[id + 1]);
      assert counters[..] == Record(s.table, id, Next(Cell(s.table, id)));
      buffer[f.size] := eoe;
      ghost var out := s.out + [eoe];
      assert buffer[HEADER_WORDS..f.size + 1] == out;
      if f.headerPos != -1 {
        buffer[f.headerPos] := SetSubheader(buffer[f.headerPos], SUB_NO_END);
      }
      assert buffer[HEADER_WORDS..f.size + 1] == LatePatch(out, s.headerPos);
      f' := f.(size := f.size + 1, headerFlag := false, noHeader := false, endFlag := true);
    }

    method OnHeader(f: Flags, w: Word, ghost s: State) returns (f': Flags)
      requires Mirrors(f, s) && f.size + 2 <= DATA_BUF_SIZE
      modifies buffer, counters
      ensures Mirrors(f', StepHeader(s, w))
    {
      buffer[f.size] := w;
      if f.headerFlag && !f.endFlag {
        buffer[f.size + 1] := buffer[f.size];
        f' := CloseOpenEvent(f, f.moduleId, s);
        assert buffer[f'.size] == buffer[f'.size..][0] == w;
      } else {
        f' := f;
      }
      ghost var out := buffer[HEADER_WORDS..f'.size];
      assert buffer[HEADER_WORDS..f'.size + 1] == out + [w];
      f' := f'.(size := f'.size + 1, headerFlag := true, endFlag := false, moduleId := ModuleId(w));
    }

    method OnData(f: Flags, w: Word, ghost s: State) returns (f': Flags)
      requires Mirrors(f, s) && f.size + 2 <= DATA_BUF_SIZE
      modifies buffer
      ensures Mirrors(f', StepData(s, w))
    {
      if !f.headerFlag && !f.noHeader {
        f' := Put(f, w, s, true);
        f' := Put(f', w, s.Append(w, true), false);
        f' := f'.(noHeader := true, headerPos := f.size);
      } else {
        f' := Put(f, w, s, false);
      }
    }

    method OnEnd(f: Flags, w: Word, mid: int, resolution: int, ghost s: State) returns (f': Flags)
      requires Mirrors(f, s) && f.size + 1 <= DATA_BUF_SIZE && 0 <= mid < N_COUNTERS
      modifies buffer, counters
      ensures Mirrors(f', StepEnd(s, w, mid, resolution))
    {
      var count := EventCounter(w);
      var id := if 0 <= f.moduleId < N_COUNTERS then mid else f.moduleId;
      f' := Put(f, w, s, false);
      counters[id + 1] := count;
      assert counters[..] == Record(s.table, id, count);
      if !f.headerFlag && f.noHeader {
        Overwrite(f.headerPos, PackHeader(f'.size - f.headerPos - 1, resolution, mid, SUB_NO_HEADER), f'.size,
                  s.out + [w]);
      }
      f' := f'.(eventCount := count, moduleId := id, headerFlag := false, noHeader := false, endFlag := true);
    }

    method OnWord(f: Flags, w: Word, a: AdcInput, ghost s: State) returns (f': Flags)
      requires ValidAdc(a) && Mirrors(f, s) && f.size + 2 <= DATA_BUF_SIZE
      modifies buffer, counters
      ensures Mirrors(f', Step(s, w, a.mid, a.resolution))
    {
      if Sig(w) == SIG_HEADER {
        f' := OnHeader(f, w, s);
      } else if Sig(w) == SIG_DATA {
        f' := OnData(f, w, s);
      } else if Sig(w) == SIG_END {
        f' := OnEnd(f, w, a.mid, a.resolution, s);
      } else {
        f' := Put(f, w, s, false);
      }
    }

    /** The read-out loop of `madc32_check_data` and the close behind it.  The test for a full buffer
        never strikes: a FIFO length is a 16-bit number. */
    method AdcRead(a: AdcInput) returns (f: Flags)
      requires Shape() && ValidAdc(a)
      modifies buffer, counters
      ensures Mirrors(f, AdcState(a, old(CounterTable())))
      ensures f.size <= HEADER_WORDS + 2 * |a.fifo| + 1
    {
      f := Flags(HEADER_WORDS, false, false, false, -1, -1, -1);
      ghost var s := Init(CounterTable());
      ghost var whole := Run(s, a.fifo, a.mid, a.resolution);
      var i := 0;
      while i < |a.fifo|
        invariant 0 <= i <= |a.fifo| && Mirrors(f, s) && |s.out| <= 2 * i
        invariant Run(s, a.fifo[i..], a.mid, a.resolution) == whole
      {
        var data := a.fifo[i];
        ghost var s' := Step(s, data, a.mid, a.resolution);
        assert a.fifo[i..][1..] == a.fifo[i + 1..];
        StepSize(s, data, a.mid, a.resolution);
        f := OnWord(f, data, a, s);
        s := s';
        i := i + 1;
        if f.size >= DATA_BUF_SIZE {
          break;
        }
      }
      assert s == whole by { assert a.fifo[|a.fifo|..] == []; }
      if f.headerFlag && !f.endFlag {
        f := CloseOpenEvent(f, a.mid, s);
      }
    }

    /** `madc32_check_data` */
    method AdcCheckData(a: AdcInput) returns (eventCount: int, size: nat)
      requires Valid() && ValidAdc(a)
      modifies this`blockCounter, buffer, counters
      ensures Inv(if size > 0 then 1 else 0)
      ensures CounterTable() == AdcState(a, old(CounterTable())).table
      ensures eventCount == AdcState(a, old(CounterTable())).eventCount
      ensures eventCount >= 0 <==> size > 0
      ensures size == 0 ==> AdcContents(a, old(CounterTable())) == []
      ensures size > 0 ==>
        var c := AdcContents(a, old(CounterTable()));
        |c| == 1 && Holds(size, Block(c[0].kind, old(blockCounter), c[0].payload))
      ensures size <= HEADER_WORDS + 2 * 65535 + 2
    {
      var f := AdcRead(a);
      eventCount, size := f.eventCount, f.size;
      ghost var s := AdcState(a, old(CounterTable()));
      if eventCount < 0 {
        size := 0;
      } else {
        if size % 2 == 1 {
          buffer[size] := 0;
          size := size + 1;
          assert buffer[HEADER_WORDS..size] == s.out + [0];
        }
        assert buffer[HEADER_WORDS..size] == Padded(s.out);
        WriteHeader(TYPE_MADC32, size);
      }
    }

    // ---- One pass over all modules, to a file ----

    method ReadScaler(hw: Hardware) returns (n: nat)
      requires Valid()
      modifies this`blockCounter, this`scalers, this`file, this`dataSize, this`blocks, buffer
      ensures Valid() && old(blocks) <= blocks && scalers == ScalersAfter(hw, old(scalers))
      ensures Contents(blocks) == old(Contents(blocks)) + ScalerContents(hw.mebEvents, hw.meb, old(scalers))
      ensures n == 0 <==> hw.mebEvents == 0 || ScalerTaken(hw.mebEvents, hw.meb, old(scalers)).eventCount < 0
    {
      ghost var c := ScalerContents(hw.mebEvents, hw.meb, scalers);
      var eventCount, size := ScalerCheckData(hw.mebEvents, hw.meb);
      Emit(size, if size > 0 then c[0] else Content(TYPE_V830, []));
      assert c == if size > 0 then [c[0]] else [];
      n := if eventCount >= 0 then 1 else 0;
    }

    method ReadTdc(t: TdcInput) returns (n: nat)
      requires Valid()
      modifies this`blockCounter, this`file, this`dataSize, this`blocks, buffer
      ensures Valid() && old(blocks) <= blocks
      ensures Contents(blocks) == old(Contents(blocks)) + TdcContents(t) && n == |TdcContents(t)|
    {
      ghost var c := TdcContents(t);
      var eventCount, size := TdcCheckData(t);
      Emit(size, if size > 0 then c[0] else Content(TYPE_V1190, []));
      assert c == if size > 0 then [c[0]] else [];
      n := if eventCount >= 0 then 1 else 0;
    }

    method ReadAdc(a: AdcInput) returns (n: nat)
      requires Valid() && ValidAdc(a)
      modifies this`blockCounter, this`file, this`dataSize, this`blocks, buffer, counters
      ensures Valid() && old(blocks) <= blocks
      ensures CounterTable() == AdcState(a, old(CounterTable())).table
      ensures Contents(blocks) == old(Contents(blocks)) + AdcContents(a, old(CounterTable()))
      ensures n == |AdcContents(a, old(CounterTable()))|
    {
      ghost var c := AdcContents(a, CounterTable());
      var eventCount, size := AdcCheckData(a);
      Emit(size, if size > 0 then c[0] else Content(TYPE_MADC32, []));
      assert c == if size > 0 then [c[0]] else [];
      n := if eventCount >= 0 then 1 else 0;
    }

    method ReadTdcs(ts: seq<TdcInput>) returns (n: nat)
      requires Valid()
      modifies this`blockCounter, this`file, this`dataSize, this`blocks, buffer
      ensures Valid() && old(blocks) <= blocks
      ensures Contents(blocks) == old(Contents(blocks)) + AllTdcContents(ts) && n == |AllTdcContents(ts)|
    {
      n := 0;
      ghost var before := Contents(blocks);
      assert ts[..0] == [];
      for i := 0 to |ts|
        invariant Valid() && old(blocks) <= blocks
        invariant Contents(blocks) == before + AllTdcContents(ts[..i]) && n == |AllTdcContents(ts[..i])|
      {
        assert ts[..i + 1][..i] == ts[..i];
        var m := ReadTdc(ts[i]);
        n := n + m;
      }
      assert ts[..|ts|] == ts;
    }

    method ReadAdcs(adcs: seq<AdcInput>) returns (n: nat)
      requires Valid() && forall i :: 0 <= i < |adcs| ==> ValidAdc(adcs[i])
      modifies this`blockCounter, this`file, this`dataSize, this`blocks, buffer, counters
      ensures Valid() && old(blocks) <= blocks
      ensures CounterTable() == AllAdcTable(adcs, old(CounterTable()))
      ensures Contents(blocks) == old(Contents(blocks)) + AllAdcContents(adcs, old(CounterTable()))
      ensures n == |AllAdcContents(adcs, old(CounterTable()))|
    {
      n := 0;
      ghost var before, table := Contents(blocks), CounterTable();
      assert adcs[..0] == [];
      for i := 0 to |adcs|
        invariant Valid() && old(blocks) <= blocks
        invariant CounterTable() == AllAdcTable(adcs[..i], table)
        invariant Contents(blocks) == before + AllAdcContents(adcs[..i], table)
        invariant n == |AllAdcContents(adcs[..i], table)|
      {
        assert adcs[..i + 1][..i] == adcs[..i];
        var m := ReadAdc(adcs[i]);
        n := n + m;
      }
      assert adcs[..|adcs|] == adcs;
    }

    method ReadModules(hw: Hardware) returns (n: nat)
      requires Valid() && hw.Valid()
      modifies this`blockCounter, this`scalers, this`file, this`dataSize, this`blocks, buffer, counters
      ensures Valid() && old(blocks) <= blocks
      ensures Past() == AfterTurn(Pass(hw), old(Past()))
      ensures n == 0 <==> Quiet(hw, old(CounterTable()), old(scalers))
    {
      ghost var before := Contents(blocks);
      ghost var c0 := ScalerContents(hw.mebEvents, hw.meb, scalers);
      ghost var c1, c2 := AllTdcContents(hw.tdcs), AllAdcContents(hw.adcs, CounterTable());
      var scalerEvents := ReadScaler(hw);
      var tdcEvents := ReadTdcs(hw.tdcs);
      var adcEvents := ReadAdcs(hw.adcs);
      Assoc(before, c0, c1);
      Assoc(before, c0 + c1, c2);
      n := scalerEvents + tdcEvents + adcEvents;
    }

    /** `read_data` in file mode.  When nothing came and the almost-full latch, read before everything
        else, was set, the latched trigger count becomes the new offset. */
    method ReadData(hw: Hardware) returns (n: nat)
      requires Valid() && hw.Valid()
      modifies this, buffer, counters
      ensures Valid() && old(blocks) <= blocks
      ensures Past() == AfterTurn(Pass(hw), old(Past()))
      ensures n == 0 <==> Quiet(hw, old(CounterTable()), old(scalers))
      ensures counterOffset == if n == 0 && hw.almostFull then scalers[0] else old(counterOffset)
    {
      n := ReadModules(hw);
      if n == 0 && hw.almostFull {
        SetCounterOffset();
      }
    }

    /** `send_counter_offset` in file mode. */
    method SetCounterOffset()
      requires Valid()
      modifies this`counterOffset
      ensures Valid() && Past() == old(Past()) && counterOffset == scalers[0]
    {
      counterOffset := scalers[0];
    }

    /** At any moment of any run the file parses, by its size fields alone, to exactly the blocks
        written; since the last reset they are numbered 0, 1, 2, ... and account for `dataSize`. */
    lemma FileParses()
      requires Valid()
      ensures Parse(file) == Blocks(blocks)
      ensures forall i :: since <= i < |blocks| ==> blocks[i].counter == (i - since) % TWO32
      ensures dataSize == 4 * TotalWords(blocks[since..])
    {
      ParseConcat(blocks);
      forall i | since <= i < |blocks| ensures blocks[i].counter == (i - since) % TWO32 {
        assert blocks[since..][i - since] == blocks[i];
      }
    }

    method TakeTurn(turn: Turn)
      requires Valid() && (turn.Pass? ==> turn.hw.Valid())
      modifies this, buffer, counters
      ensures Valid() && Past() == AfterTurn(turn, old(Past()))
    {
      match turn {
        case Hangup => Reset();
        case Pass(hw) => var n := ReadData(hw);
      }
    }

    method TakeTurns(turns: seq<Turn>)
      requires Valid() && ValidTurns(turns)
      modifies this, buffer, counters
      ensures Valid() && Past() == After(turns, |turns|, old(Past()))
    {
      ghost var h := Past();
      for n := 0 to |turns|
        invariant Valid() && Past() == After(turns, n, h)
      {
        TakeTurn(turns[n]);
      }
    }

    /** Any run of passes and hang-ups: the file holds the blocks of all passes in order, parses back to
        them, and the blocks since the last hang-up are numbered from 0. */
    method Operate(turns: seq<Turn>)
      requires Valid() && ValidTurns(turns)
      modifies this, buffer, counters
      ensures Valid() && Past() == After(turns, |turns|, old(Past()))
      ensures Parse(file) == Blocks(blocks)
      ensures forall i :: since <= i < |blocks| ==> blocks[i].counter == (i - since) % TWO32
      ensures dataSize == 4 * TotalWords(blocks[since..])
    {
      TakeTurns(turns);
      FileParses();
    }
  }
}
