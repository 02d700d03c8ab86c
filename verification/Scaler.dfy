/**
 Reading the V830 scaler's multi-event buffer: per event a header word that gives the number
 of channels, then the channels.  The read-out keeps the first three.
 */
module Scaler {
  import opened Words

  const N_CHANNELS := 32

  function HeaderBit(w: Word): int { (w / 0x400_0000) % 2 }
  function NWords(w: Word): int { (w / 0x4_0000) % 0x40 }

  /** The answers to successive reads of the buffer.  The loop makes a bounded number of reads, so
      a long enough sequence stands for any hardware; an exhausted buffer reads as zero. */
  type Port = seq<Word>

  function At(port: Port, k: nat): Word { if k < |port| then port[k] else 0 }

  /** The number of the read that finds a header word, if one of reads `k .. last` does. */
  function FindHeader(port: Port, k: nat, last: nat): (r: int)
    requires k <= last
    ensures r == -1 || (k <= r <= last && HeaderBit(At(port, r)) == 1)
    ensures forall i :: k <= i <= last && (r == -1 || i < r) ==> HeaderBit(At(port, i)) == 0
    decreases last - k
  {
    if HeaderBit(At(port, k)) == 1 then k
    else if k == last then -1
    else FindHeader(port, k + 1, last)
  }

  /** The three kept channels after reading `n` of them; channels not read keep their value. */
  function Channels(port: Port, k: nat, n: nat, kept: seq<Word>): (r: seq<Word>)
    requires |kept| == 3
    ensures |r| == 3
  {
    [if n > 0 then At(port, k) else kept[0],
     if n > 1 then At(port, k + 1) else kept[1],
     if n > 2 then At(port, k + 2) else kept[2]]
  }

  datatype Taken = Taken(words: seq<Word>, eventCount: int, latched: seq<Word>)

  /** The events taken from read number `k` on, with `n` announced and `room` words left. */
  function Take(port: Port, k: nat, n: nat, room: int, kept: seq<Word>, t: Taken): (r: Taken)
    requires |kept| == 3 && |t.latched| == 3 && t.eventCount >= -1
    ensures |r.latched| == 3 && r.eventCount >= t.eventCount
    decreases n
  {
    if n == 0 || room < 1 + N_CHANNELS then t
    else
      var h := FindHeader(port, k, k + N_CHANNELS);
      if h < 0 then t
      else
        var m := NWords(At(port, h));
        var c := Channels(port, h + 1, m, kept);
        Take(port, h + 1 + m, n - 1, room - 4, c, Taken(t.words + [3] + c, t.eventCount + 1, c))
  }

  /** From `t` to `r`: four words per event, and never more than there is room for. */
  predicate Sized(t: Taken, r: Taken, room: int) {
    |r.words| == |t.words| + 4 * (r.eventCount - t.eventCount) && (room >= 0 ==> |r.words| <= |t.words| + room)
  }

  lemma SizedStep(t: Taken, c: seq<Word>, t': Taken, r: Taken, room: int)
    requires room >= 4 && |c| == 3 && t' == Taken(t.words + [3] + c, t.eventCount + 1, c) && Sized(t', r, room - 4)
    ensures Sized(t, r, room)
  {
    assert |t'.words| == |t.words| + 4;
  }

  lemma TakeSizeStep(port: Port, k: nat, n: nat, room: int, kept: seq<Word>, t: Taken, h: nat, c: seq<Word>, t': Taken)
    requires |kept| == 3 && |t.latched| == 3 && t.eventCount >= -1 && n > 0 && room >= 1 + N_CHANNELS
    requires h == FindHeader(port, k, k + N_CHANNELS) && c == Channels(port, h + 1, NWords(At(port, h)), kept)
    requires t' == Taken(t.words + [3] + c, t.eventCount + 1, c)
    requires Sized(t', Take(port, h + 1 + NWords(At(port, h)), n - 1, room - 4, c, t'), room - 4)
    ensures Sized(t, Take(port, k, n, room, kept, t), room)
  {
    TakeStep(port, k, n, room, kept, t);
    SizedStep(t, c, t', Take(port, h + 1 + NWords(At(port, h)), n - 1, room - 4, c, t'), room);
  }

  lemma TakeNothing(port: Port, k: nat, n: nat, room: int, kept: seq<Word>, t: Taken)
    requires |kept| == 3 && |t.latched| == 3 && t.eventCount >= -1
    requires n == 0 || room < 1 + N_CHANNELS || FindHeader(port, k, k + N_CHANNELS) < 0
    ensures Take(port, k, n, room, kept, t) == t
  {
  }

  lemma {:induction false} TakeSize(port: Port, k: nat, n: nat, room: int, kept: seq<Word>, t: Taken)
    requires |kept| == 3 && |t.latched| == 3 && t.eventCount >= -1
    ensures Sized(t, Take(port, k, n, room, kept, t), room)
    decreases n
  {
    var h := FindHeader(port, k, k + N_CHANNELS);
    if n == 0 || room < 1 + N_CHANNELS || h < 0 {
      TakeNothing(port, k, n, room, kept, t);
    } else {
      var m := NWords(At(port, h));
      var c := Channels(port, h + 1, m, kept);
      var t' := Taken(t.words + [3] + c, t.eventCount + 1, c);
      TakeSize(port, h + 1 + m, n - 1, room - 4, c, t');
      TakeSizeStep(port, k, n, room, kept, t, h, c, t');
    }
  }

  /** One turn of the event loop. */
  lemma TakeStep(port: Port, k: nat, n: nat, room: int, kept: seq<Word>, t: Taken)
    requires |kept| == 3 && |t.latched| == 3 && t.eventCount >= -1 && n > 0 && room >= 1 + N_CHANNELS
    ensures var h := FindHeader(port, k, k + N_CHANNELS);
            if h < 0 then Take(port, k, n, room, kept, t) == t
            else
              var m := NWords(At(port, h));
              var c := Channels(port, h + 1, m, kept);
              Take(port, k, n, room, kept, t) ==
              Take(port, h + 1 + m, n - 1, room - 4, c, Taken(t.words + [3] + c, t.eventCount + 1, c))
  {
  }

  // ---- Well-formed buffers: three enabled channels ----

  datatype Event = Event(header: Word, c0: Word, c1: Word, c2: Word) {
    predicate Valid() { HeaderBit(header) == 1 && NWords(header) == 3 }
    function Latch(): seq<Word> { [c0, c1, c2] }
  }

  /** The buffer holds these events, one behind the other, from read number `k` on. */
  predicate Holds(port: Port, k: nat, evs: seq<Event>)
    decreases |evs|
  {
    evs == [] || (Starts(port, k, evs[0]) && Holds(port, k + 4, evs[1..]))
  }

  predicate Starts(port: Port, k: nat, e: Event) {
    && e.Valid() && At(port, k) == e.header
    && At(port, k + 1) == e.c0 && At(port, k + 2) == e.c1 && At(port, k + 3) == e.c2
  }

  function Records(evs: seq<Event>): seq<Word> {
    if evs == [] then [] else [3] + evs[0].Latch() + Records(evs[1..])
  }

  lemma TakeOne(port: Port, k: nat, n: nat, room: int, kept: seq<Word>, t: Taken, ev: Event)
    requires |kept| == 3 && |t.latched| == 3 && t.eventCount >= -1
    requires n > 0 && room >= 1 + N_CHANNELS
    requires Starts(port, k, ev)
    ensures Take(port, k, n, room, kept, t) ==
            Take(port, k + 4, n - 1, room - 4, ev.Latch(),
                 Taken(t.words + [3] + ev.Latch(), t.eventCount + 1, ev.Latch()))
  {
    assert FindHeader(port, k, k + N_CHANNELS) == k;
    assert Channels(port, k + 1, 3, kept) == ev.Latch();
  }

  /** What taking `evs` adds to what was taken before. */
  function After(t: Taken, evs: seq<Event>): Taken {
    Taken(t.words + Records(evs), t.eventCount + |evs|, if evs == [] then t.latched else evs[|evs| - 1].Latch())
  }

  lemma AfterOne(t: Taken, evs: seq<Event>)
    requires evs != []
    ensures var c := evs[0].Latch();
            After(Taken(t.words + [3] + c, t.eventCount + 1, c), evs[1..]) == After(t, evs)
  {
    var c := evs[0].Latch();
    assert t.words + [3] + c + Records(evs[1..]) == t.words + ([3] + c + Records(evs[1..]));
  }

  lemma TakeFirst(port: Port, k: nat, room: int, kept: seq<Word>, t: Taken, evs: seq<Event>, t': Taken)
    requires |kept| == 3 && |t.latched| == 3 && t.eventCount >= -1
    requires evs != [] && Starts(port, k, evs[0]) && room >= 1 + N_CHANNELS
    requires t' == Taken(t.words + [3] + evs[0].Latch(), t.eventCount + 1, evs[0].Latch())
    requires Take(port, k + 4, |evs[1..]|, room - 4, evs[0].Latch(), t') == After(t', evs[1..])
    ensures Take(port, k, |evs|, room, kept, t) == After(t, evs)
  {
    TakeOne(port, k, |evs|, room, kept, t, evs[0]);
    AfterOne(t, evs);
  }

  /** A scaler that holds the `n` events it announces gives one record for each, and the values
      latched afterwards are those of the last event. */
  lemma {:induction false} TakeEvents(port: Port, k: nat, room: int, kept: seq<Word>, t: Taken, evs: seq<Event>)
    requires |kept| == 3 && |t.latched| == 3 && t.eventCount >= -1
    requires Holds(port, k, evs) && 4 * |evs| + N_CHANNELS <= room + 3
    ensures Take(port, k, |evs|, room, kept, t) == After(t, evs)
    decreases |evs|
  {
    if evs == [] {
      assert t.words + Records(evs) == t.words;
    } else {
      var c := evs[0].Latch();
      var t' := Taken(t.words + [3] + c, t.eventCount + 1, c);
      assert |t'.latched| == 3;
      TakeEvents(port, k + 4, room - 4, c, t', evs[1..]);
      TakeFirst(port, k, room, kept, t, evs, t');
    }
  }
}
