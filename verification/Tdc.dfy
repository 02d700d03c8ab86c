/**
 Reading a V1190 TDC: words are copied from its output buffer until the announced number
 of events is through, a filler comes up, or the buffer is full.
 */
module Tdc {
  import opened Basics
  import opened Words

  const ID_GLOBAL_HEADER := 0x08
  const ID_GLOBAL_TRAILER := 0x10
  const ID_FILLER := 0x18

  function Id(w: Word): int { w / 0x800_0000 }
  function EventCount(w: Word): int { (w / 0x20) % 0x40_0000 }

  /** The answers to successive reads of the output buffer.  No call makes more reads than its
      buffer has room, so a long enough sequence stands for any hardware; an empty TDC reads as filler. */
  type Port = seq<Word>

  function At(port: Port, k: nat): Word { if k < |port| then port[k] else ID_FILLER * 0x800_0000 }

  datatype Copied = Copied(words: seq<Word>, eventCount: int)

  /** The words copied from read number `k` on, with `stored` events announced and `room` words left. */
  function Copy(port: Port, k: nat, stored: int, room: nat, eventCount: int): (r: Copied)
    ensures |r.words| <= room
    ensures eventCount >= -1 ==> r.eventCount >= -1
    decreases room
  {
    if room == 0 then Copied([], eventCount)
    else
      var w := At(port, k);
      if Id(w) == ID_FILLER then Copied([], eventCount)
      else
        var count := if Id(w) == ID_GLOBAL_HEADER then EventCount(w) else eventCount;
        var left := if Id(w) == ID_GLOBAL_TRAILER then stored - 1 else stored;
        if Id(w) == ID_GLOBAL_TRAILER && left <= 0 then Copied([w], count)
        else
          var r := Copy(port, k + 1, left, room - 1, count);
          Copied([w] + r.words, r.eventCount)
  }

  function Join(front: seq<Word>, c: Copied): Copied { Copied(front + c.words, c.eventCount) }

  /** One read, seen from the words copied before it. */
  lemma CopyStep(port: Port, k: nat, stored: int, room: nat, count: int, front: seq<Word>)
    requires room > 0
    ensures var w := At(port, k);
            var c := Join(front, Copy(port, k, stored, room, count));
            if Id(w) == ID_FILLER then c == Copied(front, count)
            else if Id(w) == ID_GLOBAL_HEADER then
              c == Join(front + [w], Copy(port, k + 1, stored, room - 1, EventCount(w)))
            else if Id(w) != ID_GLOBAL_TRAILER then
              c == Join(front + [w], Copy(port, k + 1, stored, room - 1, count))
            else if stored <= 1 then c == Copied(front + [w], count)
            else c == Join(front + [w], Copy(port, k + 1, stored - 1, room - 1, count))
  {
    var w := At(port, k);
    if Id(w) == ID_FILLER {
      assert front + [] == front;
    } else if Id(w) != ID_GLOBAL_TRAILER || stored > 1 {
      var left := if Id(w) == ID_GLOBAL_TRAILER then stored - 1 else stored;
      var r := Copy(port, k + 1, left, room - 1, if Id(w) == ID_GLOBAL_HEADER then EventCount(w) else count);
      assert front + ([w] + r.words) == front + [w] + r.words;
    }
  }

  lemma CopyFull(port: Port, k: nat, stored: int, count: int, front: seq<Word>)
    ensures Join(front, Copy(port, k, stored, 0, count)) == Copied(front, count)
  {
    assert front + [] == front;
  }

  // ---- Well-formed events ----

  datatype Event = Event(header: Word, body: seq<Word>, trailer: Word) {
    predicate Valid() {
      && Id(header) == ID_GLOBAL_HEADER
      && Id(trailer) == ID_GLOBAL_TRAILER
      && AllBody(body)
    }

    function Words(): seq<Word> { [header] + body + [trailer] }
  }

  function Flatten(evs: seq<Event>): seq<Word> {
    if evs == [] then [] else evs[0].Words() + Flatten(evs[1..])
  }

  /** The port delivers `ws` from read number `k` on. */
  predicate Delivers(port: Port, k: nat, ws: seq<Word>) {
    forall i :: 0 <= i < |ws| ==> At(port, k + i) == ws[i]
  }

  lemma DeliversSplit(port: Port, k: nat, a: seq<Word>, b: seq<Word>)
    requires Delivers(port, k, a + b)
    ensures Delivers(port, k, a) && Delivers(port, k + |a|, b)
  {
    forall i | 0 <= i < |a| ensures At(port, k + i) == a[i] {
      assert (a + b)[i] == a[i];
    }
    forall i | 0 <= i < |b| ensures At(port, k + |a| + i) == b[i] {
      assert (a + b)[|a| + i] == b[i];
      assert At(port, k + (|a| + i)) == b[i];
    }
  }

  lemma CopyOther(port: Port, k: nat, stored: int, room: nat, count: int)
    requires room > 0
    requires var id := Id(At(port, k)); id != ID_GLOBAL_HEADER && id != ID_GLOBAL_TRAILER && id != ID_FILLER
    ensures var r := Copy(port, k + 1, stored, room - 1, count);
            Copy(port, k, stored, room, count) == Copied([At(port, k)] + r.words, r.eventCount)
  {
  }

  predicate AllBody(b: seq<Word>) {
    forall i :: 0 <= i < |b| ==>
      Id(b[i]) != ID_GLOBAL_HEADER && Id(b[i]) != ID_GLOBAL_TRAILER && Id(b[i]) != ID_FILLER
  }

  lemma {:induction false} CopyBody(port: Port, k: nat, stored: int, room: nat, count: int, b: seq<Word>)
    requires Delivers(port, k, b) && |b| <= room && AllBody(b)
    ensures var r := Copy(port, k + |b|, stored, room - |b|, count);
            Copy(port, k, stored, room, count) == Copied(b + r.words, r.eventCount)
    decreases |b|
  {
    if b == [] {
      var r := Copy(port, k, stored, room, count);
      assert [] + r.words == r.words;
    } else {
      var rest := b[1..];
      assert [b[0]] + rest == b;
      DeliversSplit(port, k, [b[0]], rest);
      assert At(port, k + 0) == b[0];
      CopyBody(port, k + 1, stored, room - 1, count, rest);
      CopyOther(port, k, stored, room, count);
      Assoc([b[0]], rest, Copy(port, k + |b|, stored, room - |b|, count).words);
    }
  }

  lemma CopyTrailer(port: Port, k: nat, stored: int, room: nat, count: int)
    requires Id(At(port, k)) == ID_GLOBAL_TRAILER && room > 0
    ensures Copy(port, k, stored, room, count) ==
            if stored <= 1 then Copied([At(port, k)], count)
            else var r := Copy(port, k + 1, stored - 1, room - 1, count); Copied([At(port, k)] + r.words, r.eventCount)
  {
  }

  lemma CopyHeader(port: Port, k: nat, stored: int, room: nat, count: int)
    requires Id(At(port, k)) == ID_GLOBAL_HEADER && room > 0
    ensures var r := Copy(port, k + 1, stored, room - 1, EventCount(At(port, k)));
            Copy(port, k, stored, room, count) == Copied([At(port, k)] + r.words, r.eventCount)
  {
  }

  lemma DeliversEvent(port: Port, k: nat, ev: Event)
    requires Delivers(port, k, ev.Words())
    ensures var m := |ev.body|;
            At(port, k) == ev.header && Delivers(port, k + 1, ev.body) && At(port, k + 1 + m) == ev.trailer
  {
    DeliversSplit(port, k, [ev.header] + ev.body, [ev.trailer]);
    DeliversSplit(port, k, [ev.header], ev.body);
    assert At(port, k + 0) == [ev.header][0];
    assert At(port, k + (1 + |ev.body|) + 0) == [ev.trailer][0];
  }

  lemma CopyFront(port: Port, k: nat, stored: int, room: nat, count: int, h: Word, b: seq<Word>)
    requires At(port, k) == h && Id(h) == ID_GLOBAL_HEADER && Delivers(port, k + 1, b) && |b| < room
    requires AllBody(b)
    ensures var t := Copy(port, k + 1 + |b|, stored, room - 1 - |b|, EventCount(h));
            Copy(port, k, stored, room, count) == Copied([h] + b + t.words, t.eventCount)
  {
    CopyHeader(port, k, stored, room, count);
    CopyBody(port, k + 1, stored, room - 1, EventCount(h), b);
    var t := Copy(port, k + 1 + |b|, stored, room - 1 - |b|, EventCount(h));
    assert [h] + (b + t.words) == [h] + b + t.words;
  }

  lemma CopyEvent(port: Port, k: nat, stored: int, room: nat, count: int, ev: Event)
    requires ev.Valid() && Delivers(port, k, ev.Words()) && |ev.Words()| <= room
    ensures var n := |ev.Words()|;
            Copy(port, k, stored, room, count) ==
            if stored <= 1 then Copied(ev.Words(), EventCount(ev.header))
            else
              var r := Copy(port, k + n, stored - 1, room - n, EventCount(ev.header));
              Copied(ev.Words() + r.words, r.eventCount)
  {
    var c, m := EventCount(ev.header), |ev.body|;
    DeliversEvent(port, k, ev);
    CopyFront(port, k, stored, room, count, ev.header, ev.body);
    CopyTrailer(port, k + 1 + m, stored, room - 1 - m, c);
    if stored > 1 {
      Assoc([ev.header] + ev.body, [ev.trailer], Copy(port, k + 2 + m, stored - 1, room - 2 - m, c).words);
    }
  }

  /** A TDC that announces `n` events and holds them delivers exactly these, whole, and the
      count returned is that of the last one -- whatever else it holds behind them. */
  lemma {:induction false} CopyEvents(port: Port, k: nat, room: nat, count: int, evs: seq<Event>)
    requires evs != [] && (forall i :: 0 <= i < |evs| ==> evs[i].Valid())
    requires Delivers(port, k, Flatten(evs)) && |Flatten(evs)| <= room
    ensures Copy(port, k, |evs|, room, count) == Copied(Flatten(evs), EventCount(evs[|evs| - 1].header))
    decreases |evs|
  {
    var ev, rest := evs[0], Flatten(evs[1..]);
    DeliversSplit(port, k, ev.Words(), rest);
    CopyEvent(port, k, |evs|, room, count, ev);
    if |evs| == 1 {
      assert rest == [];
    } else {
      CopyEvents(port, k + |ev.Words()|, room - |ev.Words()|, EventCount(ev.header), evs[1..]);
    }
  }
}
