/**
 What is read from a TDC and from the scaler whatever they answer, word by word and without following the
 reading loops.
 */
module ModulePorts {
  import opened Words
  import opened Vmedaq
  import opened VmedaqWhole
  import Tdc
  import Scaler

  // ---- TDC ----

  /** The reads from `k` on, `n` in all, that gave a global trailer. */
  function Trailers(port: Tdc.Port, k: nat, n: nat): set<nat> {
    set i: nat | k <= i < k + n && GlobalTrailer(Tdc.At(port, i))
  }

  /** The last of `n` reads gave a trailer, and with it as many as were announced. */
  predicate LastTrailer(port: Tdc.Port, k: nat, stored: int, n: nat) {
    n > 0 && GlobalTrailer(Tdc.At(port, k + n - 1)) && |Trailers(port, k, n)| >= stored
  }

  predicate NoFiller(port: Tdc.Port, k: nat, n: nat) { forall i :: k <= i < k + n ==> !Filler(Tdc.At(port, i)) }

  /** How many words are read: up to the last announced trailer, the first filler or the end of the room,
      whichever comes first. */
  predicate Reads(port: Tdc.Port, k: nat, stored: int, room: nat, n: nat) {
    && n <= room && NoFiller(port, k, n)
    && (forall j: nat :: j < n ==> !LastTrailer(port, k, stored, j))
    && (n == room || Filler(Tdc.At(port, k + n)) || LastTrailer(port, k, stored, n))
  }

  lemma OneNumber(port: Tdc.Port, k: nat, stored: int, room: nat, n: nat, n': nat)
    requires Reads(port, k, stored, room, n) && Reads(port, k, stored, room, n') && n <= n'
    ensures n == n'
  {
  }

  lemma TrailersStep(port: Tdc.Port, k: nat, n: nat)
    ensures |Trailers(port, k, n + 1)|
            == |Trailers(port, k + 1, n)| + if GlobalTrailer(Tdc.At(port, k)) then 1 else 0
  {
    var rest := Trailers(port, k + 1, n);
    assert Trailers(port, k, n + 1) == if GlobalTrailer(Tdc.At(port, k)) then {k} + rest else rest;
  }

  lemma LastTrailerStep(port: Tdc.Port, k: nat, stored: int, n: nat)
    requires n > 0
    ensures var left := if GlobalTrailer(Tdc.At(port, k)) then stored - 1 else stored;
            LastTrailer(port, k, stored, n + 1) <==> LastTrailer(port, k + 1, left, n)
  {
    TrailersStep(port, k, n);
  }

  lemma FirstTrailer(port: Tdc.Port, k: nat, stored: int)
    ensures LastTrailer(port, k, stored, 1) <==> GlobalTrailer(Tdc.At(port, k)) && stored <= 1
  {
    TrailersStep(port, k, 0);
    assert Trailers(port, k + 1, 0) == {};
  }

  lemma ReadsStep(port: Tdc.Port, k: nat, stored: int, left: int, room: nat, n: nat)
    requires room > 0 && !Filler(Tdc.At(port, k)) && !LastTrailer(port, k, stored, 1)
    requires left == if GlobalTrailer(Tdc.At(port, k)) then stored - 1 else stored
    requires Reads(port, k + 1, left, room - 1, n)
    ensures Reads(port, k, stored, room, n + 1)
  {
    forall j: nat | j < n + 1 ensures !LastTrailer(port, k, stored, j) {
      if j > 1 {
        LastTrailerStep(port, k, stored, j - 1);
      }
    }
    if n > 0 {
      LastTrailerStep(port, k, stored, n);
    }
  }

  predicate NoHeader(ws: seq<Word>) { forall i :: 0 <= i < |ws| ==> !GlobalHeader(ws[i]) }

  predicate LastHeaderAt(ws: seq<Word>, j: nat) {
    j < |ws| && GlobalHeader(ws[j]) && forall i :: j < i < |ws| ==> !GlobalHeader(ws[i])
  }

  /** The count of the last global header among the words, or `count` if there is none. */
  predicate CountOf(ws: seq<Word>, count: int, c: int) {
    && (NoHeader(ws) ==> c == count)
    && forall j: nat :: j < |ws| && LastHeaderAt(ws, j) ==> c == ws[j] / 0x20 % 0x40_0000
  }

  /** The words of the first reads from `k` on. */
  predicate WordsFrom(port: Tdc.Port, k: nat, ws: seq<Word>) {
    forall i :: 0 <= i < |ws| ==> ws[i] == Tdc.At(port, k + i)
  }

  predicate Copies(port: Tdc.Port, k: nat, c: Tdc.Copied, count: int) {
    WordsFrom(port, k, c.words) && CountOf(c.words, count, c.eventCount)
  }

  lemma WordsStep(port: Tdc.Port, k: nat, w: Word, ws: seq<Word>)
    requires w == Tdc.At(port, k) && WordsFrom(port, k + 1, ws)
    ensures WordsFrom(port, k, [w] + ws)
  {
    forall i | 0 <= i < |[w] + ws| ensures ([w] + ws)[i] == Tdc.At(port, k + i) {
      if i > 0 {
        assert ws[i - 1] == Tdc.At(port, k + 1 + (i - 1));
      }
    }
  }

  lemma CountStep(w: Word, ws: seq<Word>, count: int, c: int)
    requires CountOf(ws, if GlobalHeader(w) then w / 0x20 % 0x40_0000 else count, c)
    ensures CountOf([w] + ws, count, c)
  {
    var all := [w] + ws;
    if NoHeader(all) {
      assert !GlobalHeader(all[0]);
      TailHasNone(w, ws, 0);
    }
    forall j: nat | LastHeaderAt(all, j) ensures c == all[j] / 0x20 % 0x40_0000 {
      if j == 0 {
        TailHasNone(w, ws, 0);
      } else {
        TailHasNone(w, ws, j);
        assert LastHeaderAt(ws, j - 1);
      }
    }
  }

  lemma TailHasNone(w: Word, ws: seq<Word>, j: nat)
    requires forall i :: j < i < |[w] + ws| ==> !GlobalHeader(([w] + ws)[i])
    ensures forall i :: j <= i < |ws| ==> !GlobalHeader(ws[i])
  {
    forall i | j <= i < |ws| ensures !GlobalHeader(ws[i]) {
      assert ([w] + ws)[i + 1] == ws[i];
    }
  }

  /** For every port, the number of words copied and what they are. */
  lemma {:induction false} CopyReads(port: Tdc.Port, k: nat, stored: int, room: nat, count: int)
    ensures var c := Tdc.Copy(port, k, stored, room, count); IsCopy(port, k, stored, room, count, c)
    decreases room
  {
    if Ends(port, k, stored, room) {
      CopyEnds(port, k, stored, room, count);
    } else {
      var w := Tdc.At(port, k);
      var left := if GlobalTrailer(w) then stored - 1 else stored;
      var next := if GlobalHeader(w) then w / 0x20 % 0x40_0000 else count;
      CopyReads(port, k + 1, left, room - 1, next);
      CopyOnce(port, k, stored, left, room, count, next);
      Onward(port, k, stored, left, room, count, next, Tdc.Copy(port, k + 1, left, room - 1, next));
    }
  }

  predicate IsCopy(port: Tdc.Port, k: nat, stored: int, room: nat, count: int, c: Tdc.Copied) {
    Reads(port, k, stored, room, |c.words|) && Copies(port, k, c, count)
  }

  /** This read is the last, if it is made at all. */
  predicate Ends(port: Tdc.Port, k: nat, stored: int, room: nat) {
    room == 0 || Filler(Tdc.At(port, k)) || (GlobalTrailer(Tdc.At(port, k)) && stored <= 1)
  }

  lemma CopyEnds(port: Tdc.Port, k: nat, stored: int, room: nat, count: int)
    requires Ends(port, k, stored, room)
    ensures IsCopy(port, k, stored, room, count, Tdc.Copy(port, k, stored, room, count))
  {
    var w := Tdc.At(port, k);
    TdcClasses(w);
    if room == 0 || Filler(w) {
      NoWord(port, k, stored, room, count);
      assert Tdc.Copy(port, k, stored, room, count) == Tdc.Copied([], count);
    } else {
      FirstTrailer(port, k, stored);
      OneWord(port, k, stored, room, count);
      assert Tdc.Copy(port, k, stored, room, count) == Tdc.Copied([w], count);
    }
  }

  lemma NoWord(port: Tdc.Port, k: nat, stored: int, room: nat, count: int)
    requires room == 0 || Filler(Tdc.At(port, k))
    ensures IsCopy(port, k, stored, room, count, Tdc.Copied([], count))
  {
  }

  lemma Onward(port: Tdc.Port, k: nat, stored: int, left: int, room: nat, count: int, next: int, r: Tdc.Copied)
    requires !Ends(port, k, stored, room)
    requires left == if GlobalTrailer(Tdc.At(port, k)) then stored - 1 else stored
    requires next == if GlobalHeader(Tdc.At(port, k)) then Tdc.At(port, k) / 0x20 % 0x40_0000 else count
    requires IsCopy(port, k + 1, left, room - 1, next, r)
    ensures IsCopy(port, k, stored, room, count, Tdc.Copied([Tdc.At(port, k)] + r.words, r.eventCount))
  {
    ReadsOnward(port, k, stored, left, room, |r.words|);
    CopiesOnward(port, k, Tdc.At(port, k), count, next, r);
  }

  lemma ReadsOnward(port: Tdc.Port, k: nat, stored: int, left: int, room: nat, n: nat)
    requires !Ends(port, k, stored, room)
    requires left == if GlobalTrailer(Tdc.At(port, k)) then stored - 1 else stored
    requires Reads(port, k + 1, left, room - 1, n)
    ensures Reads(port, k, stored, room, n + 1)
  {
    FirstTrailer(port, k, stored);
    ReadsStep(port, k, stored, left, room, n);
  }

  lemma CopiesOnward(port: Tdc.Port, k: nat, w: Word, count: int, next: int, r: Tdc.Copied)
    requires w == Tdc.At(port, k) && next == if GlobalHeader(w) then w / 0x20 % 0x40_0000 else count
    requires Copies(port, k + 1, r, next)
    ensures Copies(port, k, Tdc.Copied([w] + r.words, r.eventCount), count)
  {
    WordsStep(port, k, w, r.words);
    CountStep(w, r.words, count, r.eventCount);
  }

  lemma OneWord(port: Tdc.Port, k: nat, stored: int, room: nat, count: int)
    requires room > 0 && LastTrailer(port, k, stored, 1)
    ensures IsCopy(port, k, stored, room, count, Tdc.Copied([Tdc.At(port, k)], count))
  {
  }

  lemma CopyOnce(port: Tdc.Port, k: nat, stored: int, left: int, room: nat, count: int, next: int)
    requires !Ends(port, k, stored, room)
    requires left == if GlobalTrailer(Tdc.At(port, k)) then stored - 1 else stored
    requires next == if GlobalHeader(Tdc.At(port, k)) then Tdc.At(port, k) / 0x20 % 0x40_0000 else count
    ensures var r := Tdc.Copy(port, k + 1, left, room - 1, next);
            Tdc.Copy(port, k, stored, room, count) == Tdc.Copied([Tdc.At(port, k)] + r.words, r.eventCount)
  {
    TdcClasses(Tdc.At(port, k));
  }

  /** The first `n` answers of a TDC. */
  function Answers(port: Tdc.Port, n: nat): (r: seq<Word>)
    ensures |r| == n && forall i :: 0 <= i < n ==> r[i] == Tdc.At(port, i)
  {
    seq(n, i requires 0 <= i => Tdc.At(port, i))
  }

  /**
   The block of a TDC, whatever it answers: all words read, exactly when one of them is a global header.
   */
  lemma TdcBlockIff(t: TdcInput, n: nat)
    requires Reads(t.port, 0, t.stored, 262140, n)
    ensures TdcContents(t) == if exists i :: 0 <= i < n && GlobalHeader(Tdc.At(t.port, i))
                              then [Content(1, Answers(t.port, n))] else []
  {
    var c := Tdc.Copy(t.port, 0, t.stored, ROOM, -1);
    CopyReads(t.port, 0, t.stored, ROOM, -1);
    if n <= |c.words| {
      OneNumber(t.port, 0, t.stored, 262140, n, |c.words|);
    } else {
      OneNumber(t.port, 0, t.stored, 262140, |c.words|, n);
    }
    assert c.words == Answers(t.port, n);
    HeaderCounts(t.port, c);
    assert forall i :: 0 <= i < n ==> c.words[i] == Tdc.At(t.port, i);
  }

  lemma HeaderCounts(port: Tdc.Port, c: Tdc.Copied)
    requires Copies(port, 0, c, -1)
    ensures c.eventCount < 0 <==> NoHeader(c.words)
  {
    if j :| 0 <= j < |c.words| && GlobalHeader(c.words[j]) {
      var l := LastHeader(c.words, j);
      assert c.eventCount == c.words[l] / 0x20 % 0x40_0000;
    }
  }

  lemma {:induction false} LastHeader(ws: seq<Word>, j: nat) returns (l: nat)
    requires j < |ws| && GlobalHeader(ws[j])
    ensures j <= l && LastHeaderAt(ws, l)
    decreases |ws| - j
  {
    if i :| j < i < |ws| && GlobalHeader(ws[i]) {
      l := LastHeader(ws, i);
    } else {
      l := j;
    }
  }

  // ---- Scaler ----

  predicate FirstHeader(port: Scaler.Port, k: nat, h: nat) {
    && k <= h <= k + 32 && Scaler.At(port, h) / 0x400_0000 % 2 == 1
    && forall i :: k <= i < h ==> Scaler.At(port, i) / 0x400_0000 % 2 == 0
  }

  /** Channel `i` of an event whose header is read number `h`: what is read, if the header announces that many. */
  function Channel(port: Scaler.Port, h: nat, i: nat, kept: Word): Word {
    if i < Scaler.At(port, h) / 0x4_0000 % 0x40 then Scaler.At(port, h + 1 + i) else kept
  }

  /**
   One turn of the reading, whatever the scaler answers: with events left, 33 words of room and a header among
   the next 33 words, a record of 3 and the first three channels goes out, channels not announced keeping their
   value, and the reading goes on behind the announced words.
   */
  lemma OneTurn(port: Scaler.Port, k: nat, n: nat, room: int, kept: seq<Word>, t: Scaler.Taken, h: nat)
    requires |kept| == 3 && |t.latched| == 3 && t.eventCount >= -1
    requires n > 0 && room >= 33 && FirstHeader(port, k, h)
    ensures var c := [Channel(port, h, 0, kept[0]), Channel(port, h, 1, kept[1]), Channel(port, h, 2, kept[2])];
            var m := Scaler.At(port, h) / 0x4_0000 % 0x40;
            Scaler.Take(port, k, n, room, kept, t) ==
            Scaler.Take(port, h + 1 + m, n - 1, room - 4, c, Scaler.Taken(t.words + ([3] + c), t.eventCount + 1, c))
  {
    assert Scaler.HeaderBit(Scaler.At(port, h)) == 1;
    assert Scaler.FindHeader(port, k, k + 32) == h;
    Scaler.TakeStep(port, k, n, room, kept, t);
    var c := Scaler.Channels(port, h + 1, Scaler.NWords(Scaler.At(port, h)), kept);
    assert c == [Channel(port, h, 0, kept[0]), Channel(port, h, 1, kept[1]), Channel(port, h, 2, kept[2])];
    assert t.words + [3] + c == t.words + ([3] + c);
  }

  /** Otherwise the reading is over. */
  lemma LastTurn(port: Scaler.Port, k: nat, n: nat, room: int, kept: seq<Word>, t: Scaler.Taken)
    requires |kept| == 3 && |t.latched| == 3 && t.eventCount >= -1
    requires n == 0 || room < 33 || forall i :: k <= i <= k + 32 ==> Scaler.At(port, i) / 0x400_0000 % 2 == 0
    ensures Scaler.Take(port, k, n, room, kept, t) == t
  {
    if n > 0 && room >= 33 {
      var h := Scaler.FindHeader(port, k, k + 32);
      assert h >= 0 ==> Scaler.HeaderBit(Scaler.At(port, h)) == 1;
      Scaler.TakeNothing(port, k, n, room, kept, t);
    }
  }

  /** The block of a scaler that announces one event, whatever words it has in front: the channels its header does
      not announce are 0. */
  lemma SingleEvent(meb: Scaler.Port, latched: seq<Word>, h: nat)
    requires |latched| == 3 && FirstHeader(meb, 0, h)
    ensures var c := [Channel(meb, h, 0, 0), Channel(meb, h, 1, 0), Channel(meb, h, 2, 0)];
            ScalerContents(1, meb, latched) == [Content(2, [3] + c)] && ScalerTaken(1, meb, latched).latched == c
  {
    var c := [Channel(meb, h, 0, 0), Channel(meb, h, 1, 0), Channel(meb, h, 2, 0)];
    var m: nat := Scaler.At(meb, h) / 0x4_0000 % 0x40;
    var t := Scaler.Taken([], -1, latched);
    OneTurn(meb, 0, 1, ROOM, [0, 0, 0], t, h);
    LastTurn(meb, h + 1 + m, 0, ROOM - 4, c, Scaler.Taken([] + ([3] + c), 0, c));
    assert [] + ([3] + c) == [3] + c;
  }
}
