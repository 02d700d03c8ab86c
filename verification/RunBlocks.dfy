/**
 Run-start and run-end blocks: `encode_run_start` writes the run number and comment of the
 command and saves the command, `encode_run_end` writes them again from what was saved.  The time
 of day is a parameter.
 */
module RunBlocks {
  import opened Basics
  import opened RingBuffer
  import opened ScalerBlocks
  import RunControl

  const BLK_HEADER_START: Half := 0x0f01
  const BLK_HEADER_END: Half := 0x0f02
  const MAX_MSG := 256
  const TEXT_AT := 13

  type Msg = RunControl.Msg

  /** `char` may be signed or unsigned; both fit here and widen to 16 bits without a clash. */
  predicate IsChar(c: int) { -0x80 <= c < 0x100 }

  /** A comment field that holds a NUL, as the encoders need. */
  predicate Terminated(comment: seq<int>) {
    |comment| == MAX_MSG && 0 in comment && forall c :: c in comment ==> IsChar(c)
  }

  /** Where the comment ends. */
  function TextEnd(comment: seq<int>, from: nat): (n: nat)
    requires from <= |comment| && 0 in comment[from..]
    ensures from <= n < |comment| && comment[n] == 0
    ensures forall k :: from <= k < n ==> comment[k] != 0
    decreases |comment| - from
  {
    assert from < |comment|;
    if comment[from] == 0 then from
    else
      assert comment[from..] == [comment[from]] + comment[from + 1..];
      TextEnd(comment, from + 1)
  }

  function Text(comment: seq<int>): seq<int>
    requires 0 in comment
  {
    assert comment[0..] == comment;
    comment[..TextEnd(comment, 0)]
  }

  // ---- The wire format, read back ----

  datatype RunRecord = RunRecord(id: Half, run: Half, time: nat, text: seq<int>)

  function CharOf(h: Half): int { if h >= 0x8000 then h - 0x1_0000 else h }

  /** The characters from word `i` up to the first zero word. */
  function TextFrom(b: seq<Half>, i: nat): seq<int>
    decreases |b| - i
  {
    if i >= |b| || b[i] == 0 then [] else [CharOf(b[i])] + TextFrom(b, i + 1)
  }

  function Decode(b: seq<Half>): Option<RunRecord> {
    if |b| != BLK_BUF_SIZE then None
    else if !(b[0] == 0xffff && b[1] as int + b[3] == |b| && b[8] == 0x0304 && b[9] == 0x0102) then None
    else if !(b[1] == 6 && b[4] == b[5] == b[6] == 0 && b[7] == 0x0400) then None
    else if !(b[|b| - 2] == 0xffef && b[|b| - 1] == 2) then None
    else Some(RunRecord(b[2], b[12], b[10] as int * 0x1_0000 + b[11], TextFrom(b, TEXT_AT)))
  }

  // ---- The encoders ----

  function Head(id: Half, now: nat, run: int): (h: seq<Half>)
    ensures |h| == TEXT_AT
  {
    [0xffff, 6, id, BLK_BUF_SIZE - 6, 0, 0, 0, 0x0400, 0x0304, 0x0102,
     now / 0x1_0000 % 0x1_0000, now % 0x1_0000, run % 0x1_0000]
  }

  /** The first `n` characters, one to a word. */
  function Coded(comment: seq<int>, n: nat): (w: seq<Half>)
    requires n <= |comment|
    ensures |w| == n && forall k :: 0 <= k < n ==> w[k] == comment[k] % 0x1_0000
  {
    if n == 0 then [] else Coded(comment, n - 1) + [comment[n - 1] % 0x1_0000]
  }

  function Zeros(n: nat): (z: seq<Half>)
    ensures |z| == n && forall k :: 0 <= k < n ==> z[k] == 0
  {
    seq(n, _ => 0)
  }

  function RunBlock(id: Half, now: nat, msg: Msg): (b: seq<Half>)
    requires Terminated(msg.comment)
    ensures |b| == BLK_BUF_SIZE
  {
    var n := |Text(msg.comment)|;
    Head(id, now, msg.run) + Coded(msg.comment, n) + Zeros(BLK_BUF_SIZE - 2 - TEXT_AT - n) + [0xffef, 2]
  }

  lemma CharRoundTrip(c: int)
    requires IsChar(c)
    ensures CharOf(c % 0x1_0000) == c
    ensures c % 0x1_0000 == 0 <==> c == 0
  {
  }

  lemma {:induction false} TextReadBack(b: seq<Half>, text: seq<int>, i: nat)
    requires i <= |text| && TEXT_AT + |text| < |b| && b[TEXT_AT + |text|] == 0
    requires forall k :: 0 <= k < |text| ==> IsChar(text[k]) && text[k] != 0
    requires forall k :: 0 <= k < |text| ==> b[TEXT_AT + k] == text[k] % 0x1_0000
    ensures TextFrom(b, TEXT_AT + i) == text[i..]
    decreases |text| - i
  {
    if i < |text| {
      CharRoundTrip(text[i]);
      TextReadBack(b, text, i + 1);
      assert text[i..] == [text[i]] + text[i + 1..];
      assert b[TEXT_AT + i] == text[i] % 0x1_0000;
    }
  }

  lemma RunBlockParts(h: seq<Half>, w: seq<Half>, z: seq<Half>, t: seq<Half>, b: seq<Half>)
    requires |h| == TEXT_AT && |w| < MAX_MSG && |b| == BLK_BUF_SIZE && |t| == 2
    requires b == h + w + z + t && forall k :: 0 <= k < |z| ==> z[k] == 0
    ensures forall k :: 0 <= k < TEXT_AT ==> b[k] == h[k]
    ensures forall k :: 0 <= k < |w| ==> b[TEXT_AT + k] == w[k]
    ensures b[TEXT_AT + |w|] == 0
    ensures b[|b| - 2] == t[0] && b[|b| - 1] == t[1]
  {
    assert b[TEXT_AT + |w|] == z[0];
  }

  /** A run block reads back: run number, time and comment, each to the width of its words. */
  lemma DecodeRunBlock(id: Half, now: nat, msg: Msg)
    requires Terminated(msg.comment)
    ensures Decode(RunBlock(id, now, msg))
            == Some(RunRecord(id, msg.run % 0x1_0000, now % 0x1_0000_0000, Text(msg.comment)))
  {
    var text, b := Text(msg.comment), RunBlock(id, now, msg);
    var h, w := Head(id, now, msg.run), Coded(msg.comment, |text|);
    RunBlockParts(h, w, Zeros(BLK_BUF_SIZE - 2 - TEXT_AT - |text|), [0xffef, 2], b);
    forall k | 0 <= k < |text| ensures IsChar(text[k]) && text[k] != 0 && b[TEXT_AT + k] == text[k] % 0x1_0000 {
      assert text[k] == msg.comment[k] && msg.comment[k] in msg.comment;
      assert b[TEXT_AT + k] == w[k];
    }
    TextReadBack(b, text, 0);
    assert text[0..] == text;
    DecodeHead(b, h, id, now, msg.run);
  }

  lemma DecodeHead(b: seq<Half>, h: seq<Half>, id: Half, now: nat, run: int)
    requires |b| == BLK_BUF_SIZE && h == Head(id, now, run)
    requires forall k :: 0 <= k < TEXT_AT ==> b[k] == h[k]
    requires b[|b| - 2] == 0xffef && b[|b| - 1] == 2
    ensures Decode(b) == Some(RunRecord(id, run % 0x1_0000, now % 0x1_0000_0000, TextFrom(b, TEXT_AT)))
  {
    TimeInTwoWords(now);
  }

  lemma TimeInTwoWords(now: nat)
    ensures now % 0x1_0000_0000 == now / 0x1_0000 % 0x1_0000 * 0x1_0000 + now % 0x1_0000
  {
  }

  /** The words of a run block in plain numbers: 13 header words, one word per character, zeros, and the trailer in
      words 8190 and 8191. */
  lemma RunBlockWords(id: Half, now: nat, msg: Msg, k: nat)
    requires Terminated(msg.comment) && k < 8192
    ensures |RunBlock(id, now, msg)| == 8192
    ensures RunBlock(id, now, msg)[k] ==
            if k < 13 then
              [0xffff, 6, id, 8186, 0, 0, 0, 0x0400, 0x0304, 0x0102,
               now / 0x1_0000 % 0x1_0000, now % 0x1_0000, msg.run % 0x1_0000][k]
            else if k < 13 + |Text(msg.comment)| then msg.comment[k - 13] % 0x1_0000
            else if k < 8190 then 0 else if k == 8190 then 0xffef else 2
  {
    var h, w := Head(id, now, msg.run), Coded(msg.comment, |Text(msg.comment)|);
    WordAt(h, w, Zeros(BLK_BUF_SIZE - 2 - TEXT_AT - |w|), [0xffef, 2], k);
  }

  lemma WordAt(h: seq<Half>, w: seq<Half>, z: seq<Half>, t: seq<Half>, k: nat)
    requires k < |h| + |w| + |z| + |t|
    ensures (h + w + z + t)[k] ==
            if k < |h| then h[k] else if k < |h| + |w| then w[k - |h|]
            else if k < |h| + |w| + |z| then z[k - |h| - |w|] else t[k - |h| - |w| - |z|]
  {
  }

  /** The consumer sees a run-end block as one, and takes neither block for scaler data. */
  lemma RunBlockKinds(now: nat, msg: Msg)
    requires Terminated(msg.comment)
    ensures IsRunEnd(RunBlock(BLK_HEADER_END, now, msg)) && !IsScaler(RunBlock(BLK_HEADER_END, now, msg))
    ensures !IsRunEnd(RunBlock(BLK_HEADER_START, now, msg)) && !IsScaler(RunBlock(BLK_HEADER_START, now, msg))
  {
    DecodeRunBlock(BLK_HEADER_END, now, msg);
    DecodeRunBlock(BLK_HEADER_START, now, msg);
  }

  class Encoder {
    var cmb: Msg

    constructor (cmb: Msg)
      ensures this.cmb == cmb
    {
      this.cmb := cmb;
    }

    method EncodeRunStart(buf: array<Half>, now: nat, mb: Msg)
      requires buf.Length == BLK_BUF_SIZE && Terminated(mb.comment)
      modifies this, buf
      ensures buf[..] == RunBlock(BLK_HEADER_START, now, mb)
      ensures cmb == mb
    {
      cmb := mb;
      WriteRunBlock(buf, BLK_HEADER_START, now, mb);
    }

    method EncodeRunEnd(buf: array<Half>, now: nat)
      requires buf.Length == BLK_BUF_SIZE && Terminated(cmb.comment)
      modifies buf
      ensures buf[..] == RunBlock(BLK_HEADER_END, now, cmb)
    {
      WriteRunBlock(buf, BLK_HEADER_END, now, cmb);
    }
  }

  /** The comment loop: up to the NUL, and where it was found. */
  method WriteText(buf: array<Half>, comment: seq<int>) returns (end: nat)
    requires buf.Length == BLK_BUF_SIZE && Terminated(comment)
    modifies buf
    ensures end == |Text(comment)|
    ensures buf[..TEXT_AT + end] == old(buf[..TEXT_AT]) + Coded(comment, end)
  {
    ghost var head := buf[..TEXT_AT];
    assert comment[0..] == comment;
    end := 0;
    while comment[end] != 0
      invariant end <= TextEnd(comment, 0)
      invariant buf[..TEXT_AT + end] == head + Coded(comment, end)
      decreases MAX_MSG - end
    {
      buf[TEXT_AT + end] := comment[end] % 0x1_0000;
      end := end + 1;
    }
  }

  method WriteZeros(buf: array<Half>, from: nat)
    requires from <= BLK_BUF_SIZE - 2 && buf.Length == BLK_BUF_SIZE
    modifies buf
    ensures buf[..] == old(buf[..from]) + Zeros(BLK_BUF_SIZE - 2 - from) + [0xffef, 2]
  {
    ghost var front := buf[..from];
    var i := from;
    while i < BLK_BUF_SIZE - 2
      invariant from <= i <= BLK_BUF_SIZE - 2
      invariant buf[..i] == front + Zeros(i - from)
    {
      buf[i] := 0;
      i := i + 1;
      assert Zeros(i - from) == Zeros(i - 1 - from) + [0];
    }
    buf[i] := 0xffef;
    buf[i + 1] := 2;
    assert buf[..] == buf[..i] + [0xffef, 2];
  }

  method WriteRunBlock(buf: array<Half>, id: Half, now: nat, msg: Msg)
    requires buf.Length == BLK_BUF_SIZE && Terminated(msg.comment)
    modifies buf
    ensures buf[..] == RunBlock(id, now, msg)
  {
    var head := Head(id, now, msg.run);
    Store(buf, 0, head);
    assert buf[..TEXT_AT] == head;
    var end := WriteText(buf, msg.comment);
    WriteZeros(buf, TEXT_AT + end);
  }

  // ---- Over a whole run ----

  lemma {:induction false} LastStartIs(bs: seq<RunControl.Block>, i: nat, initial: Msg)
    requires i < |bs| && bs[i].Start? && forall k :: i < k < |bs| ==> !bs[k].Start?
    ensures RunControl.LastStart(bs, initial) == bs[i].msg
    decreases |bs|
  {
    if i < |bs| - 1 {
      LastStartIs(bs[..|bs| - 1], i, initial);
    }
  }

  /**
   In every run, whatever commands arrive, the block of an End reads back with the run number and
   comment of the Start before it.
   */
  lemma EndBlockRepeatsStartBlock(s: RunControl.State, acts: seq<RunControl.Action>, t: RunControl.State,
                                  i: nat, j: nat, startTime: nat, endTime: nat)
    requires RunControl.Init(s) && RunControl.Run(s, acts, t)
    requires i < j < |t.emitted| && t.emitted[i].Start? && t.emitted[j].End?
    requires forall k :: i < k < j ==> !t.emitted[k].Start?
    requires Terminated(t.emitted[i].msg.comment)
    ensures Terminated(t.emitted[j].msg.comment)
    ensures var first := Decode(RunBlock(BLK_HEADER_START, startTime, t.emitted[i].msg));
            var last := Decode(RunBlock(BLK_HEADER_END, endTime, t.emitted[j].msg));
            first.Some? && last.Some?
            && last.value.run == first.value.run && last.value.text == first.value.text
            && first.value.text == Text(t.emitted[i].msg.comment)
  {
    RunControl.EndRepeatsItsStart(s, acts, t, j);
    LastStartIs(t.emitted[..j], i, s.cmb);
    DecodeRunBlock(BLK_HEADER_START, startTime, t.emitted[i].msg);
    DecodeRunBlock(BLK_HEADER_END, endTime, t.emitted[j].msg);
  }
}
