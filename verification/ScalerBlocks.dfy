/**
 Scaler blocks on their way to a client: `encode_scl_blk` wraps 132 scaler words in block, event
 and field headers, and the consumer loop numbers the scaler blocks of each run.
 */
module ScalerBlocks {
  import opened Basics
  import opened RingBuffer

  const BLK_BUF_SIZE := 0x2000
  const SCALER_WORDS := 132
  const HEADER_WORDS := 18
  const ENCODED_WORDS := 154

  // ---- The wire format, read back ----

  datatype ScalerBlock = ScalerBlock(number: Half, words: seq<Half>, checksum: Half)

  /** Where a nested part ends: its start, its header size and the size it gives in word 3. */
  function EndOfPart(b: seq<Half>, start: nat): int
    requires start + 3 < |b|
  {
    start + b[start + 1] + b[start + 3]
  }

  /** The part at `start` has the given header id, and its header and sizes end it at `end`. */
  predicate PartIs(b: seq<Half>, start: nat, id: Half, header: nat, end: nat) {
    start + 3 < |b| && b[start] == id && b[start + 1] == header && EndOfPart(b, start) == end
  }

  /** A reader that trusts nothing but the sizes: block, event and field nest and end together. */
  function Decode(b: seq<Half>): Option<ScalerBlock> {
    if |b| < 6 then None
    else
      var end := EndOfPart(b, 0);
      if !(end <= |b| && end >= 22) then None
      else if !(PartIs(b, 0, 0xffff, 6, end) && b[2] == 0x0e00) then None
      else if !(b[end - 2] == 0xffef && b[end - 1] == 2) then None
      else if !(PartIs(b, 6, 0xffdf, 6, end - 2) && PartIs(b, 12, 0xffcf, 4, end - 2)) then None
      else if !(b[8] == 1 && b[10] == 0x014b && b[14] == 0) then None
      else if !(b[5] == 1 && b[11] == 1 && b[16] == 0x2001 && b[17] == 0x8000 && b[end - 4] == 0xf001) then None
      else Some(ScalerBlock(b[4], b[18..end - 4], b[end - 3]))
  }

  // ---- The encoder ----

  /** Sum of the first `n` words. */
  function Sum(s: seq<Half>, n: nat): nat
    requires n <= |s|
  {
    if n == 0 then 0 else Sum(s, n - 1) + s[n - 1]
  }

  lemma SumOfOne(w: Half)
    ensures Sum([w], 1) == w
  {
    assert Sum([w], 0) == 0;
  }

  lemma {:induction false} SumFront(a: seq<Half>, b: seq<Half>, n: nat)
    requires n <= |a|
    ensures Sum(a + b, n) == Sum(a, n)
  {
    if n > 0 {
      SumFront(a, b, n - 1);
    }
  }

  /** Every word counts once. */
  lemma {:induction false} SumOfTwo(a: seq<Half>, b: seq<Half>, n: nat)
    requires n <= |b|
    ensures Sum(a + b, |a| + n) == Sum(a, |a|) + Sum(b, n)
  {
    if n > 0 {
      SumOfTwo(a, b, n - 1);
    } else {
      SumFront(a, b, |a|);
    }
  }

  function Header(number: Half): (h: seq<Half>)
    ensures |h| == HEADER_WORDS
  {
    [0xffff, 0x0006, 0x0e00, 0x0094, number, 0x0001,
     0xffdf, 0x0006, 0x0001, 0x008c, 0x014b, 0x0001,
     0xffcf, 0x0004, 0x0000, 0x0088,
     0x2001, 0x8000]
  }

  function Trailer(sum: nat): (t: seq<Half>)
    ensures |t| == 4
  {
    [0xf001, sum % 0x1_0000, 0xffef, 0x0002]
  }

  /** The whole buffer after encoding: the words behind the header, the rest left as it was. */
  function Encoded(b: seq<Half>, number: Half): (r: seq<Half>)
    requires |b| >= ENCODED_WORDS
    ensures |r| == |b|
  {
    Header(number) + b[..SCALER_WORDS] + Trailer(Sum(b, SCALER_WORDS)) + b[ENCODED_WORDS..]
  }

  lemma EncodedHeads(b: seq<Half>, number: Half, r: seq<Half>)
    requires |b| >= ENCODED_WORDS && r == Encoded(b, number)
    ensures forall k :: 0 <= k < 18 ==> r[k] == Header(number)[k]
    ensures forall k :: 150 <= k < 154 ==> r[k] == Trailer(Sum(b, SCALER_WORDS))[k - 150]
    ensures r[18..150] == b[..SCALER_WORDS]
  {
    FourParts(Header(number), b[..SCALER_WORDS], Trailer(Sum(b, SCALER_WORDS)), b[ENCODED_WORDS..], r);
  }

  lemma FourParts(h: seq<Half>, w: seq<Half>, t: seq<Half>, rest: seq<Half>, r: seq<Half>)
    requires |h| == 18 && |w| == SCALER_WORDS && |t| == 4 && r == h + w + t + rest
    ensures forall k :: 0 <= k < 18 ==> r[k] == h[k]
    ensures forall k :: 150 <= k < 154 ==> r[k] == t[k - 150]
    ensures r[18..150] == w
  {
  }

  /** The sizes written into the block are those of its 154 words, and nothing is lost. */
  lemma DecodeEncoded(b: seq<Half>, number: Half)
    requires |b| >= ENCODED_WORDS
    ensures Decode(Encoded(b, number)) == Some(ScalerBlock(number, b[..132], Sum(b, 132) % 0x1_0000))
    ensures Encoded(b, number)[154..] == b[154..]
  {
    var r := Encoded(b, number);
    EncodedHeads(b, number, r);
    DecodeLayout(r, number, Sum(b, SCALER_WORDS));
  }

  lemma DecodeLayout(r: seq<Half>, number: Half, sum: nat)
    requires |r| >= ENCODED_WORDS
    requires forall k :: 0 <= k < 18 ==> r[k] == Header(number)[k]
    requires forall k :: 150 <= k < 154 ==> r[k] == Trailer(sum)[k - 150]
    ensures Decode(r) == Some(ScalerBlock(number, r[18..150], sum % 0x1_0000))
  {
    assert EndOfPart(r, 0) == ENCODED_WORDS;
    assert EndOfPart(r, 6) == 152 && EndOfPart(r, 12) == 152;
  }

  /** One of the encoder's copy loops: the words go to `at` and after, nothing else changes. */
  method Store(buf: array<Half>, at: nat, words: seq<Half>)
    requires at + |words| <= buf.Length
    modifies buf
    ensures buf[..] == old(buf[..at]) + words + old(buf[at + |words|..])
  {
    ghost var before := buf[..];
    for i := 0 to |words|
      invariant buf[..] == before[..at] + words[..i] + before[at + i..]
    {
      buf[at + i] := words[i];
    }
  }

  method CopyAndSum(buf: array<Half>) returns (copy: seq<Half>, sum: Half)
    requires buf.Length >= SCALER_WORDS
    ensures copy == buf[..SCALER_WORDS]
    ensures sum == Sum(buf[..], SCALER_WORDS) % 0x1_0000
  {
    copy, sum := [], 0;
    for i := 0 to SCALER_WORDS
      invariant copy == buf[..i]
      invariant sum == Sum(buf[..], i) % 0x1_0000
    {
      copy := copy + [buf[i]];
      sum := (sum + buf[i]) % 0x1_0000;
    }
  }

  lemma ThreeStores(b: seq<Half>, h: seq<Half>, w: seq<Half>, t: seq<Half>, b1: seq<Half>, b2: seq<Half>)
    requires |b| >= ENCODED_WORDS && |h| == 18 && |w| == SCALER_WORDS && |t| == 4
    requires b1 == h + b[18..] && b2 == b1[..18] + w + b1[150..]
    ensures |b1| == |b| && |b2| == |b|
    ensures b2[..150] + t + b2[154..] == h + w + t + b[154..]
  {
    assert b1[..18] == h && b1[150..] == b[150..];
    assert b2[..150] == h + w && b2[154..] == b[154..];
  }

  method StoreThree(buf: array<Half>, h: seq<Half>, w: seq<Half>, t: seq<Half>)
    requires buf.Length >= ENCODED_WORDS && |h| == HEADER_WORDS && |w| == SCALER_WORDS && |t| == 4
    modifies buf
    ensures buf[..] == h + w + t + old(buf[ENCODED_WORDS..])
  {
    ghost var b := buf[..];
    Store(buf, 0, h);
    ghost var b1 := buf[..];
    assert b1 == h + b[18..];
    Store(buf, HEADER_WORDS, w);
    ThreeStores(b, h, w, t, b1, buf[..]);
    Store(buf, HEADER_WORDS + SCALER_WORDS, t);
  }

  method EncodeScaler(buf: array<Half>, number: Half)
    requires buf.Length >= ENCODED_WORDS
    modifies buf
    ensures buf[..] == Encoded(old(buf[..]), number)
  {
    var copy, sum := CopyAndSum(buf);
    StoreThree(buf, Header(number), copy, Trailer(sum));
  }

  // ---- The consumer loop ----

  predicate IsScaler(b: seq<Half>) { |b| > 0 && b[0] / 0x8000 % 2 == 0 }

  predicate IsRunEnd(b: seq<Half>) { |b| > 2 && b[0] == 0xffff && b[2] == 0x0f02 }

  lemma Kinds(b: seq<Half>)
    requires |b| > 2
    ensures IsScaler(b) <==> b[0] < 0x8000
    ensures IsRunEnd(b) <==> b[0] == 0xffff && b[2] == 0x0f02
  {
  }

  /** Scaler blocks among the first `n` since the last run-end block. */
  function ScalersSinceEnd(bs: seq<seq<Half>>, n: nat): nat
    requires n <= |bs|
  {
    if n == 0 then 0
    else if IsScaler(bs[n - 1]) then ScalersSinceEnd(bs, n - 1) + 1
    else if IsRunEnd(bs[n - 1]) then 0
    else ScalersSinceEnd(bs, n - 1)
  }

  function ScalerPlaces(bs: seq<seq<Half>>, from: nat, n: nat): set<nat>
    requires n <= |bs|
  {
    set i: nat | from <= i < n && IsScaler(bs[i])
  }

  /** It is a count: the scaler blocks after the last run end, or after the beginning. */
  lemma {:induction false} ScalersSinceEndCounts(bs: seq<seq<Half>>, from: nat, n: nat)
    requires from <= n <= |bs|
    requires from == 0 || IsRunEnd(bs[from - 1])
    requires forall k :: from <= k < n ==> !IsRunEnd(bs[k])
    ensures ScalersSinceEnd(bs, n) == |ScalerPlaces(bs, from, n)|
  {
    if n > from {
      ScalersSinceEndCounts(bs, from, n - 1);
      PlacesStep(bs, from, n - 1);
    } else {
      assert ScalerPlaces(bs, from, n) == {};
    }
  }

  lemma PlacesStep(bs: seq<seq<Half>>, from: nat, n: nat)
    requires from <= n < |bs|
    ensures |ScalerPlaces(bs, from, n + 1)| == |ScalerPlaces(bs, from, n)| + if IsScaler(bs[n]) then 1 else 0
  {
    assert ScalerPlaces(bs, from, n + 1)
        == if IsScaler(bs[n]) then ScalerPlaces(bs, from, n) + {n} else ScalerPlaces(bs, from, n);
  }

  /** What a client is sent for a block, given the number a scaler block would get. */
  function Passed(b: seq<Half>, number: Half): seq<Half>
    requires |b| == BLK_BUF_SIZE
  {
    if IsScaler(b) then Encoded(b, number) else b
  }

  /** What the client is sent for the block at `k`. */
  function Sent(bs: seq<seq<Half>>, k: nat): seq<Half>
    requires k < |bs| && |bs[k]| == BLK_BUF_SIZE
  {
    Passed(bs[k], ScalersSinceEnd(bs, k) % 0x1_0000)
  }

  /** One turn of the loop, on the block that `get_rb_data` has put into the buffer. */
  method PassBlock(buf: array<Half>, count: Half) returns (next: Half)
    requires buf.Length == BLK_BUF_SIZE
    modifies buf
    ensures buf[..] == Passed(old(buf[..]), count)
    ensures next == if IsScaler(old(buf[..])) then (count + 1) % 0x1_0000
                    else if IsRunEnd(old(buf[..])) then 0 else count
  {
    next := count;
    if buf[0] / 0x8000 % 2 == 0 {
      EncodeScaler(buf, count);
      next := (count + 1) % 0x1_0000;
    } else if buf[0] == 0xffff && buf[2] == 0x0f02 {
      next := 0;
    }
  }

  lemma CountStep(bs: seq<seq<Half>>, n: nat, count: Half)
    requires n < |bs| && count == ScalersSinceEnd(bs, n) % 0x1_0000
    ensures ScalersSinceEnd(bs, n + 1) % 0x1_0000
            == if IsScaler(bs[n]) then (count + 1) % 0x1_0000 else if IsRunEnd(bs[n]) then 0 else count
  {
  }

  /** `collect_tcp`: takes the blocks from the ring one by one through one buffer and sends them. */
  method Consume(bs: seq<seq<Half>>) returns (sent: seq<seq<Half>>)
    requires forall k :: 0 <= k < |bs| ==> |bs[k]| == BLK_BUF_SIZE
    ensures |sent| == |bs|
    ensures forall k :: 0 <= k < |bs| ==> sent[k] == Sent(bs, k)
  {
    var buf := new Half[BLK_BUF_SIZE];
    var count: Half := 0;
    sent := [];
    for n := 0 to |bs|
      invariant |sent| == n
      invariant forall k :: 0 <= k < n ==> sent[k] == Sent(bs, k)
      invariant count == ScalersSinceEnd(bs, n) % 0x1_0000
    {
      Store(buf, 0, bs[n]);
      assert buf[..] == bs[n];
      CountStep(bs, n, count);
      assert Sent(bs, n) == Passed(bs[n], count);
      count := PassBlock(buf, count);
      sent := sent + [buf[..]];
    }
  }

  /** The client can read every scaler block back, and its number is the count since the run end. */
  lemma ClientReadsScalers(bs: seq<seq<Half>>, k: nat)
    requires k < |bs| && |bs[k]| == BLK_BUF_SIZE && IsScaler(bs[k])
    ensures Decode(Sent(bs, k)) == Some(ScalerBlock(ScalersSinceEnd(bs, k) % 0x1_0000, bs[k][..SCALER_WORDS],
                                                    Sum(bs[k], SCALER_WORDS) % 0x1_0000))
    ensures !IsScaler(Sent(bs, k)) && !IsRunEnd(Sent(bs, k)) && Sent(bs, k)[154..] == bs[k][154..]
  {
    DecodeEncoded(bs[k], ScalersSinceEnd(bs, k) % 0x1_0000);
    EncodedHeads(bs[k], ScalersSinceEnd(bs, k) % 0x1_0000, Sent(bs, k));
  }

  /** Every other block is passed on as it is. */
  lemma OthersUnchanged(bs: seq<seq<Half>>, k: nat)
    requires k < |bs| && |bs[k]| == BLK_BUF_SIZE && bs[k][0] >= 0x8000
    ensures Sent(bs, k) == bs[k]
  {
    Kinds(bs[k]);
  }
}
