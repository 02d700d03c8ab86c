/**
 The VMEDAQ block format: four header words (id, type, counter, size in bytes) and a payload.
 */
module VmedaqBlocks {
  import opened Words

  const HEADER_ID: Word := 0x44454D56
  const TYPE_V1190: Word := 0x0000_0001
  const TYPE_V830: Word := 0x0000_0002
  const TYPE_MADC32: Word := 0x0000_1000

  const HEADER_WORDS := 4
  const DATA_BUF_SIZE := 16384 * 16

  datatype Block = Block(kind: Word, counter: Word, payload: seq<Word>) {
    /** Fits the buffer the read-out uses for one block. */
    predicate Fits() { HEADER_WORDS + |payload| <= DATA_BUF_SIZE }

    function Size(): nat { HEADER_WORDS + |payload| }

    function Words(): (r: seq<Word>)
      requires Fits()
      ensures |r| == Size()
    {
      HeaderWords(kind, counter, Size()) + payload
    }
  }

  /** The header of a block of `size` words. */
  function HeaderWords(kind: Word, counter: Word, size: nat): (r: seq<Word>)
    requires size <= DATA_BUF_SIZE
    ensures |r| == HEADER_WORDS
  {
    [HEADER_ID, kind, counter, 4 * size]
  }

  predicate AllFit(bs: seq<Block>) {
    forall i :: 0 <= i < |bs| ==> bs[i].Fits()
  }

  /** The words of a file that holds these blocks. */
  function Concat(bs: seq<Block>): seq<Word>
    requires AllFit(bs)
  {
    if bs == [] then [] else bs[0].Words() + Concat(bs[1..])
  }

  function TotalWords(bs: seq<Block>): nat {
    if bs == [] then 0 else bs[0].Size() + TotalWords(bs[1..])
  }

  datatype Parsed = Malformed | Blocks(blocks: seq<Block>)

  /** Reads a file back, going from header to header by the size fields alone. */
  function Parse(ws: seq<Word>): Parsed
    decreases |ws|
  {
    if ws == [] then Blocks([])
    else if |ws| < HEADER_WORDS || ws[0] != HEADER_ID then Malformed
    else
      var bytes := ws[3];
      var n := bytes / 4;
      if bytes % 4 != 0 || n < HEADER_WORDS || n > |ws| then Malformed
      else
        match Parse(ws[n..])
        case Malformed => Malformed
        case Blocks(rest) => Blocks([Block(ws[1], ws[2], ws[HEADER_WORDS..n])] + rest)
  }

  lemma ParseCons(b: Block, rest: seq<Word>)
    requires b.Fits()
    ensures Parse(b.Words() + rest) ==
            match Parse(rest)
            case Malformed => Malformed
            case Blocks(bs) => Blocks([b] + bs)
  {
    var ws, n := b.Words() + rest, b.Size();
    assert ws[..HEADER_WORDS] == HeaderWords(b.kind, b.counter, n);
    assert ws[0] == HEADER_ID && ws[1] == b.kind && ws[2] == b.counter && ws[3] == 4 * n;
    assert ws[n..] == rest;
    assert ws[HEADER_WORDS..n] == b.payload;
  }

  /** A file parses back to exactly the blocks that were written. */
  lemma {:induction false} ParseConcat(bs: seq<Block>)
    requires AllFit(bs)
    ensures Parse(Concat(bs)) == Blocks(bs)
    decreases |bs|
  {
    if bs != [] {
      ParseConcat(bs[1..]);
      ParseCons(bs[0], Concat(bs[1..]));
      assert [bs[0]] + bs[1..] == bs;
    }
  }

  lemma {:induction false} ConcatPush(bs: seq<Block>, b: Block)
    requires AllFit(bs) && b.Fits()
    ensures AllFit(bs + [b]) && Concat(bs + [b]) == Concat(bs) + b.Words()
    decreases |bs|
  {
    if bs == [] {
      assert bs + [b] == [b];
      assert Concat([b][1..]) == [];
    } else {
      assert (bs + [b])[1..] == bs[1..] + [b];
      ConcatPush(bs[1..], b);
    }
  }

  lemma {:induction false} TotalPush(bs: seq<Block>, b: Block)
    ensures TotalWords(bs + [b]) == TotalWords(bs) + b.Size()
    decreases |bs|
  {
    if bs == [] {
      assert bs + [b] == [b];
      assert TotalWords([b][1..]) == 0;
    } else {
      assert (bs + [b])[1..] == bs[1..] + [b];
      TotalPush(bs[1..], b);
    }
  }

  /** Blocks numbered from 0 on, modulo 2^32. */
  predicate Numbered(bs: seq<Block>) {
    forall i :: 0 <= i < |bs| ==> bs[i].counter == i % TWO32
  }
}
