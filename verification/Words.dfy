/**
 32-bit words as the front-end modules deliver them, and the bit fields the
 readout looks at.  A word is a number below 2^32; a field of width n at bit p is
 `(w / 2^p) % 2^n`, so that a packed word is a plain sum.
 */
module Words {
  const TWO32 := 0x1_0000_0000

  type Word = w: int | 0 <= w < TWO32

  // ---- MADC32 data words (include/madc32.h) ----

  const SIG_DATA := 0
  const SIG_HEADER := 1
  const SIG_END := 3

  const SUB_NO_HEADER := 1
  const SUB_NO_END := 2

  const COUNTER_RANGE := 0x4000_0000

  function Sig(w: Word): int { w / 0x4000_0000 }

  /** Words that belong to the body of an event: neither header nor end of event. */
  predicate IsBody(w: Word) { Sig(w) != SIG_HEADER && Sig(w) != SIG_END }

  // A header: signature 2 bits, subheader 6, module id 8, output format 1, resolution 3, words 12.
  function Subheader(w: Word): int { (w / 0x100_0000) % 0x40 }
  function Low(w: Word): int { w % 0x100_0000 }
  function ModuleId(w: Word): int { Low(w) / 0x1_0000 }
  function OutputFormat(w: Word): int { (Low(w) / 0x8000) % 2 }
  function AdcResolution(w: Word): int { (Low(w) / 0x1000) % 8 }
  function NDataWords(w: Word): int { Low(w) % 0x1000 }

  function EventCounter(w: Word): int { w % COUNTER_RANGE }

  lemma HeaderJoin(sig: int, sub: int, low: int)
    requires 0 <= sig < 4 && 0 <= sub < 0x40 && 0 <= low < 0x100_0000
    ensures var w := sig * 0x4000_0000 + sub * 0x100_0000 + low;
            0 <= w < TWO32 && Sig(w) == sig && Subheader(w) == sub && Low(w) == low
  {
    var w := sig * 0x4000_0000 + sub * 0x100_0000 + low;
    assert w / 0x100_0000 == sig * 0x40 + sub;
  }

  /** A header word put together from signature, subheader and the 24 bits below. */
  function Header(sig: int, sub: int, low: int): (r: Word)
    requires 0 <= sig < 4 && 0 <= sub < 0x40 && 0 <= low < 0x100_0000
    ensures Sig(r) == sig && Subheader(r) == sub && Low(r) == low
  {
    HeaderJoin(sig, sub, low);
    sig * 0x4000_0000 + sub * 0x100_0000 + low
  }

  /** Overwrites the 6-bit subheader field and nothing else. */
  function SetSubheader(w: Word, sub: int): (r: Word)
    requires 0 <= sub < 0x40
    ensures Subheader(r) == sub && Sig(r) == Sig(w) && Low(r) == Low(w)
  {
    Header(Sig(w), sub, Low(w))
  }

  lemma LowJoin(id: int, res: int, n: int)
    requires 0 <= id < 0x100 && 0 <= res < 8 && 0 <= n < 0x1000
    ensures var r := id * 0x1_0000 + res * 0x1000 + n;
            r < 0x100_0000 && r / 0x1_0000 == id && (r / 0x8000) % 2 == 0 && (r / 0x1000) % 8 == res && r % 0x1000 == n
  {
    var r := id * 0x1_0000 + res * 0x1000 + n;
    assert r / 0x1000 == id * 0x10 + res;
    assert r / 0x8000 == id * 2;
  }

  function HeaderLow(nWords: int, resolution: int, mid: int): (r: int)
    ensures 0 <= r < 0x100_0000
    ensures r / 0x1_0000 == mid % 0x100 && (r / 0x8000) % 2 == 0
    ensures (r / 0x1000) % 8 == resolution % 8 && r % 0x1000 == nWords % 0x1000
  {
    var id, res, n := mid % 0x100, resolution % 8, nWords % 0x1000;
    LowJoin(id, res, n);
    id * 0x1_0000 + res * 0x1000 + n
  }

  /** A generated header; every field is cut to the width it has in the word. */
  function PackHeader(nWords: int, resolution: int, mid: int, sub: int): (r: Word)
    requires 0 <= sub < 0x40
    ensures Sig(r) == SIG_HEADER && Subheader(r) == sub
    ensures NDataWords(r) == nWords % 0x1000 && AdcResolution(r) == resolution % 8
    ensures OutputFormat(r) == 0 && ModuleId(r) == mid % 0x100
  {
    Header(SIG_HEADER, sub, HeaderLow(nWords, resolution, mid))
  }

  /** An end-of-event word; the counter is cut to its 30 bits. */
  function PackEnd(counter: int): (r: Word)
    ensures Sig(r) == SIG_END && EventCounter(r) == counter % COUNTER_RANGE
  {
    SIG_END * 0x4000_0000 + counter % COUNTER_RANGE
  }

  /** `++` on a C `int`: 32-bit two's complement. */
  function Next(c: int): (r: int)
    ensures r % COUNTER_RANGE == (c + 1) % COUNTER_RANGE
  {
    if c == 0x7FFF_FFFF then -0x8000_0000 else c + 1
  }
}
