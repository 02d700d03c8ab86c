/**
 Tables for the memory lookup unit: 4096 words of 16 bits that tell for each pair of differences
 whether it lies outside a circular window.  The words are the output; how they reach the module
 is not part of this model.
 */
module Mlu {

  // ---- Bits of a word ----

  function Pow2(j: nat): (p: nat)
    ensures p > 0
  {
    if j == 0 then 1 else 2 * Pow2(j - 1)
  }

  predicate Bit(w: nat, k: nat) {
    if k == 0 then w % 2 == 1 else Bit(w / 2, k - 1)
  }

  /** `w | 1 << j` */
  function SetBit(w: nat, j: nat): nat { if Bit(w, j) then w else w + Pow2(j) }

  lemma {:induction false} AddPow2(w: nat, j: nat, k: nat)
    requires !Bit(w, j)
    ensures Bit(w + Pow2(j), k) <==> Bit(w, k) || k == j
  {
    if j == 0 {
      assert (w + 1) / 2 == w / 2;
    } else {
      assert (w + Pow2(j)) / 2 == w / 2 + Pow2(j - 1) && (w + Pow2(j)) % 2 == w % 2;
      if k > 0 {
        AddPow2(w / 2, j - 1, k - 1);
      }
    }
  }

  lemma SetBitAt(w: nat, j: nat, k: nat)
    ensures Bit(SetBit(w, j), k) <==> Bit(w, k) || k == j
  {
    if !Bit(w, j) {
      AddPow2(w, j, k);
    }
  }

  lemma {:induction false} ZeroHasNoBits(k: nat)
    ensures !Bit(0, k)
  {
    if k > 0 {
      ZeroHasNoBits(k - 1);
    }
  }

  /** `getDataFromWindow`: outside the circle. */
  predicate Outside(x1: int, x2: int, r2: int) { x1 * x1 + x2 * x2 >= r2 }

  // ---- The (u, v) table ----

  /** The low byte read as a signed number. */
  function SignedByte(d: int): int {
    var low := d % 0x100;
    if low >= 0x80 then low - 0x100 else low
  }

  /** `getData` */
  predicate Fires(u: int, v: int, r2: int, ofs1: int, ofs2: int) {
    Outside(SignedByte(u - ofs1), SignedByte(v - ofs2), r2)
  }

  /** The pair of differences that word `i`, bit `j` answers for. */
  function Point(i: nat, j: nat): (int, int) { (i % 0x100, i / 0x100 + 16 * j) }

  function WordOf(u: nat, v: nat): nat { u + v % 16 * 0x100 }

  function BitOf(v: nat): nat { v / 16 }

  /** Words and bits on the one side, pairs of bytes on the other, answer one to one. */
  lemma PointIsBijection(i: nat, j: nat, u: nat, v: nat)
    requires i < 0x1000 && j < 16 && u < 0x100 && v < 0x100
    ensures var p := Point(i, j); 0 <= p.0 < 0x100 && 0 <= p.1 < 0x100
    ensures WordOf(u, v) < 0x1000 && BitOf(v) < 16
    ensures Point(i, j) == (u, v) <==> i == WordOf(u, v) && j == BitOf(v)
  {
    SplitByte(i / 0x100, j, v);
    var row := v % 16;
    assert 0 <= row < 16;
    assert i == i / 0x100 * 0x100 + i % 0x100;
  }

  lemma SplitByte(row: nat, j: nat, v: nat)
    requires row < 16
    ensures row + 16 * j == v <==> row == v % 16 && j == v / 16
  {
    assert v == v / 16 * 16 + v % 16;
  }

  predicate Congruent(p: int, d: int) { (p - d) % 0x100 == 0 }

  lemma SquareMonotone(a: int, b: int)
    requires -b <= a <= b
    ensures a * a <= b * b
  {
    var m := if a < 0 then -a else a;
    assert a * a == m * m;
    assert m * m <= m * b <= b * b by {
      TimesMonotone(m, b, m);
      TimesMonotone(m, b, b);
    }
  }

  lemma TimesMonotone(a: int, b: int, c: int)
    requires a <= b && 0 <= c
    ensures a * c <= b * c
  {
    assert b * c - a * c == (b - a) * c;
  }

  /** The signed byte is the representative nearest to zero. */
  lemma SignedByteNearest(d: int, p: int)
    requires Congruent(p, d)
    ensures Congruent(SignedByte(d), d) && -0x80 <= SignedByte(d) < 0x80
    ensures SignedByte(d) * SignedByte(d) <= p * p
  {
    var a := SignedByte(d);
    var n := (p - a) / 0x100;
    assert p == a + 0x100 * n;
    if n == 0 {
    } else if n > 0 {
      SquareMonotone(a, p);
    } else {
      SquareMonotone(a, -p);
      assert (-p) * (-p) == p * p;
    }
  }

  /**
   What the table means: the differences wrap around, and a bit is set exactly when no way of
   unwrapping them brings the point inside the circle about the offsets.
   */
  lemma FiresIffOutsideOnTorus(u: int, v: int, r2: int, ofs1: int, ofs2: int)
    ensures Fires(u, v, r2, ofs1, ofs2) <==>
            forall p, q :: Congruent(p, u - ofs1) && Congruent(q, v - ofs2) ==> p * p + q * q >= r2
  {
    var a, b := SignedByte(u - ofs1), SignedByte(v - ofs2);
    assert Congruent(a, u - ofs1) && Congruent(b, v - ofs2);
    if Outside(a, b, r2) {
      forall p, q | Congruent(p, u - ofs1) && Congruent(q, v - ofs2) ensures p * p + q * q >= r2 {
        SignedByteNearest(u - ofs1, p);
        SignedByteNearest(v - ofs2, q);
      }
    }
  }

  /** One word of the table, built bit by bit. */
  method BuildWord(i: nat, r2: int, ofs1: int, ofs2: int) returns (data: nat)
    ensures forall j: nat :: j < 16 ==> (Bit(data, j) <==> Fires(Point(i, j).0, Point(i, j).1, r2, ofs1, ofs2))
  {
    data := 0;
    forall k: nat ensures !Bit(data, k) { ZeroHasNoBits(k); }
    for j := 0 to 16
      invariant forall k: nat :: Bit(data, k) <==> k < j && Fires(Point(i, k).0, Point(i, k).1, r2, ofs1, ofs2)
    {
      ghost var before := data;
      if Fires(Point(i, j).0, Point(i, j).1, r2, ofs1, ofs2) {
        data := SetBit(data, j);
        forall k: nat ensures Bit(data, k) <==> Bit(before, k) || k == j { SetBitAt(before, j, k); }
      }
    }
  }

  /** Every pair is answered by its bit. */
  predicate TableFor(words: seq<nat>, r2: int, ofs1: int, ofs2: int) {
    |words| == 0x1000
    && forall u: nat, v: nat :: u < 0x100 && v < 0x100 ==>
         WordOf(u, v) < 0x1000 && (Bit(words[WordOf(u, v)], BitOf(v)) <==> Fires(u, v, r2, ofs1, ofs2))
  }

  /** Looking a pair up in the table agrees with evaluating the window of radius `r`. */
  method BuildTable(r: int, ofs1: int, ofs2: int) returns (words: seq<nat>)
    ensures TableFor(words, r * r, ofs1, ofs2)
  {
    var r2 := r * r;
    words := [];
    for i := 0 to 0x1000
      invariant |words| == i
      invariant forall k: nat, j: nat :: k < i && j < 16 ==>
                  (Bit(words[k], j) <==> Fires(Point(k, j).0, Point(k, j).1, r2, ofs1, ofs2))
    {
      var data := BuildWord(i, r2, ofs1, ofs2);
      words := words + [data];
    }
    forall u: nat, v: nat | u < 0x100 && v < 0x100
      ensures WordOf(u, v) < 0x1000
      ensures Bit(words[WordOf(u, v)], BitOf(v)) <==> Fires(u, v, r2, ofs1, ofs2)
    {
      PointIsBijection(WordOf(u, v), BitOf(v), u, v);
    }
  }

  /** Bit `k` of a word is its binary digit of weight 2^k. */
  lemma {:induction false} BitIsDigit(w: nat, k: nat)
    ensures Bit(w, k) <==> w / Pow2(k) % 2 == 1
    decreases k
  {
    if k > 0 {
      BitIsDigit(w / 2, k - 1);
      HalfThenDivide(w, Pow2(k - 1));
    }
  }

  lemma HalfThenDivide(w: nat, p: nat)
    requires p > 0
    ensures w / 2 / p == w / (2 * p)
  {
    var q, r := w / 2 / p, w / 2 % p;
    assert w / 2 == q * p + r;
    assert w == 2 * p * q + (2 * r + w % 2) by {
      assert w == 2 * (q * p + r) + w % 2;
    }
    DivideUnique(w, 2 * p, q, 2 * r + w % 2);
  }

  lemma DivideUnique(w: nat, d: nat, q: nat, r: nat)
    requires d > 0 && r < d && w == d * q + r
    ensures w / d == q
  {
    var q', r' := w / d, w % d;
    assert w == d * q' + r' && d * (q' + 1) == d * q' + d && d * (q + 1) == d * q + d;
    if q' < q {
      TimesMonotone(q' + 1, q, d);
      assert false;
    } else if q' > q {
      TimesMonotone(q + 1, q', d);
      assert false;
    }
  }

  /**
   In plain numbers: with the differences taken to the range -128 to 127, bit v/16 of word u + 256 (v mod 16)
   is 1 exactly when they are at least the radius away.
   */
  lemma LookUp(words: seq<nat>, r2: int, ofs1: int, ofs2: int, u: nat, v: nat, a: int, b: int)
    requires TableFor(words, r2, ofs1, ofs2) && u < 256 && v < 256
    requires -128 <= a < 128 && (a - (u - ofs1)) % 256 == 0
    requires -128 <= b < 128 && (b - (v - ofs2)) % 256 == 0
    ensures u + v % 16 * 256 < 4096
    ensures Bit(words[u + v % 16 * 256], v / 16) <==> a * a + b * b >= r2
  {
    WordAndBit(u, v);
    FiresAbout(u, v, r2, ofs1, ofs2, a, b);
  }

  lemma WordAndBit(u: nat, v: nat)
    requires u < 256 && v < 256
    ensures WordOf(u, v) == u + v % 16 * 256 < 4096 && BitOf(v) == v / 16
  {
  }

  lemma FiresAbout(u: int, v: int, r2: int, ofs1: int, ofs2: int, a: int, b: int)
    requires -128 <= a < 128 && (a - (u - ofs1)) % 256 == 0
    requires -128 <= b < 128 && (b - (v - ofs2)) % 256 == 0
    ensures Fires(u, v, r2, ofs1, ofs2) <==> a * a + b * b >= r2
  {
    SignedByteUnique(u - ofs1, a);
    SignedByteUnique(v - ofs2, b);
    assert Fires(u, v, r2, ofs1, ofs2) == Outside(a, b, r2);
  }

  lemma SignedByteUnique(d: int, a: int)
    requires -128 <= a < 128 && (a - d) % 256 == 0
    ensures SignedByte(d) == a
  {
  }

  // ---- Offsets that change with x ----

  /** C's division, for a positive divisor. */
  function TruncDiv(a: int, b: int): int
    requires b > 0
  {
    if a >= 0 then a / b else -(-a / b)
  }

  /** Where the offset for signed `x` is kept. */
  function Cell(x: int): (c: nat)
    requires -8 <= x <= 7
    ensures c < 16
  {
    if x < 0 then x + 16 else x
  }

  /** The offset at `x`, interpolated from the nearer end. */
  function Offset(lo: int, hi: int, x: int): int {
    if x < 0 then lo + TruncDiv((hi - lo) * (x + 8), 15) else hi - TruncDiv((hi - lo) * (7 - x), 15)
  }

  predicate Interpolated(du: seq<int>, lo: int, hi: int) {
    |du| == 16 && forall x :: -8 <= x <= 7 ==> du[Cell(x)] == Offset(lo, hi, x)
  }

  method Interpolate(du: array<int>)
    requires du.Length == 16
    modifies du
    ensures Interpolated(du[..], old(du[8]), old(du[7]))
  {
    var lo, hi := du[8], du[7];
    for k := 1 to 8
      invariant du[8] == lo && du[7] == hi
      invariant forall x :: 8 - k <= x <= 7 ==> du[x] == Offset(lo, hi, x)
      invariant forall x :: -8 <= x < k - 8 ==> du[x + 16] == Offset(lo, hi, x)
    {
      assert Offset(lo, hi, 7 - k) == hi - TruncDiv((hi - lo) * k, 15);
      assert Offset(lo, hi, k - 8) == lo + TruncDiv((hi - lo) * k, 15);
      du[7 - k] := du[7] - TruncDiv((du[7] - du[8]) * k, 15);
      du[8 + k] := du[8] + TruncDiv((du[7] - du[8]) * k, 15);
    }
  }

  /** The interpolation hits both end points. */
  lemma OffsetEnds(lo: int, hi: int)
    ensures Offset(lo, hi, -8) == lo && Offset(lo, hi, 7) == hi
  {
  }

  lemma OffsetSymmetric(lo: int, hi: int, x: int)
    ensures Offset(lo, hi, x) + Offset(lo, hi, -1 - x) == lo + hi
  {
  }

  lemma TruncNegates(a: int)
    ensures TruncDiv(-a, 15) == -TruncDiv(a, 15)
  {
  }

  /** Turning the line round turns the offsets round. */
  lemma OffsetMirrored(lo: int, hi: int, x: int)
    ensures Offset(-lo, -hi, x) == -Offset(lo, hi, x)
  {
    var d := hi - lo;
    assert (-hi - -lo) * (x + 8) == -(d * (x + 8));
    assert (-hi - -lo) * (7 - x) == -(d * (7 - x));
    TruncNegates(d * (x + 8));
    TruncNegates(d * (7 - x));
  }

  lemma TruncMonotone(a: int, b: int)
    requires 0 <= a <= b
    ensures TruncDiv(a, 15) <= TruncDiv(b, 15)
  {
  }

  lemma RisingStep(lo: int, hi: int, x: int)
    requires lo <= hi && -8 <= x < 7
    ensures Offset(lo, hi, x) <= Offset(lo, hi, x + 1)
  {
    var d := hi - lo;
    if x < -1 {
      ProductStep(d, x + 8);
    } else if x == -1 {
      assert d * 7 / 15 * 2 <= d;
    } else {
      ProductStep(d, 6 - x);
    }
  }

  lemma ProductStep(d: int, k: int)
    requires 0 <= d && 0 <= k
    ensures TruncDiv(d * k, 15) <= TruncDiv(d * (k + 1), 15)
  {
    TimesMonotone(0, k, d);
    assert d * (k + 1) == d * k + d;
    TruncMonotone(d * k, d * (k + 1));
  }

  lemma {:induction false} Rising(lo: int, hi: int, x: int, y: int)
    requires lo <= hi && -8 <= x <= y <= 7
    ensures Offset(lo, hi, x) <= Offset(lo, hi, y)
    decreases y - x
  {
    if x < y {
      Rising(lo, hi, x, y - 1);
      RisingStep(lo, hi, y - 1);
    }
  }

  /** In signed order of `x` the offsets rise with a rising line and fall with a falling one. */
  lemma OffsetMonotone(lo: int, hi: int, x: int, y: int)
    requires -8 <= x <= y <= 7
    ensures lo <= hi ==> lo <= Offset(lo, hi, x) <= Offset(lo, hi, y) <= hi
    ensures lo >= hi ==> lo >= Offset(lo, hi, x) >= Offset(lo, hi, y) >= hi
  {
    OffsetEnds(lo, hi);
    if lo <= hi {
      Rising(lo, hi, -8, x);
      Rising(lo, hi, x, y);
      Rising(lo, hi, y, 7);
    }
    if lo >= hi {
      OffsetEnds(-lo, -hi);
      Rising(-lo, -hi, -8, x);
      Rising(-lo, -hi, x, y);
      Rising(-lo, -hi, y, 7);
      OffsetMirrored(lo, hi, x);
      OffsetMirrored(lo, hi, y);
    }
  }

  /** Fifteen times the exact line through (-8, lo) and (7, hi). */
  function Line15(lo: int, hi: int, x: int): int { 15 * lo + (hi - lo) * (x + 8) }

  /** Truncation pulls each offset towards its nearer end, by less than one count. */
  lemma OffsetNearLine(lo: int, hi: int, x: int)
    requires -8 <= x <= 7
    ensures var e := 15 * Offset(lo, hi, x) - Line15(lo, hi, x);
            if (lo <= hi) == (x < 0) then -15 < e <= 0 else 0 <= e < 15
  {
    var d := hi - lo;
    var a := d * (x + 8);
    var b := d * (7 - x);
    assert a + b == 15 * d;
    if d >= 0 {
      TimesMonotone(0, x + 8, d);
      TimesMonotone(0, 7 - x, d);
      assert a >= 0 && b >= 0;
    } else {
      TimesMonotone(0, x + 8, -d);
      TimesMonotone(0, 7 - x, -d);
      assert (x + 8) * -d == -a && (7 - x) * -d == -b;
    }
  }

  // ---- The (x, u, v) table ----

  /** A six-bit field read as a signed number. */
  function SignedSix(n: nat): int
    requires n < 0x40
  {
    if n >= 0x20 then n - 0x40 else n
  }

  /** What is left of an `int` in a `short`. */
  function Short(d: int): int {
    var low := d % 0x1_0000;
    if low >= 0x8000 then low - 0x1_0000 else low
  }

  /** `getData` with the offsets of cell `c`. */
  predicate FiresAt(u: int, v: int, r2: int, du: seq<int>, dv: seq<int>, c: nat)
    requires |du| == |dv| == 16 && c < 16
  {
    Outside(Short(u - du[c]), Short(v - dv[c]), r2)
  }

  function WordOfSix(u: int, v: int): nat { u % 0x40 + v % 0x40 * 0x40 }

  lemma WordOfSixReads(u: int, v: int)
    requires -0x20 <= u < 0x20 && -0x20 <= v < 0x20
    ensures var i := WordOfSix(u, v);
            i < 0x1000 && SignedSix(i % 0x40) == u && SignedSix(i / 0x40 % 0x40) == v
  {
    var a, b := u % 0x40, v % 0x40;
    assert (a + b * 0x40) / 0x40 == b && (a + b * 0x40) % 0x40 == a;
  }

  method BuildWordX(u: int, v: int, r2: int, du: seq<int>, dv: seq<int>) returns (data: nat)
    requires |du| == |dv| == 16
    ensures forall j: nat :: j < 16 ==> (Bit(data, j) <==> FiresAt(u, v, r2, du, dv, j))
  {
    data := 0;
    forall k: nat ensures !Bit(data, k) { ZeroHasNoBits(k); }
    for j := 0 to 16
      invariant forall k: nat :: Bit(data, k) <==> k < j && FiresAt(u, v, r2, du, dv, k)
    {
      ghost var before := data;
      if FiresAt(u, v, r2, du, dv, j) {
        data := SetBit(data, j);
        forall k: nat ensures Bit(data, k) <==> Bit(before, k) || k == j { SetBitAt(before, j, k); }
      }
    }
  }

  /** Bit `j` of word `i` is the window at cell `j` of the two six-bit fields of `i`. */
  predicate Loaded(words: seq<nat>, r2: int, du: seq<int>, dv: seq<int>)
    requires |du| == |dv| == 16
  {
    |words| == 0x1000
    && forall i: nat, j: nat :: i < 0x1000 && j < 16 ==>
         (Bit(words[i], j) <==> FiresAt(SignedSix(i % 0x40), SignedSix(i / 0x40 % 0x40), r2, du, dv, j))
  }

  method BuildWordsX(r2: int, du: seq<int>, dv: seq<int>) returns (words: seq<nat>)
    requires |du| == |dv| == 16
    ensures Loaded(words, r2, du, dv)
  {
    words := [];
    for i := 0 to 0x1000
      invariant |words| == i
      invariant forall k: nat, j: nat :: k < i && j < 16 ==>
                  (Bit(words[k], j) <==> FiresAt(SignedSix(k % 0x40), SignedSix(k / 0x40 % 0x40), r2, du, dv, j))
    {
      var data := BuildWordX(SignedSix(i % 0x40), SignedSix(i / 0x40 % 0x40), r2, du, dv);
      words := words + [data];
    }
  }

  /** The table's answer for signed x, u and v. */
  predicate Answer(words: seq<nat>, x: int, u: int, v: int)
    requires |words| == 0x1000 && -8 <= x <= 7
  {
    WordOfSix(u, v) < 0x1000 && Bit(words[WordOfSix(u, v)], Cell(x))
  }

  /** The window about the offsets at x, in `short` arithmetic. */
  predicate WindowAt(x: int, u: int, v: int, r2: int, ulo: int, uhi: int, vlo: int, vhi: int) {
    Outside(Short(u - Offset(ulo, uhi, x)), Short(v - Offset(vlo, vhi, x)), r2)
  }

  lemma AnswerIs(words: seq<nat>, r2: int, du: seq<int>, dv: seq<int>, x: int, u: int, v: int,
                 ulo: int, uhi: int, vlo: int, vhi: int)
    requires Interpolated(du, ulo, uhi) && Interpolated(dv, vlo, vhi) && Loaded(words, r2, du, dv)
    requires -8 <= x <= 7 && -0x20 <= u < 0x20 && -0x20 <= v < 0x20
    ensures Answer(words, x, u, v) <==> WindowAt(x, u, v, r2, ulo, uhi, vlo, vhi)
  {
    WordOfSixReads(u, v);
    LoadedAt(words, r2, du, dv, WordOfSix(u, v), Cell(x), u, v);
    FiresInWindow(r2, du, dv, x, u, v, ulo, uhi, vlo, vhi);
  }

  lemma LoadedAt(words: seq<nat>, r2: int, du: seq<int>, dv: seq<int>, i: nat, j: nat, u: int, v: int)
    requires |du| == |dv| == 16 && Loaded(words, r2, du, dv) && i < 0x1000 && j < 16
    requires SignedSix(i % 0x40) == u && SignedSix(i / 0x40 % 0x40) == v
    ensures Bit(words[i], j) <==> FiresAt(u, v, r2, du, dv, j)
  {
  }

  lemma FiresInWindow(r2: int, du: seq<int>, dv: seq<int>, x: int, u: int, v: int,
                      ulo: int, uhi: int, vlo: int, vhi: int)
    requires Interpolated(du, ulo, uhi) && Interpolated(dv, vlo, vhi) && -8 <= x <= 7
    ensures FiresAt(u, v, r2, du, dv, Cell(x)) <==> WindowAt(x, u, v, r2, ulo, uhi, vlo, vhi)
  {
    assert du[Cell(x)] == Offset(ulo, uhi, x) && dv[Cell(x)] == Offset(vlo, vhi, x);
  }

  predicate TableForX(words: seq<nat>, r2: int, ulo: int, uhi: int, vlo: int, vhi: int) {
    |words| == 0x1000
    && forall x, u, v :: -8 <= x <= 7 && -0x20 <= u < 0x20 && -0x20 <= v < 0x20 ==>
         (Answer(words, x, u, v) <==> WindowAt(x, u, v, r2, ulo, uhi, vlo, vhi))
  }

  /** The whole loader: the answer for (x, u, v) is the window of radius `r` about the offsets at x. */
  method BuildTableX(r: int, ulo: int, uhi: int, vlo: int, vhi: int) returns (words: seq<nat>)
    ensures TableForX(words, r * r, ulo, uhi, vlo, vhi)
  {
    var r2 := r * r;
    var du := new int[16];
    var dv := new int[16];
    du[8], du[7], dv[8], dv[7] := ulo, uhi, vlo, vhi;
    Interpolate(du);
    Interpolate(dv);
    words := BuildWordsX(r2, du[..], dv[..]);
    forall x, u, v | -8 <= x <= 7 && -0x20 <= u < 0x20 && -0x20 <= v < 0x20
      ensures Answer(words, x, u, v) <==> WindowAt(x, u, v, r2, ulo, uhi, vlo, vhi)
    {
      AnswerIs(words, r2, du[..], dv[..], x, u, v, ulo, uhi, vlo, vhi);
    }
  }

  /** Offsets that leave room for every six-bit difference in a `short`. */
  predicate FitsShort(o: int) { -0x7FE0 <= o <= 0x7FE0 }

  predicate KeptByShort(d: int) { Short(d) == d }

  lemma ShortExactIff(o: int)
    ensures (forall d :: -0x20 - o <= d < 0x20 - o ==> KeptByShort(d)) <==> FitsShort(o)
  {
    if !FitsShort(o) {
      assert !KeptByShort(-0x20 - o) || !KeptByShort(0x1F - o);
    }
  }

  /** If all end points fit, the loader's window is the plain circle about the offsets at x. */
  lemma PlainWindow(x: int, u: int, v: int, r2: int, ulo: int, uhi: int, vlo: int, vhi: int)
    requires FitsShort(ulo) && FitsShort(uhi) && FitsShort(vlo) && FitsShort(vhi)
    requires -8 <= x <= 7 && -0x20 <= u < 0x20 && -0x20 <= v < 0x20
    ensures var a, b := u - Offset(ulo, uhi, x), v - Offset(vlo, vhi, x);
            WindowAt(x, u, v, r2, ulo, uhi, vlo, vhi) <==> a * a + b * b >= r2
  {
    OffsetMonotone(ulo, uhi, x, x);
    OffsetMonotone(vlo, vhi, x, x);
    ShortExactIff(Offset(ulo, uhi, x));
    ShortExactIff(Offset(vlo, vhi, x));
    assert KeptByShort(u - Offset(ulo, uhi, x)) && KeptByShort(v - Offset(vlo, vhi, x));
  }

  lemma AnswerIsCircle(words: seq<nat>, r2: int, x: int, u: int, v: int, ulo: int, uhi: int, vlo: int, vhi: int,
                       a: int, b: int)
    requires TableForX(words, r2, ulo, uhi, vlo, vhi)
    requires FitsShort(ulo) && FitsShort(uhi) && FitsShort(vlo) && FitsShort(vhi)
    requires -8 <= x <= 7 && -0x20 <= u < 0x20 && -0x20 <= v < 0x20
    requires a == u - Offset(ulo, uhi, x) && b == v - Offset(vlo, vhi, x)
    ensures Answer(words, x, u, v) <==> a * a + b * b >= r2
  {
    PlainWindow(x, u, v, r2, ulo, uhi, vlo, vhi);
  }

  /** In plain numbers: bit x (x + 16 if negative) of word u mod 64 + 64 (v mod 64) is 1 exactly when (u, v) is
      at least the radius away from the offsets at x. */
  lemma LookUpX(words: seq<nat>, r2: int, x: int, u: int, v: int, ulo: int, uhi: int, vlo: int, vhi: int,
                a: int, b: int)
    requires TableForX(words, r2, ulo, uhi, vlo, vhi)
    requires -32736 <= ulo <= 32736 && -32736 <= uhi <= 32736 && -32736 <= vlo <= 32736 && -32736 <= vhi <= 32736
    requires -8 <= x <= 7 && -32 <= u < 32 && -32 <= v < 32
    requires a == u - Offset(ulo, uhi, x) && b == v - Offset(vlo, vhi, x)
    ensures u % 64 + v % 64 * 64 < 4096
    ensures Bit(words[u % 64 + v % 64 * 64], if x < 0 then x + 16 else x) <==> a * a + b * b >= r2
  {
    AnswerIsCircle(words, r2, x, u, v, ulo, uhi, vlo, vhi, a, b);
    AnswerBit(words, x, u, v);
  }

  lemma AnswerBit(words: seq<nat>, x: int, u: int, v: int)
    requires |words| == 0x1000 && -8 <= x <= 7 && -0x20 <= u < 0x20 && -0x20 <= v < 0x20
    ensures u % 64 + v % 64 * 64 < 4096
    ensures Answer(words, x, u, v) <==> Bit(words[u % 64 + v % 64 * 64], if x < 0 then x + 16 else x)
  {
  }
}
