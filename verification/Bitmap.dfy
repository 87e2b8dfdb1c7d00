/** Setting and clearing a run of bits in an array of 64-bit words with a mask
    per word, against the plain sequence of bits. */
module Bitmap {

  const BITS_PER_LONG: nat := 64

  /** unsigned long */
  type Word = w: nat | w < 0x1_0000_0000_0000_0000
  const ONES: Word := 0xFFFF_FFFF_FFFF_FFFF

  predicate Bit(w: nat, k: nat) {
    if k == 0 then w % 2 == 1 else Bit(w / 2, k - 1)
  }

  // ----- The C operators on unsigned long -----

  function Or(x: nat, y: nat): nat {
    if x == 0 && y == 0 then 0 else (if x % 2 == 1 || y % 2 == 1 then 1 else 0) + 2 * Or(x / 2, y / 2)
  }

  function And(x: nat, y: nat): nat {
    if x == 0 || y == 0 then 0 else (if x % 2 == 1 && y % 2 == 1 then 1 else 0) + 2 * And(x / 2, y / 2)
  }

  /** ~x */
  function Not(x: Word): Word { ONES - x }

  /** x << k, dropping what leaves the word. */
  function Shl(x: Word, k: nat): Word {
    if k == 0 then x
    else
      var y := 2 * Shl(x, k - 1);
      if y >= 0x1_0000_0000_0000_0000 then y - 0x1_0000_0000_0000_0000 else y
  }

  /** BITMAP_FIRST_WORD_MASK(start) */
  function FirstWordMask(start: nat): Word {
    Shl(ONES, start % BITS_PER_LONG)
  }

  /** BITMAP_LAST_WORD_MASK(nbits) */
  function LastWordMask(nbits: nat): Word {
    var r := nbits % BITS_PER_LONG;
    if r != 0 && Shl(1, r) > 0 then Shl(1, r) - 1 else ONES
  }

  // ----- Bits of the results -----

  function Pow2(n: nat): (p: nat)
    ensures p > 0
  {
    if n == 0 then 1 else 2 * Pow2(n - 1)
  }

  lemma Pow64()
    ensures Pow2(64) == 0x1_0000_0000_0000_0000
  {
    assert Pow2(8) == 256;
    assert Pow2(16) == 65536;
    assert Pow2(24) == 0x100_0000;
    assert Pow2(32) == 0x1_0000_0000;
    assert Pow2(40) == 0x100_0000_0000;
    assert Pow2(48) == 0x1_0000_0000_0000;
    assert Pow2(56) == 0x100_0000_0000_0000;
  }

  lemma {:induction false} OrBit(x: nat, y: nat, k: nat)
    ensures Bit(Or(x, y), k) <==> Bit(x, k) || Bit(y, k)
  {
    if x == 0 && y == 0 {
      ZeroBit(k);
    } else if k > 0 {
      OrBit(x / 2, y / 2, k - 1);
    }
  }

  lemma {:induction false} AndBit(x: nat, y: nat, k: nat)
    ensures Bit(And(x, y), k) <==> Bit(x, k) && Bit(y, k)
  {
    if x == 0 || y == 0 {
      ZeroBit(k);
    } else if k > 0 {
      AndBit(x / 2, y / 2, k - 1);
    }
  }

  lemma {:induction false} ZeroBit(k: nat)
    ensures !Bit(0, k)
  {
    if k > 0 { ZeroBit(k - 1); }
  }

  lemma {:induction false} OrFits(x: nat, y: nat, n: nat)
    requires x < Pow2(n) && y < Pow2(n)
    ensures Or(x, y) < Pow2(n)
  {
    if n > 0 && !(x == 0 && y == 0) { OrFits(x / 2, y / 2, n - 1); }
  }

  lemma {:induction false} AndFits(x: nat, y: nat)
    ensures And(x, y) <= x && And(x, y) <= y
  {
    if x != 0 && y != 0 { AndFits(x / 2, y / 2); }
  }

  lemma {:induction false} NotBit(m: nat, n: nat, k: nat)
    requires m < Pow2(n) && k < n
    ensures Bit(Pow2(n) - 1 - m, k) <==> !Bit(m, k)
  {
    assert Pow2(n) == 2 * Pow2(n - 1);
    if k > 0 {
      NotBit(m / 2, n - 1, k - 1);
      assert (Pow2(n) - 1 - m) / 2 == Pow2(n - 1) - 1 - m / 2;
    }
  }

  /** (1ul << k) - 1 has exactly the bits below k. */
  lemma {:induction false} BelowBits(k: nat, j: nat)
    ensures Bit(Pow2(k) - 1, j) <==> j < k
  {
    if k == 0 {
      ZeroBit(j);
    } else {
      assert Pow2(k) - 1 == 1 + 2 * (Pow2(k - 1) - 1);
      if j > 0 { BelowBits(k - 1, j - 1); }
    }
  }

  /** ~0ul << k has exactly the bits from k up. */
  lemma {:induction false} AboveBits(n: nat, k: nat, j: nat)
    requires k <= n
    ensures Pow2(n) >= Pow2(k) && (Bit(Pow2(n) - Pow2(k), j) <==> k <= j < n)
  {
    if k == 0 {
      BelowBits(n, j);
    } else if j == 0 {
      AboveBits(n - 1, k - 1, 0);
    } else {
      AboveBits(n - 1, k - 1, j - 1);
      assert (Pow2(n) - Pow2(k)) / 2 == Pow2(n - 1) - Pow2(k - 1);
    }
  }

  lemma {:induction false} ShiftedOnes(k: nat)
    requires k <= 64
    ensures Pow2(k) <= Pow2(64) && Shl(ONES, k) == Pow2(64) - Pow2(k)
  {
    Pow64();
    if k > 0 {
      ShiftedOnes(k - 1);
      AboveBits(64, k, 0);
    }
  }

  lemma {:induction false} ShiftedOne(k: nat)
    requires k < 64
    ensures Shl(1, k) == Pow2(k)
  {
    Pow64();
    if k > 0 {
      ShiftedOne(k - 1);
      PowLess(k, 64);
    }
  }

  lemma {:induction false} PowLess(a: nat, b: nat)
    requires a < b
    ensures Pow2(a) < Pow2(b)
  {
    if a < b - 1 { PowLess(a, b - 1); }
  }

  /** The first mask and the last. */
  lemma FirstMaskBit(lo: nat, j: nat)
    requires lo < 64 && j < 64
    ensures Bit(Shl(ONES, lo), j) <==> lo <= j
  {
    ShiftedOnes(lo);
    AboveBits(64, lo, j);
  }

  lemma LastMaskBit(size: nat, j: nat)
    requires j < 64
    ensures Bit(LastWordMask(size), j) <==> j < if size % 64 == 0 then 64 else size % 64
  {
    if size % 64 == 0 {
      FirstMaskBit(0, j);
    } else {
      ShiftedOne(size % 64);
      BelowBits(size % 64, j);
    }
  }

  // ----- The map -----

  predicate BitAt(ws: seq<Word>, b: nat)
    requires b < 64 * |ws|
  {
    Bit(ws[b / 64], b % 64)
  }

  /** ws' is ws with the bits of [from, to) set to v and no other bit changed. */
  ghost predicate RunSet(ws: seq<Word>, ws': seq<Word>, from: int, to: int, v: bool) {
    && |ws'| == |ws|
    && forall b: nat :: b < 64 * |ws| ==> BitAt(ws', b) == if from <= b < to then v else BitAt(ws, b)
  }

  ghost predicate MaskIs(mask: Word, lo: nat, hi: nat) {
    forall j: nat :: j < 64 ==> (Bit(mask, j) <==> lo <= j < hi)
  }

  function OrWord(x: Word, y: Word): Word {
    Pow64();
    OrFits(x, y, 64);
    Or(x, y)
  }

  function AndWord(x: Word, y: Word): Word {
    AndFits(x, y);
    And(x, y)
  }

  /** The run grows by the bits [lo, hi) of word p. */
  lemma RunGrows(ws: seq<Word>, cur: seq<Word>, p: nat, mask: Word, lo: nat, hi: nat, from: int, v: bool)
    requires |cur| == |ws| && p < |ws| && lo <= hi <= 64 && MaskIs(mask, lo, hi)
    requires 64 * p + lo == from || (lo == 0 && from <= 64 * p)
    requires RunSet(ws, cur, from, 64 * p + lo, v)
    ensures RunSet(ws, cur[p := if v then OrWord(cur[p], mask) else AndWord(cur[p], Not(mask))], from, 64 * p + hi, v)
  {
    var next := cur[p := if v then OrWord(cur[p], mask) else AndWord(cur[p], Not(mask))];
    forall b: nat | b < 64 * |ws|
      ensures BitAt(next, b) == if from <= b < 64 * p + hi then v else BitAt(ws, b)
    {
      assert BitAt(cur, b) == if from <= b < 64 * p + lo then v else BitAt(ws, b);
      if b / 64 == p {
        var j := b % 64;
        assert Bit(mask, j) <==> lo <= j < hi;
        OrBit(cur[p], mask, j);
        Pow64();
        NotBit(mask, 64, j);
        AndBit(cur[p], Not(mask), j);
      }
    }
  }

  lemma MaskOfFirst(lo: nat)
    requires lo < 64
    ensures MaskIs(Shl(ONES, lo), lo, 64)
  {
    forall j: nat | j < 64 ensures Bit(Shl(ONES, lo), j) <==> lo <= j { FirstMaskBit(lo, j); }
  }

  lemma FullMask()
    ensures MaskIs(ONES, 0, 64)
  {
    MaskOfFirst(0);
  }

  lemma MaskOfLast(mask: Word, lo: nat, size: nat)
    requires lo < 64 && size % 64 != 0 && MaskIs(mask, lo, 64)
    ensures MaskIs(AndWord(mask, LastWordMask(size)), lo, size % 64)
  {
    var cut := AndWord(mask, LastWordMask(size));
    forall j: nat | j < 64 ensures Bit(cut, j) <==> lo <= j < size % 64 {
      assert Bit(mask, j) <==> lo <= j;
      LastMaskBit(size, j);
      AndBit(mask, LastWordMask(size), j);
    }
  }

  /** Where a run ends inside word p. */
  lemma LastWord(p: nat, lo: nat, left: nat, size: nat)
    requires 64 * p + lo + left == size && lo + left < 64 && left > 0
    ensures size % 64 == lo + left && size % 64 != 0
  {}

  /** *p |= mask on word p. */
  method OrInto(
    words: array<Word>, p: nat, mask: Word, ghost ws: seq<Word>, ghost lo: nat, ghost hi: nat, ghost from: int)
    requires words.Length == |ws| && p < |ws| && lo <= hi <= 64 && MaskIs(mask, lo, hi)
    requires 64 * p + lo == from || (lo == 0 && from <= 64 * p)
    requires RunSet(ws, words[..], from, 64 * p + lo, true)
    modifies words
    ensures RunSet(ws, words[..], from, 64 * p + hi, true)
  {
    RunGrows(ws, words[..], p, mask, lo, hi, from, true);
    ghost var next := words[..][p := OrWord(words[p], mask)];
    words[p] := OrWord(words[p], mask);
    assert words[..] == next;
  }

  /** *p &= ~mask on word p. */
  method AndNotInto(
    words: array<Word>, p: nat, mask: Word, ghost ws: seq<Word>, ghost lo: nat, ghost hi: nat, ghost from: int)
    requires words.Length == |ws| && p < |ws| && lo <= hi <= 64 && MaskIs(mask, lo, hi)
    requires 64 * p + lo == from || (lo == 0 && from <= 64 * p)
    requires RunSet(ws, words[..], from, 64 * p + lo, false)
    modifies words
    ensures RunSet(ws, words[..], from, 64 * p + hi, false)
  {
    RunGrows(ws, words[..], p, mask, lo, hi, from, false);
    ghost var next := words[..][p := AndWord(words[p], Not(mask))];
    words[p] := AndWord(words[p], Not(mask));
    assert words[..] == next;
  }

  method BitmapSet(words: array<Word>, start: nat, nr: nat)
    requires start + nr <= 64 * words.Length
    modifies words
    ensures RunSet(old(words[..]), words[..], start, start + nr, true)
  {
    ghost var ws := words[..];
    var p := start / BITS_PER_LONG;
    var size := start + nr;
    var left := nr;
    var bits := BITS_PER_LONG - start % BITS_PER_LONG;
    var mask := FirstWordMask(start);
    MaskOfFirst(start % 64);
    while left >= bits
      invariant 0 <= left <= nr && 1 <= bits <= 64
      invariant 64 * p + 64 - bits == size - left
      invariant 64 * p + 64 - bits == start || bits == 64
      invariant MaskIs(mask, 64 - bits, 64)
      invariant RunSet(ws, words[..], start, size - left, true)
    {
      OrInto(words, p, mask, ws, 64 - bits, 64, start);
      left := left - bits;
      bits := BITS_PER_LONG;
      mask := ONES;
      FullMask();
      p := p + 1;
    }
    if left != 0 {
      LastWord(p, 64 - bits, left, size);
      MaskOfLast(mask, 64 - bits, size);
      mask := AndWord(mask, LastWordMask(size));
      OrInto(words, p, mask, ws, 64 - bits, size % 64, start);
    }
  }

  method BitmapClear(words: array<Word>, start: nat, nr: nat)
    requires start + nr <= 64 * words.Length
    modifies words
    ensures RunSet(old(words[..]), words[..], start, start + nr, false)
  {
    ghost var ws := words[..];
    var p := start / BITS_PER_LONG;
    var size := start + nr;
    var left := nr;
    var bits := BITS_PER_LONG - start % BITS_PER_LONG;
    var mask := FirstWordMask(start);
    MaskOfFirst(start % 64);
    while left >= bits
      invariant 0 <= left <= nr && 1 <= bits <= 64
      invariant 64 * p + 64 - bits == size - left
      invariant 64 * p + 64 - bits == start || bits == 64
      invariant MaskIs(mask, 64 - bits, 64)
      invariant RunSet(ws, words[..], start, size - left, false)
    {
      AndNotInto(words, p, mask, ws, 64 - bits, 64, start);
      left := left - bits;
      bits := BITS_PER_LONG;
      mask := ONES;
      FullMask();
      p := p + 1;
    }
    if left != 0 {
      LastWord(p, 64 - bits, left, size);
      MaskOfLast(mask, 64 - bits, size);
      mask := AndWord(mask, LastWordMask(size));
      AndNotInto(words, p, mask, ws, 64 - bits, size % 64, start);
    }
  }

  lemma {:induction false} SameBitsSameWord(x: nat, y: nat, n: nat)
    requires x < Pow2(n) && y < Pow2(n) && forall k: nat :: k < n ==> (Bit(x, k) <==> Bit(y, k))
    ensures x == y
  {
    if n > 0 {
      forall k: nat | k < n - 1 ensures Bit(x / 2, k) <==> Bit(y / 2, k) {
        assert Bit(x, k + 1) <==> Bit(y, k + 1);
      }
      SameBitsSameWord(x / 2, y / 2, n - 1);
      assert Bit(x, 0) <==> Bit(y, 0);
    }
  }

  lemma SameBitsSameWords(xs: seq<Word>, ys: seq<Word>)
    requires |xs| == |ys| && forall b: nat :: b < 64 * |xs| ==> BitAt(xs, b) == BitAt(ys, b)
    ensures xs == ys
  {
    Pow64();
    forall i | 0 <= i < |xs| ensures xs[i] == ys[i] {
      forall k: nat | k < 64 ensures Bit(xs[i], k) <==> Bit(ys[i], k) {
        var b := 64 * i + k;
        assert BitAt(xs, b) == BitAt(ys, b);
        assert b / 64 == i && b % 64 == k;
      }
      SameBitsSameWord(xs[i], ys[i], 64);
    }
  }

  /** The result of a call is the only map that answers its contract. */
  lemma RunSetUnique(ws: seq<Word>, xs: seq<Word>, ys: seq<Word>, from: int, to: int, v: bool)
    requires RunSet(ws, xs, from, to, v) && RunSet(ws, ys, from, to, v)
    ensures xs == ys
  {
    forall b: nat | b < 64 * |xs| ensures BitAt(xs, b) == BitAt(ys, b) {
      assert BitAt(xs, b) == if from <= b < to then v else BitAt(ws, b);
    }
    SameBitsSameWords(xs, ys);
  }

  /** Writing v over a run and then its opposite gives the first map back, word for
      word, exactly when the run held the opposite throughout. */
  lemma UndoneExactly(ws: seq<Word>, mid: seq<Word>, last: seq<Word>, from: nat, to: nat, v: bool)
    requires to <= 64 * |ws| && RunSet(ws, mid, from, to, v) && RunSet(mid, last, from, to, !v)
    ensures last == ws <==> forall b: nat :: from <= b < to ==> BitAt(ws, b) == !v
  {
    if forall b: nat :: from <= b < to ==> BitAt(ws, b) == !v {
      forall b: nat | b < 64 * |ws| ensures BitAt(last, b) == BitAt(ws, b) {
        assert BitAt(last, b) == if from <= b < to then !v else BitAt(mid, b);
        assert BitAt(mid, b) == if from <= b < to then v else BitAt(ws, b);
      }
      SameBitsSameWords(last, ws);
    }
  }
}
