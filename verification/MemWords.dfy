/**
  Machine words as little-endian groups of bytes: the shifts, masks and re-laning that
  prover/guest_common/src/mem_builtins.cpp does on whole words, lane by lane, with the
  numeric meaning of each.
  */
module MemWords {
  import opened Basics
  import opened Bytes

  /** 8 bytes on SP1 (rv64im), 4 on Airbender (rv32im). */
  type WordSize = w: nat | w == 4 || w == 8 witness 4

  type Word = seq<byte>

  /** The bytes of a number of words; the address of a word index. */
  function Size(words: int, w: WordSize): int {
    if w == 4 then 4 * words else 8 * words
  }

  /** Whole words in `n` bytes. */
  function WordsIn(n: nat, w: WordSize): (k: nat)
    ensures Size(k, w) <= n < Size(k, w) + w
  {
    if w == 4 then n / 4 else n / 8
  }

  /** An address or a length modulo the word size. */
  function Phase(a: nat, w: WordSize): (p: nat)
    ensures p < w && a == Size(WordsIn(a, w), w) + p
  {
    if w == 4 then a % 4 else a % 8
  }

  /** Words in 32 bytes. */
  function N32(w: WordSize): (k: nat)
    ensures Size(k, w) == 32
  {
    if w == 4 then 8 else 4
  }

  // ---------- Lanes ----------

  function Pow2(n: nat): (p: nat)
    ensures p >= 1
  {
    if n == 0 then 1 else 2 * Pow2(n - 1)
  }

  /** Bitwise or of two `n`-bit numbers. */
  function OrBits(x: nat, y: nat, n: nat): (r: nat)
    requires x < Pow2(n) && y < Pow2(n)
    ensures r < Pow2(n)
    ensures (y == 0 ==> r == x) && (x == 0 ==> r == y)
  {
    if n == 0 then 0
    else 2 * OrBits(x / 2, y / 2, n - 1) + (if x % 2 == 1 || y % 2 == 1 then 1 else 0)
  }

  /** Bitwise and of two `n`-bit numbers. */
  function AndBits(x: nat, y: nat, n: nat): (r: nat)
    requires x < Pow2(n) && y < Pow2(n)
    ensures r < Pow2(n)
    ensures (y == 0 ==> r == 0) && (y == Pow2(n) - 1 ==> r == x)
  {
    if n == 0 then 0
    else 2 * AndBits(x / 2, y / 2, n - 1) + (if x % 2 == 1 && y % 2 == 1 then 1 else 0)
  }

  lemma ByteBits()
    ensures Pow2(8) == 256
  {
    assert Pow2(4) == 16;
    assert Pow2(6) == 64;
  }

  function OrByte(x: byte, y: byte): (r: byte)
    ensures (y == 0 ==> r == x) && (x == 0 ==> r == y)
  {
    ByteBits();
    OrBits(x, y, 8)
  }

  function AndByte(x: byte, y: byte): (r: byte)
    ensures (y == 255 ==> r == x) && (y == 0 ==> r == 0)
  {
    ByteBits();
    AndBits(x, y, 8)
  }

  function Repeat(b: byte, k: nat): (r: Word)
    ensures |r| == k && forall i :: 0 <= i < k ==> r[i] == b
  {
    seq(k, _ => b)
  }

  function Or(x: Word, y: Word): (r: Word)
    requires |x| == |y|
    ensures |r| == |x|
  {
    seq(|x|, i requires 0 <= i < |x| => OrByte(x[i], y[i]))
  }

  function And(x: Word, y: Word): (r: Word)
    requires |x| == |y|
    ensures |r| == |x|
  {
    seq(|x|, i requires 0 <= i < |x| => AndByte(x[i], y[i]))
  }

  function Not(x: Word): (r: Word)
    ensures |r| == |x|
  {
    seq(|x|, i requires 0 <= i < |x| => 255 - x[i])
  }

  /** `x >> 8k`. */
  function ShiftDown(x: Word, k: nat): (r: Word)
    requires k <= |x|
    ensures |r| == |x|
  {
    x[k..] + Repeat(0, k)
  }

  /** `x << 8k`. */
  function ShiftUp(x: Word, k: nat): (r: Word)
    requires k <= |x|
    ensures |r| == |x|
  {
    Repeat(0, k) + x[..|x| - k]
  }

  /** `(1 << 8k) - 1`. */
  function LowMask(k: nat, w: WordSize): (r: Word)
    requires k <= w
    ensures |r| == w
  {
    Repeat(255, k) + Repeat(0, w - k)
  }

  // ---------- What the combinations do ----------

  /** Two neighbouring words re-laned: the bytes from `k` on, running into the next word. */
  lemma Relane(a: Word, b: Word, k: nat)
    requires |a| == |b| && k <= |a|
    ensures Or(ShiftDown(a, k), ShiftUp(b, |a| - k)) == a[k..] + b[..k]
  {
  }

  /** A masked write of the low `k` lanes. */
  lemma BlendLow(x: Word, v: Word, k: nat, w: WordSize)
    requires |x| == |v| == w && k <= w
    ensures Or(And(x, Not(LowMask(k, w))), And(v, LowMask(k, w))) == v[..k] + x[k..]
  {
  }

  /** A masked write of the lanes from `k` up, of a value not shifted. */
  lemma BlendHigh(x: Word, v: Word, k: nat, w: WordSize)
    requires |x| == |v| == w && k <= w
    ensures var mask := ShiftUp(Repeat(255, w), k);
            Or(And(x, Not(mask)), And(v, mask)) == x[..k] + v[k..]
  {
  }

  /** A masked write of the lanes from `k` up, of a value shifted there. */
  lemma BlendShifted(x: Word, v: Word, k: nat, w: WordSize)
    requires |x| == |v| == w && k <= w
    ensures var mask := ShiftUp(Repeat(255, w), k);
            Or(And(x, Not(mask)), ShiftUp(v, k)) == x[..k] + v[..w - k]
  {
  }

  /** A masked write of the low `k` lanes, of the high lanes of a value. */
  lemma BlendTail(x: Word, v: Word, k: nat, w: WordSize)
    requires |x| == |v| == w && k <= w
    ensures var mask := ShiftUp(Repeat(255, w), k);
            Or(And(x, mask), ShiftDown(v, w - k)) == v[w - k..] + x[k..]
  {
  }

  // ---------- Numeric meaning ----------

  lemma Associate(a: nat, b: nat, c: nat)
    ensures a * (b * c) == (a * b) * c
  {
  }

  lemma Distribute(a: nat, b: nat, c: nat, d: nat)
    ensures (a + b * c) * d == d * a + (d * b) * c
  {
    Associate(d, b, c);
  }

  lemma {:induction false} ValueOfConcat(x: Word, y: Word)
    ensures FromLe(x + y) == FromLe(x) + Pow256(|x|) * FromLe(y)
  {
    if x == [] {
      assert x + y == y;
    } else {
      assert (x + y)[1..] == x[1..] + y;
      ValueOfConcat(x[1..], y);
      Associate(256, Pow256(|x| - 1), FromLe(y));
    }
  }

  lemma {:induction false} ValueOfZeros(k: nat)
    ensures FromLe(Repeat(0, k)) == 0
  {
    if k > 0 {
      assert Repeat(0, k)[1..] == Repeat(0, k - 1);
      ValueOfZeros(k - 1);
    }
  }

  /** The lane shift down is the numeric shift right. */
  lemma ShiftDownIsDivision(x: Word, k: nat)
    requires k <= |x|
    ensures FromLe(ShiftDown(x, k)) == FromLe(x) / Pow256(k)
  {
    ValueOfConcat(x[k..], Repeat(0, k));
    ValueOfZeros(k);
    ValueOfSplit(x, k);
    QuotientRemainder(FromLe(x), Pow256(k), FromLe(x[k..]), FromLe(x[..k]));
  }

  lemma ValueOfSplit(x: Word, k: nat)
    requires k <= |x|
    ensures FromLe(x) == FromLe(x[..k]) + Pow256(k) * FromLe(x[k..])
  {
    assert x[..k] + x[k..] == x;
    ValueOfConcat(x[..k], x[k..]);
  }

  lemma ValueOfShiftUp(x: Word, k: nat)
    requires k <= |x|
    ensures FromLe(ShiftUp(x, k)) == Pow256(k) * FromLe(x[..|x| - k])
  {
    ValueOfConcat(Repeat(0, k), x[..|x| - k]);
    ValueOfZeros(k);
  }

  /** The lane shift up is the numeric shift left: what leaves the word is a multiple of its range. */
  lemma ShiftUpIsProduct(x: Word, k: nat)
    requires k <= |x|
    ensures FromLe(x) * Pow256(k) == FromLe(ShiftUp(x, k)) + Pow256(|x|) * FromLe(x[|x| - k..])
  {
    ValueOfSplit(x, |x| - k);
    PowersAdd(k, |x| - k);
    ValueOfShiftUp(x, k);
    ShiftUpNumbers(FromLe(x), FromLe(x[..|x| - k]), Pow256(|x| - k), FromLe(x[|x| - k..]),
                   Pow256(k), Pow256(|x|), FromLe(ShiftUp(x, k)));
  }

  lemma ShiftUpNumbers(v: nat, low: nat, p: nat, high: nat, pk: nat, whole: nat, shifted: nat)
    requires v == low + p * high && pk * p == whole && shifted == pk * low
    ensures v * pk == shifted + whole * high
  {
    Distribute(low, p, high, pk);
  }

  lemma {:induction false} PowersAdd(a: nat, b: nat)
    ensures Pow256(a) * Pow256(b) == Pow256(a + b)
  {
    if a > 0 { PowersAdd(a - 1, b); }
  }

  /** The mask of the low lanes is one less than a power. */
  lemma {:induction false} OnesValue(k: nat)
    ensures FromLe(Repeat(255, k)) == Pow256(k) - 1
  {
    if k > 0 {
      assert Repeat(255, k)[1..] == Repeat(255, k - 1);
      OnesValue(k - 1);
    }
  }

  lemma TimesNothing(a: nat, b: nat)
    requires b == 0
    ensures a * b == 0
  {
  }

  lemma LowMaskValue(k: nat, w: WordSize)
    requires k <= w
    ensures FromLe(LowMask(k, w)) == Pow256(k) - 1
  {
    hide FromLe, Pow256, Repeat;
    ValueOfZeros(w - k);
    ValueOfConcat(Repeat(255, k), Repeat(0, w - k));
    TimesNothing(Pow256(k), FromLe(Repeat(0, w - k)));
    OnesValue(k);
  }

  /** A byte repeated across a word is the byte times 0x01..01, the word of ones over 0xff. */
  lemma {:induction false} RepeatValue(c: byte, k: nat)
    ensures 255 * FromLe(Repeat(c, k)) == c * FromLe(Repeat(255, k))
  {
    if k > 0 {
      assert Repeat(255, k)[1..] == Repeat(255, k - 1);
      assert Repeat(c, k)[1..] == Repeat(c, k - 1);
      RepeatValue(c, k - 1);
      RepeatStep(c, FromLe(Repeat(c, k - 1)), FromLe(Repeat(255, k - 1)));
    }
  }

  lemma RepeatStep(c: nat, x: nat, y: nat)
    requires 255 * x == c * y
    ensures 255 * (c + 256 * x) == c * (255 + 256 * y)
  {
  }
}
