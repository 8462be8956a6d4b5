/**
  The word-parallel count of non-zero bytes (zilk_core/core/common_zz/data_byte_count.hpp), for
  both word widths. Bitwise operations act lane by lane; sums, products and the shift by seven act
  on the whole word as a number and wrap.
  */
module ByteCount {
  import opened Basics
  import opened Bytes
  import opened MemWords
  import H = HashIndex

  /** The scalar count. */
  function NonZero(s: seq<byte>): (n: nat)
    ensures n <= |s|
  {
    if s == [] then 0 else (if s[0] != 0 then 1 else 0) + NonZero(s[1..])
  }

  lemma {:induction false} NonZeroConcat(a: seq<byte>, b: seq<byte>)
    ensures NonZero(a + b) == NonZero(a) + NonZero(b)
  {
    if a == [] {
      assert a + b == b;
    } else {
      assert (a + b)[1..] == a[1..] + b;
      NonZeroConcat(a[1..], b);
    }
  }

  // ---------- Bits of a lane ----------

  lemma {:induction false} AndLow(x: nat, k: nat, n: nat)
    requires k <= n && x < Pow2(n)
    ensures Pow2(k) <= Pow2(n) && AndBits(x, Pow2(k) - 1, n) == x % Pow2(k)
  {
    if k == 0 {
    } else {
      AndLow(x / 2, k - 1, n - 1);
      H.HalveModulo(x, Pow2(k - 1));
      assert (Pow2(k) - 1) / 2 == Pow2(k - 1) - 1 && (Pow2(k) - 1) % 2 == 1;
    }
  }

  lemma {:induction false} AndHigh(x: nat, n: nat)
    requires 0 < n && x < Pow2(n)
    ensures AndBits(x, Pow2(n - 1), n) == if x >= Pow2(n - 1) then Pow2(n - 1) else 0
  {
    if n > 1 { AndHigh(x / 2, n - 1); }
  }

  lemma {:induction false} OrHigh(x: nat, y: nat, n: nat)
    requires 0 < n && x < Pow2(n) && y < Pow2(n)
    ensures OrBits(x, y, n) >= Pow2(n - 1) <==> x >= Pow2(n - 1) || y >= Pow2(n - 1)
  {
    if n > 1 { OrHigh(x / 2, y / 2, n - 1); }
  }

  lemma LaneBits(x: byte, y: byte)
    ensures AndByte(x, 127) == x % 128
    ensures AndByte(x, 128) == if x >= 128 then 128 else 0
    ensures OrByte(x, y) >= 128 <==> x >= 128 || y >= 128
  {
    hide AndBits, OrBits;
    ByteBits();
    assert Pow2(7) == 128;
    AndLow(x, 7, 8);
    AndHigh(x, 8);
    OrHigh(x, y, 8);
  }

  // ---------- Whole-word arithmetic ----------

  /** The sum of two words, wrapping. */
  function AddWords(x: Word, y: Word): (r: Word)
    requires |x| == |y|
    ensures |r| == |x|
  {
    Le(FromLe(x) + FromLe(y), |x|)
  }

  /** Where no lane overflows, the sum does not carry across lanes. */
  lemma {:induction false} AddLanes(x: Word, y: Word)
    requires |x| == |y| && forall i :: 0 <= i < |x| ==> (x[i] as int) + y[i] < 256
    ensures forall i :: 0 <= i < |x| ==> AddWords(x, y)[i] == x[i] + y[i]
  {
    if x != [] {
      AddLanes(x[1..], y[1..]);
      var v := FromLe(x) + FromLe(y);
      assert v % 256 == x[0] + y[0] && v / 256 == FromLe(x[1..]) + FromLe(y[1..]);
      assert AddWords(x, y) == [x[0] + y[0]] + AddWords(x[1..], y[1..]);
    }
  }

  /** `x >> 7`. */
  function ShiftSeven(x: Word): (r: Word)
    ensures |r| == |x|
  {
    Le(FromLe(x) / 128, |x|)
  }

  /** With nothing but top bits set, the shift moves each to the bottom of its lane. */
  lemma {:induction false} ShiftLanes(x: Word)
    requires forall i :: 0 <= i < |x| ==> x[i] == 0 || x[i] == 128
    ensures FromLe(x) % 128 == 0
    ensures forall i :: 0 <= i < |x| ==> ShiftSeven(x)[i] == if x[i] == 128 then 1 else 0
  {
    if x != [] {
      ShiftLanes(x[1..]);
      var v, rest := FromLe(x), FromLe(x[1..]);
      var bit := if x[0] == 128 then 1 else 0;
      assert v / 128 == bit + 256 * (rest / 128);
      assert ShiftSeven(x) == [bit] + ShiftSeven(x[1..]);
    }
  }

  /** `((((w & 0x7F..) + 0x7F..) | w) & ~0x7F..) >> 7`. */
  function Flags(w: Word): (r: Word)
    ensures |r| == |w|
  {
    var low := Repeat(127, |w|);
    ShiftSeven(And(Or(AddWords(And(w, low), low), w), Not(low)))
  }

  /** Each lane's flag says whether its byte is non-zero. */
  lemma FlagsAre(w: Word)
    ensures forall i :: 0 <= i < |w| ==> Flags(w)[i] == if w[i] != 0 then 1 else 0
  {
    hide AddWords, ShiftSeven, AndByte, OrByte;
    var low := Repeat(127, |w|);
    var x := And(w, low);
    forall i | 0 <= i < |w|
      ensures x[i] == w[i] % 128
    {
      LaneBits(w[i], 0);
    }
    AddLanes(x, low);
    var y := AddWords(x, low);
    var z := And(Or(y, w), Not(low));
    forall i | 0 <= i < |w|
      ensures z[i] == if w[i] != 0 then 128 else 0
    {
      LaneBits(y[i], w[i]);
      LaneBits(OrByte(y[i], w[i]), 0);
    }
    ShiftLanes(z);
  }

  function Sum(x: Word): nat {
    if x == [] then 0 else x[0] + Sum(x[1..])
  }

  lemma {:induction false} SumOfFlags(w: seq<byte>, flags: Word)
    requires |flags| == |w| && forall i :: 0 <= i < |w| ==> flags[i] == if w[i] != 0 then 1 else 0
    ensures Sum(flags) == NonZero(w)
  {
    if w != [] { SumOfFlags(w[1..], flags[1..]); }
  }

  lemma {:induction false} SumAdds(x: Word, y: Word, z: Word)
    requires |x| == |y| == |z| && forall i :: 0 <= i < |x| ==> z[i] == (x[i] as int) + y[i]
    ensures Sum(z) == Sum(x) + Sum(y)
  {
    if x != [] { SumAdds(x[1..], y[1..], z[1..]); }
  }

  // ---------- Summing the lanes ----------

  function EvenMask(w: WordSize): (r: Word)
    ensures |r| == w
  {
    if w == 4 then [255, 0, 255, 0] else [255, 0, 255, 0, 255, 0, 255, 0]
  }

  const ONES4: nat := 0x1_0001
  const ONES8: nat := 0x1_0001_0001_0001

  /** The lanes summed pairwise, then by a multiplication whose top sixteen bits are the total. */
  function LaneTotal(acc: Word, w: WordSize): nat
    requires |acc| == w
  {
    var pairs := FromLe(AddWords(And(acc, EvenMask(w)), And(ShiftDown(acc, 1), EvenMask(w))));
    if w == 4 then Fold4(pairs) else Fold8(pairs)
  }

  /** The wrapping product with 0x0001..0001, shifted down to its top sixteen bits. */
  function Fold4(pairs: nat): nat { (pairs * ONES4) % U32 / 0x1_0000 }
  function Fold8(pairs: nat): nat { (pairs * ONES8) % U64 / 0x1_0000_0000_0000 }

  lemma ValueStep(x: Word, k: nat)
    requires k < |x|
    ensures FromLe(x[k..]) == x[k] + 256 * FromLe(x[k + 1..])
  {
    assert x[k..][1..] == x[k + 1..];
  }

  lemma Value4(x: Word)
    requires |x| == 4
    ensures FromLe(x) == x[0] + 0x100 * (x[1] as int) + 0x1_0000 * (x[2] as int) + 0x100_0000 * (x[3] as int)
  {
    assert x[0..] == x && x[4..] == [];
    ValueStep(x, 0);
    ValueStep(x, 1);
    ValueStep(x, 2);
    ValueStep(x, 3);
  }

  lemma Value8(x: Word)
    requires |x| == 8
    ensures FromLe(x) == FromLe(x[..4]) + U32 * FromLe(x[4..])
  {
    ValueOfSplit(x, 4);
    PowersOfWidths();
  }

  /** Even lanes kept, odd lanes cleared. */
  lemma EvenLanes(x: Word, w: WordSize)
    requires |x| == w
    ensures forall i :: 0 <= i < w ==> And(x, EvenMask(w))[i] == if i % 2 == 0 then x[i] else 0
  {
    hide AndBits;
  }

  lemma Product4(a: nat, b: nat)
    requires a <= 510 && b <= 510
    ensures Fold4(a + 0x1_0000 * b) == a + b
  {
    var low := a + 0x1_0000 * (a + b);
    QuotientRemainder((a + 0x1_0000 * b) * ONES4, U32, b, low);
    QuotientRemainder(low, 0x1_0000, a + b, a);
  }

  lemma Product8(a: nat, b: nat, c: nat, d: nat)
    requires a <= 510 && b <= 510 && c <= 510 && d <= 510
    ensures Fold8(a + 0x1_0000 * b + 0x1_0000_0000 * c + 0x1_0000_0000_0000 * d) == a + b + c + d
  {
    var rest := a + 0x1_0000 * (a + b) + 0x1_0000_0000 * (a + b + c);
    var low := rest + 0x1_0000_0000_0000 * (a + b + c + d);
    var high := b + c + d + 0x1_0000 * (c + d) + 0x1_0000_0000 * d;
    QuotientRemainder((a + 0x1_0000 * b + 0x1_0000_0000 * c + 0x1_0000_0000_0000 * d) * ONES8, U64, high, low);
    QuotientRemainder(low, 0x1_0000_0000_0000, a + b + c + d, rest);
  }

  /** The sixteen-bit pairs of a word. */
  lemma Evens4(x: Word, a: byte, b: byte)
    requires |x| == 4 && x[0] == a && x[1] == 0 && x[2] == b && x[3] == 0
    ensures FromLe(x) == a + 0x1_0000 * (b as int)
  {
    hide FromLe;
    Value4(x);
  }

  lemma Evens8(x: Word, a: byte, b: byte, c: byte, d: byte)
    requires |x| == 8 && x[0] == a && x[2] == b && x[4] == c && x[6] == d && x[1] == 0 && x[3] == 0 && x[5] == 0 && x[7] == 0
    ensures FromLe(x) == a + 0x1_0000 * (b as int) + 0x1_0000_0000 * (c as int) + 0x1_0000_0000_0000 * (d as int)
  {
    hide FromLe;
    Value8(x);
    Evens4(x[..4], a, b);
    Evens4(x[4..], c, d);
  }

  lemma Sum4(x: Word)
    requires |x| == 4
    ensures Sum(x) == (x[0] as int) + x[1] + x[2] + x[3]
  {
    assert x[1..][1..] == x[2..] && x[2..][1..] == x[3..] && x[3..][1..] == [];
    assert Sum(x[3..]) == x[3];
    assert Sum(x[2..]) == (x[2] as int) + x[3];
  }

  lemma {:induction false} SumConcat(a: Word, b: Word)
    ensures Sum(a + b) == Sum(a) + Sum(b)
  {
    if a == [] {
      assert a + b == b;
    } else {
      assert (a + b)[1..] == a[1..] + b;
      SumConcat(a[1..], b);
    }
  }

  lemma ExactSum(x: Word, y: Word)
    requires |x| == |y| && FromLe(x) + FromLe(y) < Pow256(|x|)
    ensures FromLe(AddWords(x, y)) == FromLe(x) + FromLe(y)
  {
    hide FromLe, Le, Pow256;
    LeRoundTrip(FromLe(x) + FromLe(y), |x|);
  }

  lemma Pairs4(acc: Word)
    requires |acc| == 4
    ensures FromLe(AddWords(And(acc, EvenMask(4)), And(ShiftDown(acc, 1), EvenMask(4))))
            == (acc[0] as int) + acc[1] + 0x1_0000 * ((acc[2] as int) + acc[3])
  {
    hide FromLe, AndByte, And, AddWords, Pow256;
    var even, odd := And(acc, EvenMask(4)), And(ShiftDown(acc, 1), EvenMask(4));
    EvenLanes(acc, 4);
    EvenLanes(ShiftDown(acc, 1), 4);
    PowersOfWidths();
    Evens4(even, acc[0], acc[2]);
    Evens4(odd, acc[1], acc[3]);
    ExactSum(even, odd);
  }

  lemma Pairs8(acc: Word)
    requires |acc| == 8
    ensures FromLe(AddWords(And(acc, EvenMask(8)), And(ShiftDown(acc, 1), EvenMask(8))))
            == (acc[0] as int) + acc[1] + 0x1_0000 * ((acc[2] as int) + acc[3])
               + 0x1_0000_0000 * ((acc[4] as int) + acc[5]) + 0x1_0000_0000_0000 * ((acc[6] as int) + acc[7])
  {
    hide FromLe, AndByte, And, AddWords, Pow256;
    var even, odd := And(acc, EvenMask(8)), And(ShiftDown(acc, 1), EvenMask(8));
    EvenLanes(acc, 8);
    EvenLanes(ShiftDown(acc, 1), 8);
    PowersOfWidths();
    Evens8(even, acc[0], acc[2], acc[4], acc[6]);
    Evens8(odd, acc[1], acc[3], acc[5], acc[7]);
    ExactSum(even, odd);
  }

  lemma Sum8(x: Word)
    requires |x| == 8
    ensures Sum(x) == ((x[0] as int) + x[1]) + ((x[2] as int) + x[3]) + ((x[4] as int) + x[5]) + ((x[6] as int) + x[7])
  {
    hide Sum;
    assert x == x[..4] + x[4..];
    SumConcat(x[..4], x[4..]);
    Sum4(x[..4]);
    Sum4(x[4..]);
  }

  lemma Total4(pairs: nat, a: nat, b: nat)
    requires a <= 510 && b <= 510 && pairs == a + 0x1_0000 * b
    ensures Fold4(pairs) == a + b
  {
    hide Fold4;
    Product4(a, b);
  }

  lemma Total8(pairs: nat, a: nat, b: nat, c: nat, d: nat)
    requires a <= 510 && b <= 510 && c <= 510 && d <= 510
    requires pairs == a + 0x1_0000 * b + 0x1_0000_0000 * c + 0x1_0000_0000_0000 * d
    ensures Fold8(pairs) == a + b + c + d
  {
    hide Fold8;
    Product8(a, b, c, d);
  }

  /** The lane total is the sum of the lanes. */
  lemma LaneTotalIsSum(acc: Word, w: WordSize)
    requires |acc| == w
    ensures LaneTotal(acc, w) == Sum(acc)
  {
    hide FromLe, Sum, And, AddWords, EvenMask, ShiftDown, Fold4, Fold8, Pow256;
    var pairs := FromLe(AddWords(And(acc, EvenMask(w)), And(ShiftDown(acc, 1), EvenMask(w))));
    if w == 4 {
      Pairs4(acc);
      Total4(pairs, (acc[0] as int) + acc[1], (acc[2] as int) + acc[3]);
      Sum4(acc);
    } else {
      Pairs8(acc);
      Total8(pairs, (acc[0] as int) + acc[1], (acc[2] as int) + acc[3], (acc[4] as int) + acc[5], (acc[6] as int) + acc[7]);
      Sum8(acc);
    }
  }

  // ---------- The count ----------

  /** Up to 255 words from a boundary: each lane gains at most one for each word, so none overflows. */
  method CountWords(m: seq<byte>, p: nat, k: nat, w: WordSize) returns (n: nat)
    requires k <= 255 && p + Size(k, w) <= |m| && Phase(p, w) == 0
    ensures n == NonZero(m[p..p + Size(k, w)])
  {
    hide FromLe, AddWords, Flags, LaneTotal, Sum, NonZero;
    var acc: Word := Repeat(0, w);
    NothingYet(m, p, w);
    for i := 0 to k
      invariant |acc| == w && forall j :: 0 <= j < w ==> acc[j] <= i
      invariant Sum(acc) == NonZero(m[p..p + Size(i, w)])
    {
      var at := p + Size(i, w);
      var word := m[at..at + w];
      acc := AddFlags(acc, word, i, w);
      NonZeroConcat(m[p..at], word);
      assert m[p..at + w] == m[p..at] + word && at + w == p + Size(i + 1, w);
    }
    LaneTotalIsSum(acc, w);
    n := LaneTotal(acc, w);
  }

  /** One more word: its flags are added, unless it is zero. */
  method AddFlags(acc: Word, word: seq<byte>, i: nat, w: WordSize) returns (acc': Word)
    requires |acc| == |word| == w && i < 255 && forall j :: 0 <= j < w ==> acc[j] <= i
    ensures |acc'| == w && (forall j :: 0 <= j < w ==> acc'[j] <= i + 1) && Sum(acc') == Sum(acc) + NonZero(word)
  {
    hide FromLe, AddWords, Flags, LaneTotal, Sum, NonZero;
    if exists j :: 0 <= j < w && word[j] != 0 {
      FlagsAre(word);
      var flags := Flags(word);
      AddLanes(acc, flags);
      SumOfFlags(word, flags);
      SumAdds(acc, flags, AddWords(acc, flags));
      acc' := AddWords(acc, flags);
    } else {
      ZeroWord(word);
      acc' := acc;
    }
  }

  lemma NothingYet(m: seq<byte>, p: nat, w: WordSize)
    requires p <= |m|
    ensures Sum(Repeat(0, w)) == 0 && NonZero(m[p..p]) == 0
  {
    SumOfZeros(w);
  }

  lemma {:induction false} SumOfZeros(k: nat)
    ensures Sum(Repeat(0, k)) == 0
  {
    if k > 0 {
      assert Repeat(0, k)[1..] == Repeat(0, k - 1);
      SumOfZeros(k - 1);
    }
  }

  lemma {:induction false} ZeroWord(word: seq<byte>)
    requires forall j :: 0 <= j < |word| ==> word[j] == 0
    ensures NonZero(word) == 0
  {
    if word != [] { ZeroWord(word[1..]); }
  }

  /** One byte of the head or the tail. */
  lemma OneByte(m: seq<byte>, p0: nat, p: nat)
    requires p0 <= p < |m|
    ensures NonZero(m[p0..p + 1]) == NonZero(m[p0..p]) + if m[p] != 0 then 1 else 0
  {
    NonZeroConcat(m[p0..p], [m[p]]);
    assert m[p0..p + 1] == m[p0..p] + [m[p]];
  }

  lemma StillAligned(p: nat, k: nat, w: WordSize)
    requires Phase(p, w) == 0
    ensures Phase(p + Size(k, w), w) == 0
  {
  }

  /** `count_nonzero_bytes_words`: the scalar count, for every view, alignment and word width. */
  method CountNonZero(m: seq<byte>, p0: nat, size: nat, w: WordSize) returns (n: nat)
    requires p0 + size <= |m|
    ensures n == NonZero(m[p0..p0 + size])
  {
    hide NonZero, Phase;
    var end := p0 + size;
    var p: nat := p0;
    n := 0;
    NothingYet(m, p0, w);
    while p != end && Phase(p, w) != 0
      invariant p0 <= p <= end && n == NonZero(m[p0..p])
    {
      OneByte(m, p0, p);
      n := n + (if m[p] != 0 then 1 else 0);
      p := p + 1;
    }
    while end - p >= w
      invariant p0 <= p <= end && n == NonZero(m[p0..p])
      invariant Phase(p, w) == 0 || p == end
    {
      var k := if WordsIn(end - p, w) < 255 then WordsIn(end - p, w) else 255;
      var c := CountWords(m, p, k, w);
      StillAligned(p, k, w);
      NonZeroConcat(m[p0..p], m[p..p + Size(k, w)]);
      assert m[p0..p + Size(k, w)] == m[p0..p] + m[p..p + Size(k, w)];
      n, p := n + c, p + Size(k, w);
    }
    while p != end
      invariant p0 <= p <= end && n == NonZero(m[p0..p])
    {
      OneByte(m, p0, p);
      n := n + (if m[p] != 0 then 1 else 0);
      p := p + 1;
    }
  }
}
