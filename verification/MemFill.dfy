/**
  memset of prover/guest_common/src/mem_builtins.cpp: masked ends, runs of word stores highest
  first, and zero fills by 32-byte block copies from a block of zeros.
  */
module MemFill {
  import opened Bytes
  import opened MemWords
  import opened MemCells
  import opened MemCopy

  /** `now` is `was` with every byte of `[lo, hi)` set to `c`, nothing else changed. */
  ghost predicate Filled(now: seq<byte>, was: seq<byte>, lo: nat, hi: nat, c: byte) {
    && |now| == |was| && lo <= hi <= |was|
    && (forall i :: lo <= i < hi ==> now[i] == c)
    && (forall i :: 0 <= i < lo || hi <= i < |was| ==> now[i] == was[i])
  }

  lemma FillOfNothing(was: seq<byte>, lo: nat, c: byte)
    requires lo <= |was|
    ensures Filled(was, was, lo, lo, c)
  {
  }

  /** Two fills of adjacent ranges make one. */
  lemma FillsJoin(now: seq<byte>, mid: seq<byte>, was: seq<byte>, lo: nat, hi: nat, top: nat, c: byte)
    requires (Filled(mid, was, lo, hi, c) && Filled(now, mid, hi, top, c))
          || (Filled(mid, was, hi, top, c) && Filled(now, mid, lo, hi, c))
    ensures Filled(now, was, lo, top, c)
  {
  }

  lemma StoreFills(now: seq<byte>, was: seq<byte>, a: nat, v: seq<byte>, hi: nat, c: byte)
    requires Stored(now, was, a, v) && hi == a + |v| && forall i :: 0 <= i < |v| ==> v[i] == c
    ensures Filled(now, was, a, hi, c)
  {
  }

  /** The bytes `[lo, hi)` are in the destination of the call. */
  ghost predicate Spans(r: Reach, lo: int, hi: int) {
    lo < hi ==> r.d <= lo && hi <= r.dEnd
  }

  /** The block of zeros is the other range of the call. */
  ghost predicate FromZeros(r: Reach, zb: nat) {
    r.s <= 32 * zb && 32 * zb + 32 <= r.sEnd
  }

  method FillWord(m: Memory, w: WordSize, i: nat, v: Word, ghost c: byte, ghost r: Reach)
    requires Size(i + 1, w) <= m.cells.Length && Reaches(r, Size(i, w), w) && v == Repeat(c, w)
    requires Ruled(m.log, r)
    modifies m, m.cells
    ensures Filled(m.cells[..], old(m.cells[..]), Size(i, w), Size(i + 1, w), c)
    ensures Ruled(m.log, r)
  {
    hide Filled, Ruled, Stored;
    ghost var was := m.cells[..];
    m.Store(i, v, w, r);
    StoreFills(m.cells[..], was, Size(i, w), v, Size(i + 1, w), c);
  }

  /** A fixed number of words in descending order. */
  method FillWordsUpto(m: Memory, w: WordSize, dw: nat, v: Word, words: nat, ghost max: nat, ghost c: byte, ghost r: Reach)
    requires words <= max && Size(dw + words, w) <= m.cells.Length && v == Repeat(c, w)
    requires Ruled(m.log, r) && Spans(r, Size(dw, w), Size(dw + words, w))
    modifies m, m.cells
    ensures Filled(m.cells[..], old(m.cells[..]), Size(dw, w), Size(dw + words, w), c)
    ensures Ruled(m.log, r)
  {
    hide Filled, Ruled;
    ghost var was := m.cells[..];
    FillOfNothing(was, Size(dw + words, w), c);
    var k := words;
    while k > 0
      invariant Ruled(m.log, r)
      invariant 0 <= k <= words
      invariant Filled(m.cells[..], was, Size(dw + k, w), Size(dw + words, w), c)
    {
      ghost var mid := m.cells[..];
      FillWord(m, w, dw + k - 1, v, c, r);
      FillsJoin(m.cells[..], mid, was, Size(dw + k - 1, w), Size(dw + k, w), Size(dw + words, w), c);
      k := k - 1;
    }
  }

  /** Rounds of sixteen words, and the remainder. */
  method FillWordsLoop(m: Memory, w: WordSize, dw0: nat, v: Word, words: nat, ghost c: byte, ghost r: Reach)
    requires Size(dw0 + words, w) <= m.cells.Length && v == Repeat(c, w)
    requires Ruled(m.log, r) && Spans(r, Size(dw0, w), Size(dw0 + words, w))
    modifies m, m.cells
    ensures Filled(m.cells[..], old(m.cells[..]), Size(dw0, w), Size(dw0 + words, w), c)
    ensures Ruled(m.log, r)
  {
    hide Filled, Ruled, Repeat;
    ghost var was := m.cells[..];
    FillOfNothing(was, Size(dw0, w), c);
    var dw, end := dw0, dw0 + (words - words % 16);
    while dw != end
      invariant Ruled(m.log, r)
      invariant dw0 <= dw <= end && (dw - dw0) % 16 == 0
      invariant Filled(m.cells[..], was, Size(dw0, w), Size(dw, w), c)
      decreases end - dw
    {
      ghost var mid := m.cells[..];
      FillSixteen(m, w, dw, v, c, r);
      FillsJoin(m.cells[..], mid, was, Size(dw0, w), Size(dw, w), Size(dw + 16, w), c);
      dw := dw + 16;
    }
    ghost var mid := m.cells[..];
    FillWordsUpto(m, w, dw, v, words % 16, 15, c, r);
    FillsJoin(m.cells[..], mid, was, Size(dw0, w), Size(dw, w), Size(dw0 + words, w), c);
  }

  method FillSixteen(m: Memory, w: WordSize, dw: nat, v: Word, ghost c: byte, ghost r: Reach)
    requires Size(dw + 16, w) <= m.cells.Length && v == Repeat(c, w)
    requires Ruled(m.log, r) && Spans(r, Size(dw, w), Size(dw + 16, w))
    modifies m, m.cells
    ensures Filled(m.cells[..], old(m.cells[..]), Size(dw, w), Size(dw + 16, w), c)
    ensures Ruled(m.log, r)
  {
    hide Filled, Ruled, Repeat;
    ghost var was := m.cells[..];
    FillOfNothing(was, Size(dw, w), c);
    for i := 0 to 16
      invariant Ruled(m.log, r)
      invariant Filled(m.cells[..], was, Size(dw, w), Size(dw + i, w), c)
    {
      ghost var mid := m.cells[..];
      FillWord(m, w, dw + i, v, c, r);
      FillsJoin(m.cells[..], mid, was, Size(dw, w), Size(dw + i, w), Size(dw + i + 1, w), c);
    }
  }

  // ---------- Zero fills by blocks ----------

  /** A block of zeros, 32-byte aligned, that no fill ever reaches. */
  ghost predicate ZeroBlock(m: seq<byte>, zb: nat) {
    32 * zb + 32 <= |m| && forall i :: 32 * zb <= i < 32 * zb + 32 ==> m[i] == 0
  }

  /** A fill beside the block of zeros leaves it. */
  lemma ZerosStay(now: seq<byte>, was: seq<byte>, lo: nat, hi: nat, c: byte, zb: nat)
    requires ZeroBlock(was, zb) && Filled(now, was, lo, hi, c) && (32 * zb + 32 <= lo || hi <= 32 * zb)
    ensures ZeroBlock(now, zb)
  {
  }

  /** Blocks `[0, blocks)`, each copied from the block of zeros, lowest first. */
  method ZeroBlocksUpto(m: Memory, db: nat, zb: nat, blocks: nat, ghost max: nat, ghost r: Reach)
    requires blocks <= max && 32 * (db + blocks) <= m.cells.Length
    requires ZeroBlock(m.cells[..], zb) && (zb < db || db + blocks <= zb)
    requires Ruled(m.log, r) && Spans(r, 32 * db, 32 * (db + blocks)) && FromZeros(r, zb)
    modifies m, m.cells
    ensures Filled(m.cells[..], old(m.cells[..]), 32 * db, 32 * (db + blocks), 0)
    ensures Ruled(m.log, r)
  {
    ghost var was := m.cells[..];
    var k := 0;
    while k < blocks
      invariant Ruled(m.log, r)
      invariant 0 <= k <= blocks
      invariant Filled(m.cells[..], was, 32 * db, 32 * (db + k), 0)
    {
      ghost var mid := m.cells[..];
      m.CopyBlock(db + k, zb, r);
      StoreFills(m.cells[..], mid, 32 * (db + k), mid[32 * zb..32 * zb + 32], 32 * (db + k + 1), 0);
      FillsJoin(m.cells[..], mid, was, 32 * db, 32 * (db + k), 32 * (db + k + 1), 0);
      k := k + 1;
    }
  }

  /** Rounds of sixteen blocks, and the remainder. */
  method ZeroBlocks(m: Memory, db0: nat, zb: nat, blocks: nat, ghost r: Reach)
    requires 32 * (db0 + blocks) <= m.cells.Length
    requires ZeroBlock(m.cells[..], zb) && (zb < db0 || db0 + blocks <= zb)
    requires Ruled(m.log, r) && Spans(r, 32 * db0, 32 * (db0 + blocks)) && FromZeros(r, zb)
    modifies m, m.cells
    ensures Filled(m.cells[..], old(m.cells[..]), 32 * db0, 32 * (db0 + blocks), 0)
    ensures Ruled(m.log, r)
  {
    ghost var was := m.cells[..];
    var db, i := db0, blocks / 16;
    while i != 0
      invariant Ruled(m.log, r)
      invariant 0 <= i && db + 16 * i + blocks % 16 == db0 + blocks && db0 <= db
      invariant Filled(m.cells[..], was, 32 * db0, 32 * db, 0)
    {
      ghost var mid := m.cells[..];
      ZeroBlocksUpto(m, db, zb, 16, 16, r);
      FillsJoin(m.cells[..], mid, was, 32 * db0, 32 * db, 32 * (db + 16), 0);
      db, i := db + 16, i - 1;
    }
    ghost var mid := m.cells[..];
    ZeroBlocksUpto(m, db, zb, blocks % 16, 15, r);
    FillsJoin(m.cells[..], mid, was, 32 * db0, 32 * db, 32 * (db0 + blocks), 0);
  }

  /** The words at and after a 32-byte boundary: blocks, then the few words left. */
  method ZeroFromBoundary(m: Memory, w: WordSize, db: nat, zb: nat, words: nat, ghost r: Reach)
    requires 32 * db + Size(words, w) <= m.cells.Length
    requires ZeroBlock(m.cells[..], zb) && (32 * zb + 32 <= 32 * db || 32 * db + Size(words, w) <= 32 * zb)
    requires Ruled(m.log, r) && Spans(r, 32 * db, 32 * db + Size(words, w)) && FromZeros(r, zb)
    modifies m, m.cells
    ensures Filled(m.cells[..], old(m.cells[..]), 32 * db, 32 * db + Size(words, w), 0)
    ensures Ruled(m.log, r)
  {
    hide Filled, Ruled, ZeroBlock, WholeBlocks, Place, BlockWord;
    ghost var was := m.cells[..];
    var blocks, rest := WholeBlocks(words, w), Place(words, w);
    assert 32 * blocks + Size(rest, w) == Size(words, w);
    ZeroBlocks(m, db, zb, blocks, r);
    ghost var mid := m.cells[..];
    FillWordsUpto(m, w, BlockWord(db + blocks, w), Repeat(0, w), rest, N32(w) - 1, 0, r);
    FillsJoin(m.cells[..], mid, was, 32 * db, 32 * (db + blocks), 32 * db + Size(words, w), 0);
  }

  /** Whole 32-byte blocks in a number of words. */
  function WholeBlocks(words: nat, w: WordSize): (b: nat)
    ensures 32 * b + Size(Place(words, w), w) == Size(words, w)
  {
    if w == 4 then words / 8 else words / 4
  }

  /** A large zero fill: words until a block boundary, and from there on. */
  method ZeroByBlocks(m: Memory, w: WordSize, dw: nat, zb: nat, words: nat, ghost r: Reach)
    requires N32(w) <= words && Size(dw + words, w) <= m.cells.Length
    requires ZeroBlock(m.cells[..], zb) && (32 * zb + 32 <= Size(dw, w) || Size(dw + words, w) <= 32 * zb)
    requires Ruled(m.log, r) && Spans(r, Size(dw, w), Size(dw + words, w)) && FromZeros(r, zb)
    modifies m, m.cells
    ensures Filled(m.cells[..], old(m.cells[..]), Size(dw, w), Size(dw + words, w), 0)
    ensures Ruled(m.log, r)
  {
    hide Lead, Ruled;
    ghost var was := m.cells[..];
    var lead := Lead(dw, w);
    LeadAligns(dw, dw, w);
    FillWordsUpto(m, w, dw, Repeat(0, w), lead, N32(w) - 1, 0, r);
    ghost var mid := m.cells[..];
    var db := Size(dw + lead, w) / 32;
    ZeroFromBoundary(m, w, db, zb, words - lead, r);
    FillsJoin(m.cells[..], mid, was, Size(dw, w), 32 * db, Size(dw + words, w), 0);
  }

  // ---------- memset ----------

  /** The words of one run, of the block engine, or of the loop. */
  method FillWords(m: Memory, w: WordSize, blockBuild: bool, dw: nat, c: byte, words: nat, zb: nat, ghost r: Reach)
    requires Size(dw + words, w) <= m.cells.Length
    requires blockBuild ==> ZeroBlock(m.cells[..], zb) && (32 * zb + 32 <= Size(dw, w) || Size(dw + words, w) <= 32 * zb)
    requires Ruled(m.log, r) && Spans(r, Size(dw, w), Size(dw + words, w)) && (blockBuild ==> FromZeros(r, zb))
    modifies m, m.cells
    ensures Filled(m.cells[..], old(m.cells[..]), Size(dw, w), Size(dw + words, w), c)
    ensures Ruled(m.log, r)
  {
    hide Filled, Ruled, ZeroBlock;
    var run := if w == 4 then 64 else 32;   // 256 bytes
    if words <= run {
      FillWordsUpto(m, w, dw, Repeat(c, w), words, run, c, r);
    } else if blockBuild && c == 0 {
      ZeroByBlocks(m, w, dw, zb, words, r);
    } else {
      FillWordsLoop(m, w, dw, Repeat(c, w), words, c, r);
    }
  }

  /** The low `len` lanes of a word set to `c`. */
  method FillPartial(m: Memory, w: WordSize, i: nat, c: byte, len: nat, ghost r: Reach)
    requires len < w && Size(i, w) + len <= m.cells.Length
    requires len > 0 ==> Size(i + 1, w) <= m.cells.Length
    requires Ruled(m.log, r) && Spans(r, Size(i, w), Size(i, w) + len)
    modifies m, m.cells
    ensures Filled(m.cells[..], old(m.cells[..]), Size(i, w), Size(i, w) + len, c)
    ensures Ruled(m.log, r)
  {
    hide Filled, Ruled, Stored;
    ghost var was := m.cells[..];
    if len == 0 {
      FillOfNothing(was, Size(i, w), c);
    } else {
      ScatterAligned(m, w, i, Repeat(c, w), len, r);
      StoreFills(m.cells[..], was, Size(i, w), Repeat(c, w)[..len], Size(i, w) + len, c);
    }
  }

  /** The lanes of a word from `phase` up set to `c`. */
  method FillHead(m: Memory, w: WordSize, i: nat, c: byte, phase: nat, ghost hi: nat, ghost r: Reach)
    requires 0 < phase < w && Size(i + 1, w) <= m.cells.Length && Size(i, w) + phase < hi
    requires Ruled(m.log, r) && Spans(r, Size(i, w) + phase, hi)
    modifies m, m.cells
    ensures Filled(m.cells[..], old(m.cells[..]), Size(i, w) + phase, Size(i + 1, w), c)
    ensures Ruled(m.log, r)
  {
    hide Filled, Ruled, Stored, Or, And, Not, ShiftUp;
    ghost var was := m.cells[..];
    var x := m.Load(i, w, r);
    var v, mask := Repeat(c, w), ShiftUp(Repeat(255, w), phase);
    assert x[..phase] == was[Size(i, w)..Size(i, w) + phase];
    BlendHigh(x, v, phase, w);
    assert x[..phase] + v[phase..] == x[..phase] + v[phase..] + [];
    m.Store(i, Or(And(x, Not(mask)), And(v, mask)), w, r);
    StoredWithin(m.cells[..], was, Size(i, w), x[..phase], v[phase..], []);
    StoreFills(m.cells[..], was, Size(i, w) + phase, v[phase..], Size(i + 1, w), c);
  }

  /** From an aligned destination: whole words and a partial last one. */
  method FillAligned(m: Memory, w: WordSize, blockBuild: bool, dw: nat, c: byte, n: nat, zb: nat, ghost total: nat, ghost r: Reach)
    requires m.cells.Length == Size(total, w) && Size(dw, w) + n <= m.cells.Length
    requires blockBuild ==> ZeroBlock(m.cells[..], zb) && (32 * zb + 32 <= Size(dw, w) || Size(dw, w) + n <= 32 * zb)
    requires Ruled(m.log, r) && Spans(r, Size(dw, w), Size(dw, w) + n) && (blockBuild ==> FromZeros(r, zb))
    modifies m, m.cells
    ensures Filled(m.cells[..], old(m.cells[..]), Size(dw, w), Size(dw, w) + n, c)
    ensures Ruled(m.log, r)
  {
    hide Filled, Ruled, ZeroBlock;
    ghost var was := m.cells[..];
    var words, rest := WordsIn(n, w), Phase(n, w);
    assert n == Size(words, w) + rest;
    if words != 0 {
      FillWords(m, w, blockBuild, dw, c, words, zb, r);
    } else {
      FillOfNothing(was, Size(dw, w), c);
    }
    ghost var mid := m.cells[..];
    if rest > 0 { WordInside(dw + words, total, w); }
    FillPartial(m, w, dw + words, c, rest, r);
    FillsJoin(m.cells[..], mid, was, Size(dw, w), Size(dw + words, w), Size(dw, w) + n, c);
  }

  /** Single bytes in ascending order. */
  method FillBytes(m: Memory, d: nat, c: byte, n: nat, ghost r: Reach)
    requires d + n <= m.cells.Length && Ruled(m.log, r) && Spans(r, d, d + n)
    modifies m, m.cells
    ensures Filled(m.cells[..], old(m.cells[..]), d, d + n, c)
    ensures Ruled(m.log, r)
  {
    hide Filled, Stored, Ruled;
    ghost var was := m.cells[..];
    FillOfNothing(was, d, c);
    for i := 0 to n
      invariant Ruled(m.log, r)
      invariant Filled(m.cells[..], was, d, d + i, c)
    {
      ghost var mid := m.cells[..];
      m.StoreByte(d + i, c, r);
      StoreFills(m.cells[..], mid, d + i, [c], d + i + 1, c);
      FillsJoin(m.cells[..], mid, was, d, d + i, d + i + 1, c);
    }
  }

  /** Every byte of the destination set to `c`. */
  method Fill(m: Memory, w: WordSize, blockBuild: bool, d: nat, c: byte, n: nat, zb: nat, ghost total: nat, ghost r: Reach)
    requires m.cells.Length == Size(total, w) && d + n <= m.cells.Length
    requires blockBuild ==> ZeroBlock(m.cells[..], zb) && (32 * zb + 32 <= d || d + n <= 32 * zb)
    requires Ruled(m.log, r) && Spans(r, d, d + n) && (blockBuild ==> FromZeros(r, zb))
    modifies m, m.cells
    ensures Filled(m.cells[..], old(m.cells[..]), d, d + n, c)
    ensures Ruled(m.log, r)
  {
    hide Filled, Ruled, ZeroBlock, FromZeros;
    var phase, dw := Phase(d, w), WordsIn(d, w);
    assert d == Size(dw, w) + phase;
    if phase == 0 {
      if n == 32 {
        FillWordsUpto(m, w, dw, Repeat(c, w), N32(w), N32(w), c, r);
      } else if w == 4 && n == 64 {
        FillWordsUpto(m, w, dw, Repeat(c, w), 16, 16, c, r);
      } else {
        FillAligned(m, w, blockBuild, dw, c, n, zb, total, r);
      }
    } else if n < 16 {
      FillBytes(m, d, c, n, r);
    } else {
      ghost var was := m.cells[..];
      WordInside(dw, total, w);
      FillHead(m, w, dw, c, phase, d + n, r);
      ghost var mid := m.cells[..];
      if blockBuild { ZerosStay(mid, was, d, Size(dw + 1, w), c, zb); }
      FillAligned(m, w, blockBuild, dw + 1, c, n - (w - phase), zb, total, r);
      FillsJoin(m.cells[..], mid, was, d, Size(dw + 1, w), d + n, c);
    }
  }

  /** The other range a call may read: the block of zeros in the block build, nothing otherwise. */
  ghost function FillReach(before: seq<Access>, blockBuild: bool, d: nat, n: nat, zb: nat): Reach {
    if blockBuild then Reach(before, d, d + n, 32 * zb, 32 * zb + 32) else Reach(before, d, d + n, 0, 0)
  }

  /**
    memset: exactly the `n` bytes at `d` take the low byte of `c`, in either build, and each access
    is aligned and holds one of those bytes or, in the block build, one of the block of zeros.
    */
  method Memset(m: Memory, w: WordSize, blockBuild: bool, d: nat, c: int, n: nat, zb: nat)
    requires Phase(m.cells.Length, w) == 0 && d + n <= m.cells.Length
    requires blockBuild ==> ZeroBlock(m.cells[..], zb) && (32 * zb + 32 <= d || d + n <= 32 * zb)
    modifies m, m.cells
    ensures Filled(m.cells[..], old(m.cells[..]), d, d + n, c % 256)
    ensures Ruled(m.log, FillReach(old(m.log), blockBuild, d, n, zb))
  {
    hide Filled, Ruled, ZeroBlock;
    ghost var r := FillReach(m.log, blockBuild, d, n, zb);
    RuledStart(m.log, r.d, r.dEnd, r.s, r.sEnd);
    Fill(m, w, blockBuild, d, c % 256, n, zb, WordsIn(m.cells.Length, w), r);
  }

  /** The filled range and the rest of memory leave no byte open. */
  lemma FilledIsOne(x: seq<byte>, y: seq<byte>, was: seq<byte>, lo: nat, hi: nat, c: byte)
    requires Filled(x, was, lo, hi, c) && Filled(y, was, lo, hi, c)
    ensures x == y
  {
    forall i | 0 <= i < |was|
      ensures x[i] == y[i]
    {
      if lo <= i < hi { assert x[i] == c; }
    }
  }

  /** Both builds of memset leave the same memory. */
  method FillBuildsAgree(a: Memory, b: Memory, w: WordSize, d: nat, c: int, n: nat, zb: nat)
    requires a != b && a.cells != b.cells && a.cells[..] == b.cells[..] && Phase(a.cells.Length, w) == 0 && d + n <= a.cells.Length
    requires ZeroBlock(b.cells[..], zb) && (32 * zb + 32 <= d || d + n <= 32 * zb)
    modifies a, b, a.cells, b.cells
    ensures a.cells[..] == b.cells[..]
  {
    hide Filled, Ruled;
    ghost var was := a.cells[..];
    assert a.cells.Length == |a.cells[..]| == |b.cells[..]| == b.cells.Length;
    Memset(a, w, false, d, c, n, zb);
    Memset(b, w, true, d, c, n, zb);
    FilledIsOne(a.cells[..], b.cells[..], was, d, d + n, c % 256);
  }
}
