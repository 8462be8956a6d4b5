/**
  memcmp of prover/guest_common/src/mem_builtins.cpp: word comparisons, re-laned when an operand
  is out of phase, and a byte search in the first word that differs.
  */
module MemCompare {
  import opened Bytes
  import opened MemWords
  import opened MemCells
  import opened MemCopy

  /** The byte loop: the unsigned difference at the first differing byte, or zero. */
  function Compare(x: seq<byte>, y: seq<byte>): (r: int)
    requires |x| == |y|
    ensures r == 0 <==> x == y
  {
    if x == [] then 0
    else if x[0] != y[0] then x[0] as int - y[0]
    else
      assert x == [x[0]] + x[1..] && y == [y[0]] + y[1..];
      Compare(x[1..], y[1..])
  }

  /** Where the first difference is, the comparison is the difference there. */
  lemma {:induction false} FirstDifferenceDecides(x: seq<byte>, y: seq<byte>, k: nat)
    requires |x| == |y| && k < |x| && x[..k] == y[..k] && x[k] != y[k]
    ensures Compare(x, y) == x[k] as int - y[k]
  {
    if k > 0 {
      assert x[0] == x[..k][0] && y[0] == y[..k][0];
      assert x[1..][..k - 1] == x[..k][1..] && y[1..][..k - 1] == y[..k][1..];
      FirstDifferenceDecides(x[1..], y[1..], k - 1);
    }
  }

  /** After an equal prefix, the differing part decides, whatever follows it. */
  lemma {:induction false} PartDecides(x: seq<byte>, y: seq<byte>, k: nat, n: nat)
    requires |x| == |y| && k + n <= |x| && x[..k] == y[..k] && x[k..k + n] != y[k..k + n]
    ensures Compare(x, y) == Compare(x[k..k + n], y[k..k + n])
  {
    var j := FirstDifference(x[k..k + n], y[k..k + n]);
    FirstDifferenceDecides(x[k..k + n], y[k..k + n], j);
    assert x[..k + j] == x[..k] + x[k..k + n][..j] && y[..k + j] == y[..k] + y[k..k + n][..j];
    FirstDifferenceDecides(x, y, k + j);
  }

  lemma {:induction false} FirstDifference(x: seq<byte>, y: seq<byte>) returns (k: nat)
    requires |x| == |y| && x != y
    ensures k < |x| && x[..k] == y[..k] && x[k] != y[k]
  {
    if x[0] != y[0] {
      k := 0;
    } else {
      assert x == [x[0]] + x[1..] && y == [y[0]] + y[1..];
      var j := FirstDifference(x[1..], y[1..]);
      k := j + 1;
      assert x[..k] == [x[0]] + x[1..][..j] && y[..k] == [y[0]] + y[1..][..j];
    }
  }

  // ---------- Parts of memory ----------

  ghost function Part(m: seq<byte>, a: nat, n: nat): (r: seq<byte>)
    requires a + n <= |m|
    ensures |r| == n
  {
    m[a..a + n]
  }

  ghost predicate SameBytes(m: seq<byte>, p: nat, q: nat, n: nat) {
    p + n <= |m| && q + n <= |m| && Part(m, p, n) == Part(m, q, n)
  }

  /** What memcmp answers about the `n` bytes at `p` and `q`. */
  ghost predicate Answers(m: seq<byte>, p: nat, q: nat, n: nat, r: int) {
    p + n <= |m| && q + n <= |m| && r == Compare(Part(m, p, n), Part(m, q, n))
  }

  lemma SameNothing(m: seq<byte>, p: nat, q: nat)
    requires p <= |m| && q <= |m|
    ensures SameBytes(m, p, q, 0)
  {
  }

  lemma PartSplits(m: seq<byte>, a: nat, n: nat, k: nat)
    requires a + n + k <= |m|
    ensures Part(m, a, n + k) == Part(m, a, n) + Part(m, a + n, k)
  {
  }

  lemma SameExtends(m: seq<byte>, p: nat, q: nat, n: nat, k: nat)
    requires SameBytes(m, p, q, n) && SameBytes(m, p + n, q + n, k)
    ensures SameBytes(m, p, q, n + k)
  {
    PartSplits(m, p, n, k);
    PartSplits(m, q, n, k);
  }

  lemma SameAnswersZero(m: seq<byte>, p: nat, q: nat, n: nat)
    requires SameBytes(m, p, q, n)
    ensures Answers(m, p, q, n, 0)
  {
  }

  /** A differing part after an equal prefix gives the answer for the whole. */
  lemma DifferenceDecides(m: seq<byte>, p: nat, q: nat, n: nat, k: nat, len: nat, r: int)
    requires p + n <= |m| && q + n <= |m| && k + len <= n
    requires SameBytes(m, p, q, k) && !SameBytes(m, p + k, q + k, len)
    requires Answers(m, p + k, q + k, len, r)
    ensures Answers(m, p, q, n, r)
  {
    var x, y := Part(m, p, n), Part(m, q, n);
    PartSplits(m, p, k, n - k);
    PartSplits(m, q, k, n - k);
    PartSplits(m, p + k, len, n - k - len);
    PartSplits(m, q + k, len, n - k - len);
    assert x[..k] == Part(m, p, k) && y[..k] == Part(m, q, k);
    assert x[k..k + len] == Part(m, p + k, len) && y[k..k + len] == Part(m, q + k, len);
    PartDecides(x, y, k, len);
  }

  // ---------- The comparison ----------

  /** The `n` bytes at `p` and at `q` are in the operands of the call. */
  ghost predicate Pairs(r: Reach, p: nat, q: nat, n: nat) {
    n > 0 ==> r.d <= p && p + n <= r.dEnd && r.s <= q && q + n <= r.sEnd
  }

  /** Byte loads up to the first of `unit` bytes that differ, which is among the first `len`. */
  method FirstDifferenceAt(m: Memory, p: nat, q: nat, unit: nat, ghost len: nat, ghost r: Reach) returns (diff: int)
    requires 0 < len <= unit && p + len <= m.cells.Length && q + len <= m.cells.Length
    requires !SameBytes(m.cells[..], p, q, len)
    requires Ruled(m.log, r) && Pairs(r, p, q, len)
    modifies m
    ensures Answers(m.cells[..], p, q, len, diff)
    ensures Ruled(m.log, r)
  {
    hide Compare, Ruled;
    ghost var x, y := Part(m.cells[..], p, len), Part(m.cells[..], q, len);
    ghost var j := FirstDifference(x, y);
    FirstDifferenceDecides(x, y, j);
    var i := 0;
    while i < unit - 1
      invariant Ruled(m.log, r)
      invariant 0 <= i <= j && i <= unit - 1
    {
      var a := m.LoadByte(p + i, r);
      var b := m.LoadByte(q + i, r);
      assert x[i] == a && y[i] == b;
      assert i < j ==> x[..j][i] == y[..j][i];
      if a != b {
        return a as int - b;
      }
      i := i + 1;
    }
    var a := m.LoadByte(p + i, r);
    var b := m.LoadByte(q + i, r);
    assert x[i] == a && y[i] == b;
    diff := a as int - b;
  }

  /** The byte loop, as memcmp runs it on short unaligned operands and on what the words leave. */
  method CompareBytes(m: Memory, p: nat, q: nat, from: nat, n: nat, ghost r: Reach) returns (diff: int)
    requires from <= n && p + n <= m.cells.Length && q + n <= m.cells.Length && SameBytes(m.cells[..], p, q, from)
    requires Ruled(m.log, r) && Pairs(r, p, q, n)
    modifies m
    ensures Answers(m.cells[..], p, q, n, diff)
    ensures Ruled(m.log, r)
  {
    hide Compare, SameBytes, Answers, Ruled;
    var i := from;
    while i < n
      invariant Ruled(m.log, r)
      invariant from <= i <= n && SameBytes(m.cells[..], p, q, i)
    {
      ByteDecides(m.cells[..], p, q, n, i);
      var a := m.LoadByte(p + i, r);
      var b := m.LoadByte(q + i, r);
      if a != b {
        return a as int - b;
      }
      i := i + 1;
    }
    SameAnswersZero(m.cells[..], p, q, n);
    diff := 0;
  }

  lemma ByteDecides(m: seq<byte>, p: nat, q: nat, n: nat, i: nat)
    requires p + n <= |m| && q + n <= |m| && i < n && SameBytes(m, p, q, i)
    ensures m[p + i] != m[q + i] ==> Answers(m, p, q, n, m[p + i] as int - m[q + i])
    ensures m[p + i] == m[q + i] ==> SameBytes(m, p, q, i + 1)
  {
    PartSplits(m, p, i, 1);
    PartSplits(m, q, i, 1);
    if m[p + i] != m[q + i] {
      var x, y := Part(m, p, n), Part(m, q, n);
      PartSplits(m, p, i, n - i);
      PartSplits(m, q, i, n - i);
      assert x[..i] == Part(m, p, i) && y[..i] == Part(m, q, i);
      FirstDifferenceDecides(x, y, i);
    }
  }

  /** One unit of both operands: the answer if they differ there. */
  method CompareUnit(m: Memory, unit: nat, p: nat, q: nat, k: nat, n: nat, x: Word, y: Word, ghost r: Reach) returns (diff: int, differ: bool)
    requires 0 < unit && k + unit <= n && p + n <= m.cells.Length && q + n <= m.cells.Length
    requires x == Part(m.cells[..], p + k, unit) && y == Part(m.cells[..], q + k, unit)
    requires SameBytes(m.cells[..], p, q, k)
    requires Ruled(m.log, r) && Pairs(r, p, q, n)
    modifies m
    ensures differ ==> Answers(m.cells[..], p, q, n, diff)
    ensures !differ ==> diff == 0 && SameBytes(m.cells[..], p, q, k + unit)
    ensures Ruled(m.log, r)
  {
    hide Compare, Answers, Part, Ruled;
    diff, differ := 0, x != y;
    if differ {
      diff := FirstDifferenceAt(m, p + k, q + k, unit, unit, r);
      DifferenceDecides(m.cells[..], p, q, n, k, unit, diff);
    } else {
      SameExtends(m.cells[..], p, q, k, unit);
    }
  }

  /** Word `i`, as the part of memory it is. */
  method LoadPart(m: Memory, w: WordSize, i: nat, ghost at: nat, ghost r: Reach) returns (x: Word)
    requires at == Size(i, w) && at + w <= m.cells.Length && Reaches(r, at, w) && Ruled(m.log, r)
    modifies m
    ensures x == Part(m.cells[..], at, w) && Ruled(m.log, r)
  {
    hide Ruled, Reaches;
    x := m.Load(i, w, r);
  }

  /** Whole words of two aligned operands. */
  method CompareWords(m: Memory, w: WordSize, pw: nat, qw: nat, words: nat, n: nat, ghost r: Reach) returns (diff: int, differ: bool)
    requires Size(words, w) <= n && Size(pw, w) + n <= m.cells.Length && Size(qw, w) + n <= m.cells.Length
    requires Ruled(m.log, r) && Pairs(r, Size(pw, w), Size(qw, w), n)
    modifies m
    ensures differ ==> Answers(m.cells[..], Size(pw, w), Size(qw, w), n, diff)
    ensures !differ ==> diff == 0 && SameBytes(m.cells[..], Size(pw, w), Size(qw, w), Size(words, w))
    ensures Ruled(m.log, r)
  {
    hide Compare, Answers, Part, SameBytes, Ruled;
    var p, q := Size(pw, w), Size(qw, w);
    diff, differ := 0, false;
    SameNothing(m.cells[..], p, q);
    var i := 0;
    while i < words
      invariant Ruled(m.log, r)
      invariant 0 <= i <= words
      invariant SameBytes(m.cells[..], p, q, Size(i, w))
      invariant diff == 0 && !differ
    {
      var x := LoadPart(m, w, pw + i, p + Size(i, w), r);
      var y := LoadPart(m, w, qw + i, q + Size(i, w), r);
      diff, differ := CompareUnit(m, w, p, q, Size(i, w), n, x, y, r);
      if differ { return; }
      i := i + 1;
    }
  }

  /** The last `rest` bytes, compared under a mask. */
  method CompareTail(m: Memory, w: WordSize, pw: nat, qw: nat, words: nat, rest: nat, ghost r: Reach) returns (diff: int)
    requires rest < w
    requires rest > 0 ==> Size(pw + words + 1, w) <= m.cells.Length && Size(qw + words + 1, w) <= m.cells.Length
    requires SameBytes(m.cells[..], Size(pw, w), Size(qw, w), Size(words, w))
    requires Ruled(m.log, r) && Pairs(r, Size(pw, w), Size(qw, w), Size(words, w) + rest)
    modifies m
    ensures Answers(m.cells[..], Size(pw, w), Size(qw, w), Size(words, w) + rest, diff)
    ensures Ruled(m.log, r)
  {
    hide Compare, Answers, Part, SameBytes, And, LowMask, Ruled;
    var p, q, k := Size(pw, w), Size(qw, w), Size(words, w);
    ghost var n := k + rest;
    if rest == 0 {
      SameAnswersZero(m.cells[..], p, q, n);
      return 0;
    }
    var mask := LowMask(rest, w);
    var x := LoadPart(m, w, pw + words, p + k, r);
    var y := LoadPart(m, w, qw + words, q + k, r);
    MaskedSame(m.cells[..], x, y, p + k, q + k, rest, w);
    if And(x, mask) != And(y, mask) {
      diff := FirstDifferenceAt(m, p + k, q + k, w, rest, r);
      DifferenceDecides(m.cells[..], p, q, n, k, rest, diff);
    } else {
      SameExtends(m.cells[..], p, q, k, rest);
      SameAnswersZero(m.cells[..], p, q, n);
      diff := 0;
    }
  }

  /** Words masked to their low lanes are equal exactly when those lanes are. */
  lemma MaskedEqual(x: Word, y: Word, k: nat, w: WordSize)
    requires |x| == |y| == w && k <= w
    ensures And(x, LowMask(k, w)) == And(y, LowMask(k, w)) <==> x[..k] == y[..k]
  {
    hide And, LowMask;
    MaskKeeps(x, k, w);
    MaskKeeps(y, k, w);
    var zeros := Repeat(0, w - k);
    assert (x[..k] + zeros)[..k] == x[..k] && (y[..k] + zeros)[..k] == y[..k];
  }

  lemma MaskKeeps(x: Word, k: nat, w: WordSize)
    requires |x| == w && k <= w
    ensures And(x, LowMask(k, w)) == x[..k] + Repeat(0, w - k)
  {
    hide AndBits;
  }

  lemma MaskedSame(m: seq<byte>, x: Word, y: Word, p: nat, q: nat, k: nat, w: WordSize)
    requires k <= w && p + w <= |m| && q + w <= |m| && x == Part(m, p, w) && y == Part(m, q, w)
    ensures And(x, LowMask(k, w)) == And(y, LowMask(k, w)) <==> SameBytes(m, p, q, k)
  {
    hide And, LowMask;
    MaskedEqual(x, y, k, w);
    assert x[..k] == Part(m, p, k) && y[..k] == Part(m, q, k);
  }

  /** `x` is the word at index `i`. */
  ghost predicate Carries(m: seq<byte>, x: Word, i: nat, w: WordSize) {
    Size(i, w) + w <= |m| && x == Part(m, Size(i, w), w)
  }

  lemma PartsJoin(m: seq<byte>, x: Word, y: Word, i: nat, off: nat, w: WordSize)
    requires off < w && Carries(m, x, i, w) && Carries(m, y, i + 1, w)
    ensures x[off..] + y[..off] == Part(m, Size(i, w) + off, w)
  {
    JoinWords(m, x, y, Size(i, w), Size(i + 1, w), off, Size(i, w) + off);
  }

  /** The `n` bytes at `a` are in one of the operands. */
  ghost predicate Holds(r: Reach, a: nat, n: nat) {
    (r.d <= a && a + n <= r.dEnd) || (r.s <= a && a + n <= r.sEnd)
  }

  /** The next word of an operand at any phase, from the word carried along and the one after it. */
  method Next(m: Memory, w: WordSize, i: nat, off: nat, cur: Word, ghost total: nat, ghost r: Reach)
    returns (v: Word, carried: Word)
    requires m.cells.Length == Size(total, w) && off < w
    requires Size(i, w) + off + w <= m.cells.Length && Holds(r, Size(i, w) + off, w)
    requires off != 0 ==> Carries(m.cells[..], cur, i, w)
    requires Ruled(m.log, r)
    modifies m
    ensures v == Part(m.cells[..], Size(i, w) + off, w)
    ensures off != 0 ==> Carries(m.cells[..], carried, i + 1, w)
    ensures Ruled(m.log, r)
  {
    hide Or, ShiftUp, ShiftDown, Part, Ruled;
    if off == 0 {
      v := LoadPart(m, w, i, Size(i, w), r);
      carried := cur;
    } else {
      WordInside(i + 1, total, w);
      carried := LoadPart(m, w, i + 1, Size(i + 1, w), r);
      Relane(cur, carried, off);
      PartsJoin(m.cells[..], cur, carried, i, off, w);
      v := Or(ShiftDown(cur, off), ShiftUp(carried, w - off));
    }
  }

  /** Operands of which one at least is out of phase. */
  method CompareUnaligned(m: Memory, w: WordSize, p: nat, q: nat, n: nat, ghost total: nat, ghost r: Reach) returns (diff: int)
    requires m.cells.Length == Size(total, w) && p + n <= m.cells.Length && q + n <= m.cells.Length && n >= w
    requires Ruled(m.log, r) && Pairs(r, p, q, n)
    modifies m
    ensures Answers(m.cells[..], p, q, n, diff)
    ensures Ruled(m.log, r)
  {
    hide Compare, Answers, Part, SameBytes, Carries, Ruled;
    var poff, qoff, pw, qw := Phase(p, w), Phase(q, w), WordsIn(p, w), WordsIn(q, w);
    assert p == Size(pw, w) + poff && q == Size(qw, w) + qoff;
    var pc, qc := [], [];
    if poff != 0 { pc := First(m, w, pw, total, r); }
    if qoff != 0 { qc := First(m, w, qw, total, r); }
    SameNothing(m.cells[..], p, q);
    var words, i := WordsIn(n, w), 0;
    while i < words
      invariant Ruled(m.log, r)
      invariant 0 <= i <= words && SameBytes(m.cells[..], p, q, Size(i, w))
      invariant poff != 0 ==> Carries(m.cells[..], pc, pw + i, w)
      invariant qoff != 0 ==> Carries(m.cells[..], qc, qw + i, w)
    {
      var x, y, differ;
      x, pc := Next(m, w, pw + i, poff, pc, total, r);
      y, qc := Next(m, w, qw + i, qoff, qc, total, r);
      diff, differ := CompareUnit(m, w, p, q, Size(i, w), n, x, y, r);
      if differ { return; }
      i := i + 1;
    }
    diff := CompareBytes(m, p, q, Size(words, w), n, r);
  }

  method First(m: Memory, w: WordSize, i: nat, ghost total: nat, ghost r: Reach) returns (x: Word)
    requires m.cells.Length == Size(total, w) && Size(i, w) < m.cells.Length && Reaches(r, Size(i, w), w)
    requires Ruled(m.log, r)
    modifies m
    ensures Carries(m.cells[..], x, i, w)
    ensures Ruled(m.log, r)
  {
    WordInside(i, total, w);
    x := LoadPart(m, w, i, Size(i, w), r);
  }

  /** Two aligned operands, of any length. */
  method CompareAligned(m: Memory, w: WordSize, pw: nat, qw: nat, n: nat, ghost total: nat, ghost r: Reach) returns (diff: int)
    requires m.cells.Length == Size(total, w) && Size(pw, w) + n <= m.cells.Length && Size(qw, w) + n <= m.cells.Length
    requires Ruled(m.log, r) && Pairs(r, Size(pw, w), Size(qw, w), n)
    modifies m
    ensures Answers(m.cells[..], Size(pw, w), Size(qw, w), n, diff)
    ensures Ruled(m.log, r)
  {
    hide Compare, Answers, Part, SameBytes, Ruled;
    var differ;
    if n == 20 {
      diff := CompareAddress(m, w, pw, qw, r);
      return;
    }
    var words, rest := if n == 32 then N32(w) else WordsIn(n, w), if n == 32 then 0 else Phase(n, w);
    assert n == Size(words, w) + rest;
    diff, differ := CompareWords(m, w, pw, qw, words, n, r);
    if differ { return; }
    if rest > 0 {
      WordInside(pw + words, total, w);
      WordInside(qw + words, total, w);
    }
    diff := CompareTail(m, w, pw, qw, words, rest, r);
  }

  /** Two addresses. */
  method CompareAddress(m: Memory, w: WordSize, pw: nat, qw: nat, ghost r: Reach) returns (diff: int)
    requires Size(pw, w) + 20 <= m.cells.Length && Size(qw, w) + 20 <= m.cells.Length
    requires Ruled(m.log, r) && Pairs(r, Size(pw, w), Size(qw, w), 20)
    modifies m
    ensures Answers(m.cells[..], Size(pw, w), Size(qw, w), 20, diff)
    ensures Ruled(m.log, r)
  {
    hide Compare, Answers, Part, SameBytes, Ruled;
    var p, q := Size(pw, w), Size(qw, w);
    var differ;
    diff, differ := CompareWords(m, w, pw, qw, if w == 4 then 4 else 2, 20, r);
    if differ { return; }
    var i, j := if w == 4 then pw + 4 else 2 * pw + 4, if w == 4 then qw + 4 else 2 * qw + 4;
    var x := LoadPart(m, 4, i, p + 16, r);
    var y := LoadPart(m, 4, j, q + 16, r);
    diff, differ := CompareUnit(m, 4, p, q, 16, 20, x, y, r);
    if !differ { SameAnswersZero(m.cells[..], p, q, 20); }
  }

  /**
    memcmp: the byte loop's answer for every length and pair of alignments, and each access is
    aligned and holds a byte of one of the operands.
    */
  method Memcmp(m: Memory, w: WordSize, p: nat, q: nat, n: nat) returns (diff: int)
    requires Phase(m.cells.Length, w) == 0 && p + n <= m.cells.Length && q + n <= m.cells.Length
    modifies m
    ensures diff == Compare(m.cells[p..p + n], m.cells[q..q + n])
    ensures Ruled(m.log, Reach(old(m.log), p, p + n, q, q + n))
  {
    hide Compare, Ruled;
    ghost var r := Reach(m.log, p, p + n, q, q + n);
    RuledStart(m.log, p, p + n, q, q + n);
    ghost var total := WordsIn(m.cells.Length, w);
    assert m.cells[p..p + n] == Part(m.cells[..], p, n) && m.cells[q..q + n] == Part(m.cells[..], q, n);
    if Phase(p, w) == 0 && Phase(q, w) == 0 {
      diff := CompareAligned(m, w, WordsIn(p, w), WordsIn(q, w), n, total, r);
    } else if n < 16 {
      SameNothing(m.cells[..], p, q);
      diff := CompareBytes(m, p, q, 0, n, r);
    } else {
      diff := CompareUnaligned(m, w, p, q, n, total, r);
    }
  }
}
