/**
  memcpy and memmove of prover/guest_common/src/mem_builtins.cpp, over a byte-addressed memory
  that is only ever read and written in aligned words (or aligned bytes and halves) holding a
  byte of one of the ranges. Every routine refines the byte loop.
  */
module MemCopy {
  import opened Basics
  import opened Bytes
  import opened MemWords
  import opened MemCells

  const COPY_RUN_WORDS: nat := 32

  // ---------- The byte-loop specification ----------

  /** `now` is `was` with the bytes of `[lo, hi)` taken from `delta` further on; nothing else changed. */
  ghost predicate Moved(now: seq<byte>, was: seq<byte>, lo: nat, hi: nat, delta: int) {
    && |now| == |was| && lo <= hi <= |was| && (lo < hi ==> 0 <= lo + delta && hi + delta <= |was|)
    && (forall i :: lo <= i < hi ==> now[i] == was[i + delta])
    && (forall i :: 0 <= i < lo || hi <= i < |was| ==> now[i] == was[i])
  }

  /** A copy that runs lowest address first reads every source byte before overwriting it. */
  ghost predicate ForwardSafe(d: nat, s: nat, n: nat) {
    d <= s || d >= s + n
  }

  lemma MoveOfNothing(was: seq<byte>, lo: nat, delta: int)
    requires lo <= |was|
    ensures Moved(was, was, lo, lo, delta)
  {
  }

  /** A store of whole source bytes extends a move at its upper end. */
  lemma StoreExtends(now: seq<byte>, mid: seq<byte>, was: seq<byte>, lo: nat, hi: nat, delta: int, v: seq<byte>)
    requires Moved(mid, was, lo, hi, delta) && Stored(now, mid, hi, v)
    requires 0 <= lo + delta && hi + |v| + delta <= |was|
    requires v == was[hi + delta..hi + delta + |v|]
    ensures Moved(now, was, lo, hi + |v|, delta)
  {
  }

  /** The destination `[lo, hi)` and its source, `delta` further on, are in the ranges of the call. */
  ghost predicate Covers(r: Reach, lo: int, hi: int, delta: int) {
    lo < hi ==> r.d <= lo && hi <= r.dEnd && r.s <= lo + delta && hi + delta <= r.sEnd
  }

  /** Word `i` stored next in a forward copy of `[lo, top)`, holding its source bytes. */
  method StoreNext(m: Memory, w: WordSize, i: nat, v: Word, ghost was: seq<byte>, ghost lo: nat, ghost delta: int, ghost r: Reach)
    requires Size(i, w) + w <= m.cells.Length && Reaches(r, Size(i, w), w) && |v| == w
    requires Moved(m.cells[..], was, lo, Size(i, w), delta)
    requires |was| == m.cells.Length && 0 <= lo + delta && Size(i, w) + delta + w <= m.cells.Length
    requires v == was[Size(i, w) + delta..Size(i, w) + delta + w]
    requires Ruled(m.log, r)
    modifies m, m.cells
    ensures Moved(m.cells[..], was, lo, Size(i + 1, w), delta)
    ensures Ruled(m.log, r)
  {
    hide Moved, Stored, Ruled, Reaches;
    ghost var mid := m.cells[..];
    m.Store(i, v, w, r);
    assert Size(i + 1, w) == Size(i, w) + w;
    StoreExtends(m.cells[..], mid, was, lo, Size(i, w), delta, v);
  }

  // ---------- Word runs ----------

  /** The next word of a forward copy of `[lo, top)`. */
  method MoveWord(m: Memory, w: WordSize, dw: nat, sw: nat, ghost was: seq<byte>, ghost lo: nat, ghost top: nat, ghost r: Reach)
    requires Moved(m.cells[..], was, lo, Size(dw, w), Size(sw - dw, w)) && 0 <= lo + Size(sw - dw, w)
    requires lo <= Size(dw, w) && Size(dw, w) + w <= top <= m.cells.Length && top + Size(sw - dw, w) <= m.cells.Length
    requires ForwardSafe(lo, lo + Size(sw - dw, w), top - lo)
    requires Ruled(m.log, r) && Covers(r, lo, top, Size(sw - dw, w))
    modifies m, m.cells
    ensures Moved(m.cells[..], was, lo, Size(dw + 1, w), Size(sw - dw, w))
    ensures Ruled(m.log, r)
  {
    hide Ruled, Moved;
    var v := m.Load(sw, w, r);
    SourceIntact(m.cells[..], was, lo, Size(dw, w), Size(sw - dw, w), w);
    StoreNext(m, w, dw, v, was, lo, Size(sw - dw, w), r);
  }

  /** A fixed number of words in ascending order; the source enters an unrolled run at the right place. */
  method CopyWordsUpto(m: Memory, w: WordSize, dw: nat, sw: nat, words: nat, max: nat, ghost r: Reach)
    requires words <= max
    requires Size(dw + words, w) <= m.cells.Length && Size(sw + words, w) <= m.cells.Length
    requires ForwardSafe(dw, sw, words)
    requires Ruled(m.log, r) && Covers(r, Size(dw, w), Size(dw + words, w), Size(sw - dw, w))
    modifies m, m.cells
    ensures Moved(m.cells[..], old(m.cells[..]), Size(dw, w), Size(dw + words, w), Size(sw - dw, w))
    ensures Ruled(m.log, r)
  {
    hide Moved, Ruled;
    var de, se := dw + words - max, sw + words - max;
    ghost var was := m.cells[..];
    MoveOfNothing(was, Size(dw, w), Size(sw - dw, w));
    var k := words;
    while k > 0
      invariant Ruled(m.log, r)
      invariant 0 <= k <= words
      invariant Moved(m.cells[..], was, Size(dw, w), Size(dw + words - k, w), Size(sw - dw, w))
    {
      MoveWord(m, w, de + max - k, se + max - k, was, Size(dw, w), Size(dw + words, w), r);
      k := k - 1;
    }
  }

  /** The next sixteen words of a forward copy of `[lo, top)`. */
  method MoveSixteen(m: Memory, w: WordSize, dw: nat, sw: nat, ghost was: seq<byte>, ghost lo: nat, ghost top: nat, ghost r: Reach)
    requires Moved(m.cells[..], was, lo, Size(dw, w), Size(sw - dw, w)) && 0 <= lo + Size(sw - dw, w)
    requires lo <= Size(dw, w) && Size(dw + 16, w) <= top <= m.cells.Length && top + Size(sw - dw, w) <= m.cells.Length
    requires ForwardSafe(lo, lo + Size(sw - dw, w), top - lo)
    requires Ruled(m.log, r) && Covers(r, lo, top, Size(sw - dw, w))
    modifies m, m.cells
    ensures Moved(m.cells[..], was, lo, Size(dw + 16, w), Size(sw - dw, w))
    ensures Ruled(m.log, r)
  {
    hide Moved, Ruled;
    for i := 0 to 16
      invariant Ruled(m.log, r)
      invariant Moved(m.cells[..], was, lo, Size(dw + i, w), Size(sw - dw, w))
    {
      MoveWord(m, w, dw + i, sw + i, was, lo, top, r);
    }
  }

  /** Rounds of sixteen words, and the remainder; where source and destination stand afterwards. */
  method CopyWords(m: Memory, w: WordSize, dw0: nat, sw0: nat, words: nat, ghost r: Reach) returns (dw: nat, sw: nat)
    requires Size(dw0 + words, w) <= m.cells.Length && Size(sw0 + words, w) <= m.cells.Length
    requires ForwardSafe(dw0, sw0, words)
    requires Ruled(m.log, r) && Covers(r, Size(dw0, w), Size(dw0 + words, w), Size(sw0 - dw0, w))
    modifies m, m.cells
    ensures Moved(m.cells[..], old(m.cells[..]), Size(dw0, w), Size(dw0 + words, w), Size(sw0 - dw0, w))
    ensures dw == dw0 + words && sw == sw0 + words
    ensures Ruled(m.log, r)
  {
    hide Moved, Ruled, Covers;
    dw, sw := dw0, sw0;
    ghost var was, lo, top, delta := m.cells[..], Size(dw0, w), Size(dw0 + words, w), Size(sw0 - dw0, w);
    MoveOfNothing(was, lo, delta);
    var rounds, rest := words / 16, words % 16;
    ghost var i := 0;
    var end := dw + 16 * rounds;
    while dw != end
      invariant Ruled(m.log, r)
      invariant 0 <= i <= rounds && dw == dw0 + 16 * i && sw == sw0 + 16 * i
      invariant Moved(m.cells[..], was, lo, Size(dw, w), delta)
      decreases end - dw
    {
      MoveSixteen(m, w, dw, sw, was, lo, top, r);
      dw, sw, i := dw + 16, sw + 16, i + 1;
    }
    ghost var mid := m.cells[..];
    CoversPart(r, lo, top, delta, Size(dw, w), top);
    CopyWordsUpto(m, w, dw, sw, rest, 15, r);
    MoveAppends(m.cells[..], mid, was, lo, Size(dw, w), top, delta);
    dw, sw := dw + rest, sw + rest;
  }

  lemma SourceReached(r: Reach, lo: int, hi: int, delta: int, a: nat, unit: nat)
    requires Covers(r, lo, hi, delta) && lo < hi && a < hi + delta && lo + delta < a + unit
    ensures Reaches(r, a, unit)
  {
  }

  lemma CoversPart(r: Reach, lo: int, hi: int, delta: int, lo': int, hi': int)
    requires Covers(r, lo, hi, delta) && lo <= lo' && hi' <= hi
    ensures Covers(r, lo', hi', delta)
  {
  }

  /** Two moves of consecutive ranges, lowest first, make one. */
  lemma MoveAppends(now: seq<byte>, mid: seq<byte>, was: seq<byte>, lo: nat, hi: nat, top: nat, delta: int)
    requires Moved(mid, was, lo, hi, delta) && Moved(now, mid, hi, top, delta)
    requires delta >= 0 || top + delta <= lo
    requires 0 <= lo + delta && top + delta <= |was|
    ensures Moved(now, was, lo, top, delta)
  {
  }

  /** Single bytes in ascending order. */
  method CopyBytes(m: Memory, d: nat, s: nat, n: nat, ghost max: nat, ghost r: Reach)
    requires n <= max && d + n <= m.cells.Length && s + n <= m.cells.Length && ForwardSafe(d, s, n)
    requires Ruled(m.log, r) && Covers(r, d, d + n, s - d)
    modifies m, m.cells
    ensures Moved(m.cells[..], old(m.cells[..]), d, d + n, s - d)
    ensures Ruled(m.log, r)
  {
    hide Moved, Stored, Ruled;
    ghost var was := m.cells[..];
    MoveOfNothing(was, d, s - d);
    var de, se, k := d + n, s + n, n;
    while k > 0
      invariant Ruled(m.log, r)
      invariant 0 <= k <= n
      invariant Moved(m.cells[..], was, d, de - k, s - d)
    {
      SourceIntact(m.cells[..], was, d, de - k, s - d, 1);
      var v := m.LoadByte(se - k, r);
      ghost var mid := m.cells[..];
      assert [v] == mid[se - k..se - k + 1];
      m.StoreByte(de - k, v, r);
      StoreExtends(m.cells[..], mid, was, d, de - k, s - d, [v]);
      k := k - 1;
    }
  }

  // ---------- Masked stores ----------

  /** Storing bytes between others that are there already stores just those bytes. */
  lemma StoredWithin(now: seq<byte>, was: seq<byte>, a: nat, head: seq<byte>, v: seq<byte>, tail: seq<byte>)
    requires Stored(now, was, a, head + v + tail)
    requires head == was[a..a + |head|]
    requires tail == was[a + |head| + |v|..a + |head| + |v| + |tail|]
    ensures Stored(now, was, a + |head|, v)
  {
    var whole := head + v + tail;
    assert forall i :: 0 <= i < |v| ==> whole[|head| + i] == v[i];
  }

  /** The low `len` lanes of `v` into word `i`, the other lanes kept. */
  method ScatterAligned(m: Memory, w: WordSize, i: nat, v: Word, len: nat, ghost r: Reach)
    requires 1 <= len < w && |v| == w
    requires Size(i, w) + w <= m.cells.Length && Reaches(r, Size(i, w), w)
    requires Ruled(m.log, r)
    modifies m, m.cells
    ensures Stored(m.cells[..], old(m.cells[..]), Size(i, w), v[..len])
    ensures Ruled(m.log, r)
  {
    hide Or, And, Not, ShiftUp, ShiftDown, LowMask, Repeat, Stored, Ruled, Reaches;
    var x := m.Load(i, w, r);
    var mask := LowMask(len, w);
    BlendLow(x, v, len, w);
    ghost var was := m.cells[..];
    assert v[..len] + x[len..] == [] + v[..len] + x[len..];
    m.Store(i, Or(And(x, Not(mask)), And(v, mask)), w, r);
    StoredWithin(m.cells[..], was, Size(i, w), [], v[..len], x[len..]);
  }

  /** The first lanes of `v` into the lanes of word `i` from `k` up. */
  method StoreFromLane(m: Memory, w: WordSize, i: nat, v: Word, k: nat, ghost r: Reach)
    requires 1 <= k < w && |v| == w
    requires Size(i, w) + w <= m.cells.Length && Reaches(r, Size(i, w), w)
    requires Ruled(m.log, r)
    modifies m, m.cells
    ensures Stored(m.cells[..], old(m.cells[..]), Size(i, w) + k, v[..w - k])
    ensures Ruled(m.log, r)
  {
    hide Or, And, Not, ShiftUp, ShiftDown, LowMask, Repeat, Stored, Ruled, Reaches;
    var x := m.Load(i, w, r);
    var mask := ShiftUp(Repeat(255, w), k);
    BlendShifted(x, v, k, w);
    ghost var was := m.cells[..];
    assert x[..k] + v[..w - k] == x[..k] + v[..w - k] + [];
    m.Store(i, Or(And(x, Not(mask)), ShiftUp(v, k)), w, r);
    StoredWithin(m.cells[..], was, Size(i, w), x[..k], v[..w - k], []);
  }

  /** The last `k` lanes of `v` into the low lanes of word `i`. */
  method StoreToLane(m: Memory, w: WordSize, i: nat, v: Word, k: nat, ghost r: Reach)
    requires 1 <= k < w && |v| == w
    requires Size(i, w) + w <= m.cells.Length && Reaches(r, Size(i, w), w)
    requires Ruled(m.log, r)
    modifies m, m.cells
    ensures Stored(m.cells[..], old(m.cells[..]), Size(i, w), v[w - k..])
    ensures Ruled(m.log, r)
  {
    hide Or, And, Not, ShiftUp, ShiftDown, LowMask, Repeat, Stored, Ruled, Reaches;
    var x := m.Load(i, w, r);
    var mask := ShiftUp(Repeat(255, w), k);
    BlendTail(x, v, k, w);
    ghost var was := m.cells[..];
    assert v[w - k..] + x[k..] == [] + v[w - k..] + x[k..];
    m.Store(i, Or(And(x, mask), ShiftDown(v, w - k)), w, r);
    StoredWithin(m.cells[..], was, Size(i, w), [], v[w - k..], x[k..]);
  }

  // ---------- 32 bytes between any ends ----------

  /** The `w` bytes at lane `off` of word `i`, re-laned from two words when `off` is not zero. */
  method LoadLaned(m: Memory, w: WordSize, i: nat, off: nat, ghost r: Reach) returns (v: Word)
    requires off < w && r.s <= Size(i, w) + off && Size(i, w) + off + w <= r.sEnd
    requires (if off == 0 then Size(i + 1, w) else Size(i + 2, w)) <= m.cells.Length
    requires Ruled(m.log, r)
    modifies m
    ensures v == m.cells[..][Size(i, w) + off..Size(i, w) + off + w]
    ensures Ruled(m.log, r)
  {
    hide Or, ShiftUp, ShiftDown, Ruled;
    var x := m.Load(i, w, r);
    if off == 0 { return x; }
    var y := m.Load(i + 1, w, r);
    Relane(x, y, off);
    JoinWords(m.cells[..], x, y, Size(i, w), Size(i + 1, w), off, Size(i, w) + off);
    v := Or(ShiftDown(x, off), ShiftUp(y, w - off));
  }

  /** The 32 bytes at `s`, in words. */
  method Read32(m: Memory, w: WordSize, s: nat, ghost r: Reach) returns (v: seq<Word>)
    requires s + 32 <= m.cells.Length
    requires Phase(s, w) != 0 ==> Size(WordsIn(s, w) + N32(w) + 1, w) <= m.cells.Length
    requires Ruled(m.log, r) && r.s <= s && s + 32 <= r.sEnd
    modifies m
    ensures |v| == N32(w)
    ensures forall i :: 0 <= i < |v| ==> v[i] == m.cells[..][s + Size(i, w)..s + Size(i, w) + w]
    ensures Ruled(m.log, r)
  {
    var soff, sw := Phase(s, w), WordsIn(s, w);
    assert s == Size(sw, w) + soff;
    v := [];
    for i := 0 to N32(w)
      invariant Ruled(m.log, r)
      invariant |v| == i
      invariant forall k :: 0 <= k < i ==> v[k] == m.cells[..][s + Size(k, w)..s + Size(k, w) + w]
    {
      var x := LoadLaned(m, w, sw + i, soff, r);
      v := v + [x];
    }
  }

  /** 32 bytes held in words, stored at a word boundary. */
  method Write32Aligned(m: Memory, w: WordSize, dw: nat, v: seq<Word>, ghost was: seq<byte>, ghost s: nat, ghost r: Reach)
    requires Size(dw, w) + 32 <= m.cells.Length && m.cells[..] == was && s + 32 <= |was|
    requires |v| == N32(w)
    requires forall i :: 0 <= i < |v| ==> v[i] == was[s + Size(i, w)..s + Size(i, w) + w]
    requires Ruled(m.log, r) && r.d <= Size(dw, w) && Size(dw, w) + 32 <= r.dEnd
    modifies m, m.cells
    ensures Moved(m.cells[..], was, Size(dw, w), Size(dw, w) + 32, s - Size(dw, w))
    ensures Ruled(m.log, r)
  {
    hide Moved, Ruled, Stored;
    ghost var d := Size(dw, w);
    MoveOfNothing(was, d, s - d);
    for i := 0 to N32(w)
      invariant Ruled(m.log, r)
      invariant Moved(m.cells[..], was, d, Size(dw + i, w), s - d)
    {
      StoreNext(m, w, dw + i, v[i], was, d, s - d, r);
    }
  }

  /** The end of one source word and the start of the next are the source bytes between. */
  lemma JoinWords(was: seq<byte>, x: Word, y: Word, a: nat, b: nat, k: nat, at: nat)
    requires |x| == |y| == b - a && k <= |x| && b + |y| <= |was| && at == a + k
    requires x == was[a..a + |x|] && y == was[b..b + |y|]
    ensures x[k..] + y[..k] == was[at..at + |x|]
  {
    var joined := x[k..] + y[..k];
    forall i | 0 <= i < |x|
      ensures joined[i] == was[at + i]
    {
      if i < |x| - k { assert joined[i] == x[k + i]; } else { assert joined[i] == y[i - (|x| - k)]; }
    }
  }

  /** The words of a 32-byte copy from lane `w - k` of word `dw` on, after its first and before its last. */
  method StoreRelaned(m: Memory, w: WordSize, dw: nat, k: nat, v: seq<Word>, ghost was: seq<byte>, ghost d: nat, ghost s: nat, ghost r: Reach)
    requires 0 < k < w && d == Size(dw + 1, w) - k
    requires d + 32 <= m.cells.Length && s + 32 <= |was| == m.cells.Length
    requires |v| == N32(w)
    requires forall i :: 0 <= i < |v| ==> v[i] == was[s + Size(i, w)..s + Size(i, w) + w]
    requires Moved(m.cells[..], was, d, Size(dw + 1, w), s - d)
    requires Ruled(m.log, r) && r.d <= d && d + 32 <= r.dEnd
    modifies m, m.cells
    ensures Moved(m.cells[..], was, d, Size(dw + N32(w), w), s - d)
    ensures Ruled(m.log, r)
  {
    hide Moved, Ruled, Stored, Or, ShiftDown, ShiftUp;
    for i := 1 to N32(w)
      invariant Ruled(m.log, r)
      invariant Moved(m.cells[..], was, d, Size(dw + i, w), s - d)
    {
      Relane(v[i - 1], v[i], k);
      JoinWords(was, v[i - 1], v[i], s + Size(i - 1, w), s + Size(i, w), k, Size(dw + i, w) + (s - d));
      StoreNext(m, w, dw + i, Or(ShiftDown(v[i - 1], k), ShiftUp(v[i], w - k)), was, d, s - d, r);
    }
  }

  /** The masked first word of a copy of `[d, top)`. */
  method StoreFirst(m: Memory, w: WordSize, i: nat, doff: nat, x: Word, ghost was: seq<byte>, ghost d: nat, ghost top: nat, ghost s: nat, ghost r: Reach)
    requires 0 < doff < w && Size(i, w) + w <= m.cells.Length && d == Size(i, w) + doff && d < top
    requires m.cells[..] == was && s + w <= m.cells.Length && x == was[s..s + w]
    requires Ruled(m.log, r) && r.d <= d && top <= r.dEnd
    modifies m, m.cells
    ensures Moved(m.cells[..], was, d, Size(i + 1, w), s - d)
    ensures Ruled(m.log, r)
  {
    hide Moved, Ruled, Stored;
    MoveOfNothing(was, d, s - d);
    StoreFromLane(m, w, i, x, doff, r);
    StoreExtends(m.cells[..], was, was, d, d, s - d, x[..w - doff]);
  }

  /** The masked last word of a copy of `[lo, top)`. */
  method StoreLast(m: Memory, w: WordSize, i: nat, doff: nat, x: Word, ghost was: seq<byte>, ghost lo: nat, ghost top: nat, ghost delta: int, ghost r: Reach)
    requires 0 < doff < w && Size(i, w) + w <= m.cells.Length && top == Size(i, w) + doff && lo < top
    requires |was| == m.cells.Length && 0 <= lo + delta && w <= top + delta <= m.cells.Length
    requires x == was[top + delta - w..top + delta]
    requires Moved(m.cells[..], was, lo, Size(i, w), delta)
    requires Ruled(m.log, r) && r.d <= lo && top <= r.dEnd
    modifies m, m.cells
    ensures Moved(m.cells[..], was, lo, top, delta)
    ensures Ruled(m.log, r)
  {
    hide Moved, Ruled, Stored;
    ghost var mid := m.cells[..];
    StoreToLane(m, w, i, x, doff, r);
    StoreExtends(m.cells[..], mid, was, lo, Size(i, w), delta, x[w - doff..]);
  }

  /** 32 bytes held in words, stored from lane `doff` of a word: masked ends and a re-laned middle. */
  method Write32Laned(m: Memory, w: WordSize, dw: nat, doff: nat, v: seq<Word>, ghost was: seq<byte>, ghost d: nat, ghost s: nat, ghost r: Reach)
    requires d == Size(dw, w) + doff && 0 < doff < w && Size(dw + 1, w) + 32 <= m.cells.Length && m.cells[..] == was && s + 32 <= |was|
    requires |v| == N32(w)
    requires forall i :: 0 <= i < |v| ==> v[i] == was[s + Size(i, w)..s + Size(i, w) + w]
    requires Ruled(m.log, r) && r.d <= d && d + 32 <= r.dEnd
    modifies m, m.cells
    ensures Moved(m.cells[..], was, d, d + 32, s - d)
    ensures Ruled(m.log, r)
  {
    hide Moved, Ruled, Stored;
    var n, k := N32(w), w - doff;
    assert v[0] == was[s..s + w] && v[n - 1] == was[s + 32 - w..s + 32];
    StoreFirst(m, w, dw, doff, v[0], was, d, d + 32, s, r);
    StoreRelaned(m, w, dw, k, v, was, d, s, r);
    StoreLast(m, w, dw + n, doff, v[n - 1], was, d, d + 32, s - d, r);
  }

  /** In a memory of whole words, every word holding one of 32 bytes is inside it. */
  lemma Fits32(a: nat, total: nat, w: WordSize)
    requires a + 32 <= Size(total, w)
    ensures Phase(a, w) != 0 ==> Size(WordsIn(a, w) + 1, w) + 32 <= Size(total, w)
  {
    hide Phase, WordsIn, N32;
    var q, n := WordsIn(a, w), N32(w);
    assert a == Size(q, w) + Phase(a, w);
    if Phase(a, w) != 0 { WordInside(q + n, total, w); }
  }

  /** The source is held in words before anything is stored; so the ranges may overlap in any way. */
  method Copy32Any(m: Memory, w: WordSize, d: nat, s: nat, ghost total: nat, ghost r: Reach)
    requires d + 32 <= m.cells.Length && s + 32 <= m.cells.Length && m.cells.Length == Size(total, w)
    requires Ruled(m.log, r) && Covers(r, d, d + 32, s - d)
    modifies m, m.cells
    ensures Moved(m.cells[..], old(m.cells[..]), d, d + 32, s - d)
    ensures Ruled(m.log, r)
  {
    hide Moved, Ruled;
    Fits32(s, total, w);
    Fits32(d, total, w);
    var v := Read32(m, w, s, r);
    var doff, dw := Phase(d, w), WordsIn(d, w);
    if doff == 0 {
      Write32Aligned(m, w, dw, v, m.cells[..], s, r);
    } else {
      Write32Laned(m, w, dw, doff, v, m.cells[..], d, s, r);
    }
  }

  // ---------- Copies out of phase ----------

  /** The lanes of `x`, read as word `i`, that hold source bytes below `end` hold them as they were. */
  ghost predicate Fetched(x: Word, was: seq<byte>, w: WordSize, i: nat, from: nat, end: int) {
    && |x| == w
    && forall j :: from <= j < w && Size(i, w) + j < end <= |was| ==> x[j] == was[Size(i, w) + j]
  }

  /** A word of the source, ahead of a forward copy, read before the copy reaches it. */
  method Fetch(m: Memory, w: WordSize, i: nat, ghost was: seq<byte>, ghost lo: nat, ghost hi: nat, ghost top: nat, ghost delta: int, ghost r: Reach)
    returns (x: Word)
    requires Moved(m.cells[..], was, lo, hi, delta) && 0 <= lo + delta
    requires Size(i + 1, w) <= m.cells.Length == |was| && hi <= top && Reaches(r, Size(i, w), w)
    requires top + delta <= |was| && ForwardSafe(lo, lo + delta, top - lo)
    requires hi == lo || hi + delta <= Size(i, w)
    requires Ruled(m.log, r)
    modifies m
    ensures Fetched(x, was, w, i, 0, top + delta)
    ensures Ruled(m.log, r)
  {
    hide Ruled, Reaches;
    x := m.Load(i, w, r);
  }

  /** One re-laned word: the end of the word carried along and the start of the next. */
  method MoveRelaned(m: Memory, w: WordSize, dw: nat, sw: nat, phase: nat, w0: Word,
                     ghost was: seq<byte>, ghost lo: nat, ghost top: nat, ghost delta: int, ghost r: Reach) returns (w1: Word)
    requires 0 < phase < w && Size(sw, w) + phase == Size(dw, w) + delta
    requires lo <= Size(dw, w) && Size(dw + 1, w) <= top <= m.cells.Length == |was|
    requires 0 <= lo + delta && top + delta <= m.cells.Length && Size(sw + 2, w) <= m.cells.Length
    requires ForwardSafe(lo, lo + delta, top - lo) && Moved(m.cells[..], was, lo, Size(dw, w), delta)
    requires Fetched(w0, was, w, sw, phase, top + delta)
    requires Ruled(m.log, r) && Covers(r, lo, top, delta)
    modifies m, m.cells
    ensures Moved(m.cells[..], was, lo, Size(dw + 1, w), delta)
    ensures Fetched(w1, was, w, sw + 1, 0, top + delta)
    ensures Ruled(m.log, r)
  {
    hide Moved, Ruled, Or, ShiftUp, ShiftDown;
    w1 := Fetch(m, w, sw + 1, was, lo, Size(dw, w), top, delta, r);
    Relane(w0, w1, phase);
    assert w0[phase..] + w1[..phase] == was[Size(dw, w) + delta..Size(dw, w) + delta + w];
    StoreNext(m, w, dw, Or(ShiftDown(w0, phase), ShiftUp(w1, w - phase)), was, lo, delta, r);
  }

  lemma TailOfOne(w0: Word, was: seq<byte>, w: WordSize, sw: nat, phase: nat, rest: nat, at: nat)
    requires phase + rest <= w && at == Size(sw, w) + phase && at + rest <= |was|
    requires Fetched(w0, was, w, sw, phase, at + rest)
    ensures ShiftDown(w0, phase)[..rest] == was[at..at + rest]
  {
  }

  lemma TailOfTwo(w0: Word, w1: Word, was: seq<byte>, w: WordSize, sw: nat, phase: nat, rest: nat, at: nat)
    requires phase < w && rest < w && phase + rest > w && at == Size(sw, w) + phase && at + rest <= |was|
    requires Fetched(w0, was, w, sw, phase, at + rest) && Fetched(w1, was, w, sw + 1, 0, at + rest)
    ensures (w0[phase..] + w1[..phase])[..rest] == was[at..at + rest]
  {
    assert Size(sw + 1, w) == Size(sw, w) + w;
  }

  /** The last `rest` bytes, from the word carried along and, if they run into it, the next. */
  method TailRelaned(m: Memory, w: WordSize, dw: nat, sw: nat, phase: nat, rest: nat, w0: Word,
                     ghost was: seq<byte>, ghost lo: nat, ghost delta: int, ghost r: Reach)
    requires 0 < phase < w && 0 < rest < w && Size(sw, w) + phase == Size(dw, w) + delta
    requires lo <= Size(dw, w) && Size(dw + 1, w) <= m.cells.Length == |was|
    requires 0 <= lo + delta && Size(dw, w) + rest + delta <= m.cells.Length
    requires phase + rest > w ==> Size(sw + 2, w) <= m.cells.Length
    requires ForwardSafe(lo, lo + delta, Size(dw, w) + rest - lo) && Moved(m.cells[..], was, lo, Size(dw, w), delta)
    requires Fetched(w0, was, w, sw, phase, Size(dw, w) + rest + delta)
    requires Ruled(m.log, r) && Covers(r, lo, Size(dw, w) + rest, delta)
    modifies m, m.cells
    ensures Moved(m.cells[..], was, lo, Size(dw, w) + rest, delta)
    ensures Ruled(m.log, r)
  {
    hide Moved, Ruled, Stored, Or, ShiftUp, ShiftDown;
    ghost var top, at := Size(dw, w) + rest, Size(dw, w) + delta;
    var v := ShiftDown(w0, phase);
    if phase + rest > w {
      var w1 := Fetch(m, w, sw + 1, was, lo, Size(dw, w), top, delta, r);
      v := Or(v, ShiftUp(w1, w - phase));
      Relane(w0, w1, phase);
      TailOfTwo(w0, w1, was, w, sw, phase, rest, at);
    } else {
      TailOfOne(w0, was, w, sw, phase, rest, at);
    }
    ghost var mid := m.cells[..];
    ScatterAligned(m, w, dw, v, rest, r);
    StoreExtends(m.cells[..], mid, was, lo, Size(dw, w), delta, v[..rest]);
  }

  /** Whole words `[dw0, end)` of the copy `[lo, top)`, re-laned; returns the source position and the carried word. */
  method MoveWordsRelaned(m: Memory, w: WordSize, dw0: nat, end: nat, sw0: nat, phase: nat,
                          ghost was: seq<byte>, ghost top: nat, ghost total: nat, ghost r: Reach) returns (sw: nat, w0: Word)
    requires 0 < phase < w && m.cells.Length == Size(total, w) && m.cells[..] == was
    requires dw0 <= end && Size(dw0, w) < top && Size(end, w) <= top <= m.cells.Length
    requires top + Size(sw0 - dw0, w) + phase <= m.cells.Length
    requires ForwardSafe(Size(dw0, w), Size(sw0, w) + phase, top - Size(dw0, w))
    requires Ruled(m.log, r) && Covers(r, Size(dw0, w), top, Size(sw0 - dw0, w) + phase)
    modifies m, m.cells
    ensures sw == sw0 + (end - dw0)
    ensures Moved(m.cells[..], was, Size(dw0, w), Size(end, w), Size(sw0 - dw0, w) + phase)
    ensures Fetched(w0, was, w, sw, phase, top + Size(sw0 - dw0, w) + phase)
    ensures Ruled(m.log, r)
  {
    hide Moved, Ruled, Fetched, Covers, Reaches;
    ghost var lo, delta := Size(dw0, w), Size(sw0 - dw0, w) + phase;
    assert lo + delta == Size(sw0, w) + phase;
    MoveOfNothing(was, lo, delta);
    w0 := FirstRelaned(m, w, sw0, phase, was, lo, top, delta, total, r);
    w0 := RestRelaned(m, w, dw0, end, sw0, phase, w0, was, lo, top, delta, total, r);
    sw := sw0 + (end - dw0);
  }

  /** The word the source starts in. */
  method FirstRelaned(m: Memory, w: WordSize, sw: nat, phase: nat, ghost was: seq<byte>, ghost lo: nat, ghost top: nat,
                      ghost delta: int, ghost total: nat, ghost r: Reach) returns (w0: Word)
    requires phase < w && lo + delta == Size(sw, w) + phase && lo < top && m.cells.Length == Size(total, w) == |was|
    requires top + delta <= m.cells.Length && Moved(m.cells[..], was, lo, lo, delta)
    requires ForwardSafe(lo, lo + delta, top - lo) && Ruled(m.log, r) && Covers(r, lo, top, delta)
    modifies m
    ensures Fetched(w0, was, w, sw, phase, top + delta)
    ensures Ruled(m.log, r)
  {
    hide Moved, Ruled, Fetched, Covers, Reaches;
    SourceReached(r, lo, top, delta, Size(sw, w), w);
    WordInside(sw, total, w);
    w0 := Fetch(m, w, sw, was, lo, lo, top, delta, r);
    FetchedFrom(w0, was, w, sw, phase, top + delta);
  }

  /** The words from there on, each made of the word carried along and the next. */
  method RestRelaned(m: Memory, w: WordSize, dw0: nat, end: nat, sw0: nat, phase: nat, first: Word,
                     ghost was: seq<byte>, ghost lo: nat, ghost top: nat, ghost delta: int, ghost total: nat, ghost r: Reach)
    returns (w0: Word)
    requires 0 < phase < w && m.cells.Length == Size(total, w) == |was| && dw0 <= end
    requires lo == Size(dw0, w) && delta == Size(sw0 - dw0, w) + phase && Size(end, w) <= top <= m.cells.Length
    requires 0 <= lo + delta && top + delta <= m.cells.Length && ForwardSafe(lo, lo + delta, top - lo)
    requires Moved(m.cells[..], was, lo, lo, delta) && Fetched(first, was, w, sw0, phase, top + delta)
    requires Ruled(m.log, r) && Covers(r, lo, top, delta)
    modifies m, m.cells
    ensures Moved(m.cells[..], was, lo, Size(end, w), delta)
    ensures Fetched(w0, was, w, sw0 + (end - dw0), phase, top + delta)
    ensures Ruled(m.log, r)
  {
    hide Moved, Ruled, Fetched, Covers, Reaches, Size, ForwardSafe;
    var dw, sw := dw0, sw0;
    w0 := first;
    while dw != end
      invariant Ruled(m.log, r)
      invariant dw0 <= dw <= end && sw == sw0 + (dw - dw0) && lo <= Size(dw, w)
      invariant Moved(m.cells[..], was, lo, Size(dw, w), delta)
      invariant Fetched(w0, was, w, sw, phase, top + delta)
      decreases end - dw
    {
      InStep(dw0, dw, end, sw0, sw, w);
      w0 := NextRelaned(m, w, dw, sw, phase, w0, was, lo, top, delta, total, r);
      dw, sw := dw + 1, sw + 1;
    }
  }

  /** Source and destination words keep their distance. */
  lemma InStep(dw0: nat, dw: nat, end: nat, sw0: nat, sw: nat, w: WordSize)
    requires dw0 <= dw < end && sw - dw == sw0 - dw0
    ensures Size(sw, w) == Size(dw, w) + Size(sw0 - dw0, w) && Size(dw0, w) <= Size(dw, w) <= Size(dw + 1, w) <= Size(end, w)
  {
  }

  method NextRelaned(m: Memory, w: WordSize, dw: nat, sw: nat, phase: nat, w0: Word,
                     ghost was: seq<byte>, ghost lo: nat, ghost top: nat, ghost delta: int, ghost total: nat, ghost r: Reach) returns (w1: Word)
    requires 0 < phase < w && Size(sw, w) + phase == Size(dw, w) + delta && m.cells.Length == Size(total, w)
    requires lo <= Size(dw, w) && Size(dw + 1, w) <= top <= m.cells.Length == |was|
    requires 0 <= lo + delta && top + delta <= m.cells.Length
    requires ForwardSafe(lo, lo + delta, top - lo) && Moved(m.cells[..], was, lo, Size(dw, w), delta)
    requires Fetched(w0, was, w, sw, phase, top + delta)
    requires Ruled(m.log, r) && Covers(r, lo, top, delta)
    modifies m, m.cells
    ensures Moved(m.cells[..], was, lo, Size(dw + 1, w), delta)
    ensures Fetched(w1, was, w, sw + 1, phase, top + delta)
    ensures Ruled(m.log, r)
  {
    hide Moved, Ruled, Fetched;
    WordInside(sw + 1, total, w);
    w1 := MoveRelaned(m, w, dw, sw, phase, w0, was, lo, top, delta, r);
    FetchedFrom(w1, was, w, sw + 1, phase, top + delta);
  }

  /** An aligned destination and a source at another phase. */
  method CopyRelaned(m: Memory, w: WordSize, dw: nat, s: nat, n: nat, ghost total: nat, ghost r: Reach)
    requires Phase(s, w) != 0 && m.cells.Length == Size(total, w)
    requires Size(dw, w) + n <= m.cells.Length && s + n <= m.cells.Length && n > 0
    requires ForwardSafe(Size(dw, w), s, n)
    requires Ruled(m.log, r) && Covers(r, Size(dw, w), Size(dw, w) + n, s - Size(dw, w))
    modifies m, m.cells
    ensures Moved(m.cells[..], old(m.cells[..]), Size(dw, w), Size(dw, w) + n, s - Size(dw, w))
    ensures Ruled(m.log, r)
  {
    hide Moved, Ruled, Fetched;
    ghost var was := m.cells[..];
    var phase, sw0 := Phase(s, w), WordsIn(s, w);
    var words, rest := WordsIn(n, w), Phase(n, w);
    assert n == Size(words, w) + rest && s == Size(sw0, w) + phase;
    var sw, w0 := MoveWordsRelaned(m, w, dw, dw + words, sw0, phase, was, Size(dw, w) + n, total, r);
    if rest != 0 {
      WordInside(dw + words, total, w);
      if phase + rest > w { WordInside(sw + 1, total, w); }
      TailRelaned(m, w, dw + words, sw, phase, rest, w0, was, Size(dw, w), s - Size(dw, w), r);
    }
  }

  lemma FetchedFrom(x: Word, was: seq<byte>, w: WordSize, i: nat, from: nat, end: int)
    requires Fetched(x, was, w, i, 0, end)
    ensures Fetched(x, was, w, i, from, end)
  {
  }

  /** A word that starts inside a memory of whole words ends inside it. */
  lemma WordInside(i: nat, total: nat, w: WordSize)
    requires Size(i, w) < Size(total, w)
    ensures Size(i + 1, w) <= Size(total, w)
  {
  }

  /** The masked last word of a copy between aligned ends. */
  method TailAligned(m: Memory, w: WordSize, dw: nat, sw: nat, rest: nat, ghost was: seq<byte>, ghost lo: nat, ghost total: nat, ghost r: Reach)
    requires rest < w && m.cells.Length == Size(total, w) == |was|
    requires lo <= Size(dw, w) && 0 <= lo + Size(sw - dw, w)
    requires Size(dw, w) + rest <= m.cells.Length && Size(sw, w) + rest <= m.cells.Length
    requires ForwardSafe(lo, lo + Size(sw - dw, w), Size(dw, w) + rest - lo)
    requires Moved(m.cells[..], was, lo, Size(dw, w), Size(sw - dw, w))
    requires Ruled(m.log, r) && Covers(r, lo, Size(dw, w) + rest, Size(sw - dw, w))
    modifies m, m.cells
    ensures Moved(m.cells[..], was, lo, Size(dw, w) + rest, Size(sw - dw, w))
    ensures Ruled(m.log, r)
  {
    hide Moved, Ruled, Stored;
    if rest != 0 {
      WordInside(dw, total, w);
      WordInside(sw, total, w);
      ghost var top, delta, mid := Size(dw, w) + rest, Size(sw - dw, w), m.cells[..];
      var v := Fetch(m, w, sw, was, lo, Size(dw, w), top, delta, r);
      ScatterAligned(m, w, dw, v, rest, r);
      assert v[..rest] == was[Size(sw, w)..Size(sw, w) + rest];
      StoreExtends(m.cells[..], mid, was, lo, Size(dw, w), delta, v[..rest]);
    }
  }

  /** Words of any count, then the masked last one. */
  method CopyAligned(m: Memory, w: WordSize, dw: nat, sw: nat, n: nat, ghost total: nat, ghost r: Reach)
    requires m.cells.Length == Size(total, w)
    requires Size(dw, w) + n <= m.cells.Length && Size(sw, w) + n <= m.cells.Length
    requires ForwardSafe(Size(dw, w), Size(sw, w), n)
    requires Ruled(m.log, r) && Covers(r, Size(dw, w), Size(dw, w) + n, Size(sw - dw, w))
    modifies m, m.cells
    ensures Moved(m.cells[..], old(m.cells[..]), Size(dw, w), Size(dw, w) + n, Size(sw - dw, w))
    ensures Ruled(m.log, r)
  {
    hide Moved, Ruled;
    var words, rest := WordsIn(n, w), Phase(n, w);
    assert n == Size(words, w) + rest;
    ghost var was := m.cells[..];
    var dw', sw' := CopyWords(m, w, dw, sw, words, r);
    TailAligned(m, w, dw', sw', rest, was, Size(dw, w), total, r);
  }

  /** The copy once the destination has been brought to a word boundary. */
  method CopyUnaligned(m: Memory, w: WordSize, d: nat, s: nat, n: nat, ghost total: nat, ghost r: Reach)
    requires n >= 16 && m.cells.Length == Size(total, w)
    requires d + n <= m.cells.Length && s + n <= m.cells.Length && ForwardSafe(d, s, n)
    requires Ruled(m.log, r) && Covers(r, d, d + n, s - d)
    modifies m, m.cells
    ensures Moved(m.cells[..], old(m.cells[..]), d, d + n, s - d)
    ensures Ruled(m.log, r)
  {
    hide Moved, Ruled;
    if w > 4 && n == 20 && d % 4 == 0 && s % 4 == 0 {
      // An address in 4-byte words.
      CopyWordsUpto(m, 4, d / 4, s / 4, 5, 5, r);
      return;
    }
    var phase, dw := Phase(d, w), WordsIn(d, w);
    assert d == Size(dw, w) + phase;
    if phase == 0 {
      CopyBody(m, w, dw, s, n, total, r);
    } else {
      var head := w - phase;
      ghost var was := m.cells[..];
      CopyBytes(m, d, s, head, w - 1, r);
      ghost var mid := m.cells[..];
      CopyBody(m, w, dw + 1, s + head, n - head, total, r);
      MoveAppends(m.cells[..], mid, was, d, d + head, d + n, s - d);
    }
  }

  /** From an aligned destination: words in phase, or re-laned. */
  method CopyBody(m: Memory, w: WordSize, dw: nat, s: nat, n: nat, ghost total: nat, ghost r: Reach)
    requires n > 0 && m.cells.Length == Size(total, w)
    requires Size(dw, w) + n <= m.cells.Length && s + n <= m.cells.Length && ForwardSafe(Size(dw, w), s, n)
    requires Ruled(m.log, r) && Covers(r, Size(dw, w), Size(dw, w) + n, s - Size(dw, w))
    modifies m, m.cells
    ensures Moved(m.cells[..], old(m.cells[..]), Size(dw, w), Size(dw, w) + n, s - Size(dw, w))
    ensures Ruled(m.log, r)
  {
    hide Moved, Ruled;
    if Phase(s, w) == 0 {
      var sw := WordsIn(s, w);
      assert Size(sw - dw, w) == s - Size(dw, w);
      CopyAligned(m, w, dw, sw, n, total, r);
    } else {
      CopyRelaned(m, w, dw, s, n, total, r);
    }
  }

  // ---------- 32-byte blocks ----------

  /** The source of the next bytes of a forward copy is as it was. */
  lemma SourceIntact(mid: seq<byte>, was: seq<byte>, lo: nat, hi: nat, delta: int, n: nat)
    requires Moved(mid, was, lo, hi, delta) && 0 <= hi + delta && hi + delta + n <= |mid|
    requires delta >= 0 || hi + n + delta <= lo
    ensures |mid| == |was| && mid[hi + delta..hi + delta + n] == was[hi + delta..hi + delta + n]
  {
    assert forall i :: hi + delta <= i < hi + delta + n ==> mid[i] == was[i];
  }

  /** A fixed number of blocks in ascending order. */
  method BlocksUpto(m: Memory, db: nat, sb: nat, blocks: nat, max: nat, ghost was: seq<byte>, ghost lo: nat, ghost r: Reach)
    requires blocks <= max && db != sb && 32 * (db + blocks) <= m.cells.Length && 32 * (sb + blocks) <= m.cells.Length
    requires lo <= 32 * db && 0 <= lo + 32 * (sb - db) && Moved(m.cells[..], was, lo, 32 * db, 32 * (sb - db))
    requires ForwardSafe(lo, lo + 32 * (sb - db), 32 * (db + blocks) - lo)
    requires Ruled(m.log, r) && Covers(r, lo, 32 * (db + blocks), 32 * (sb - db))
    modifies m, m.cells
    ensures Moved(m.cells[..], was, lo, 32 * (db + blocks), 32 * (sb - db))
    ensures Ruled(m.log, r)
  {
    hide Moved, Ruled, Stored;
    var de: int, se: int := db + blocks - max, sb + blocks - max;
    ghost var delta := 32 * (sb - db);
    var k := blocks;
    while k > 0
      invariant Ruled(m.log, r)
      invariant 0 <= k <= blocks
      invariant Moved(m.cells[..], was, lo, 32 * (db + blocks - k), delta)
    {
      NextBlock(m, de + max - k, se + max - k, was, lo, delta, r);
      k := k - 1;
    }
  }

  method NextBlock(m: Memory, db: nat, sb: nat, ghost was: seq<byte>, ghost lo: nat, ghost delta: int, ghost r: Reach)
    requires db != sb && 32 * db + 32 <= m.cells.Length && 32 * sb + 32 <= m.cells.Length && delta == 32 * (sb - db)
    requires 0 <= lo + delta && Moved(m.cells[..], was, lo, 32 * db, delta) && (delta >= 0 || 32 * sb + 32 <= lo)
    requires Ruled(m.log, r) && Reaches(r, 32 * db, 32) && Reaches(r, 32 * sb, 32)
    modifies m, m.cells
    ensures Moved(m.cells[..], was, lo, 32 * (db + 1), delta)
    ensures Ruled(m.log, r)
  {
    hide Moved, Ruled, Stored;
    ghost var mid := m.cells[..];
    SourceIntact(mid, was, lo, 32 * db, delta, 32);
    m.CopyBlock(db, sb, r);
    StoreExtends(m.cells[..], mid, was, lo, 32 * db, delta, mid[32 * sb..32 * sb + 32]);
  }

  /** Rounds of sixteen blocks, and the remainder. */
  method CopyBlocks(m: Memory, db0: nat, sb0: nat, blocks: nat, ghost was: seq<byte>, ghost lo: nat, ghost r: Reach)
    requires db0 != sb0 && 32 * (db0 + blocks) <= m.cells.Length && 32 * (sb0 + blocks) <= m.cells.Length
    requires lo <= 32 * db0 && 0 <= lo + 32 * (sb0 - db0) && Moved(m.cells[..], was, lo, 32 * db0, 32 * (sb0 - db0))
    requires ForwardSafe(lo, lo + 32 * (sb0 - db0), 32 * (db0 + blocks) - lo)
    requires Ruled(m.log, r) && Covers(r, lo, 32 * (db0 + blocks), 32 * (sb0 - db0))
    modifies m, m.cells
    ensures Moved(m.cells[..], was, lo, 32 * (db0 + blocks), 32 * (sb0 - db0))
    ensures Ruled(m.log, r)
  {
    hide Moved, Ruled;
    var db, sb, i := db0, sb0, blocks / 16;
    while i != 0
      invariant Ruled(m.log, r)
      invariant 0 <= i && db0 <= db && db + 16 * i + blocks % 16 == db0 + blocks && sb - db == sb0 - db0
      invariant Moved(m.cells[..], was, lo, 32 * db, 32 * (sb0 - db0))
    {
      BlocksUpto(m, db, sb, 16, 16, was, lo, r);
      db, sb, i := db + 16, sb + 16, i - 1;
    }
    BlocksUpto(m, db, sb, blocks % 16, 15, was, lo, r);
  }

  /** The word index of a block. */
  function BlockWord(b: int, w: WordSize): (k: int)
    ensures Size(k, w) == 32 * b
  {
    if w == 4 then 8 * b else 4 * b
  }

  /** Words from a word to the next 32-byte boundary. */
  function Lead(i: nat, w: WordSize): (lead: nat) {
    WordsIn((32 - Size(i, w) % 32) % 32, w)
  }

  /** The place of a word in its 32-byte block. */
  function Place(i: nat, w: WordSize): (k: nat)
    ensures k < N32(w)
  {
    if w == 4 then i % 8 else i % 4
  }

  lemma SizeModulo(i: nat, w: WordSize)
    ensures Size(i, w) % 32 == Size(Place(i, w), w)
  {
    if w == 4 {
      QuotientRemainder(4 * i, 32, i / 8, 4 * (i % 8));
    } else {
      QuotientRemainder(8 * i, 32, i / 4, 8 * (i % 4));
    }
  }

  lemma LeadForm(i: nat, w: WordSize)
    ensures Lead(i, w) == if Place(i, w) == 0 then 0 else N32(w) - Place(i, w)
  {
    hide Place;
    SizeModulo(i, w);
    var k := Place(i, w);
    assert k > 0 ==> (32 - Size(k, w)) % 32 == 32 - Size(k, w);
  }

  /** The lead ends at a 32-byte boundary. */
  lemma LeadBoundary(i: nat, lead: nat, w: WordSize)
    requires lead == if Place(i, w) == 0 then 0 else N32(w) - Place(i, w)
    ensures 32 * (Size(i + lead, w) / 32) == Size(i + lead, w)
  {
    var b := if w == 4 then i / 8 else i / 4;
    var b' := if Place(i, w) == 0 then b else b + 1;
    assert Size(i + lead, w) == 32 * b';
  }

  lemma LeadAligns(i: nat, j: nat, w: WordSize)
    requires Size(i, w) % 32 == Size(j, w) % 32
    ensures Lead(i, w) < N32(w)
    ensures 32 * (Size(i + Lead(i, w), w) / 32) == Size(i + Lead(i, w), w)
    ensures 32 * (Size(j + Lead(i, w), w) / 32) == Size(j + Lead(i, w), w)
  {
    hide Lead, Place;
    LeadForm(i, w);
    SizeModulo(i, w);
    SizeModulo(j, w);
    LeadBoundary(i, Lead(i, w), w);
    LeadBoundary(j, Lead(i, w), w);
  }

  lemma WordsAfterBlocks(n: nat, w: WordSize)
    ensures n == 32 * (n / 32) + Size(WordsIn(n % 32, w), w) + Phase(n, w)
    ensures WordsIn(n % 32, w) < N32(w)
  {
    RemainderOfBlocks(n / 32, n % 32);
  }

  /** Whole blocks are whole words. */
  lemma RemainderOfBlocks(q: nat, r: nat)
    ensures (32 * q + r) % 4 == r % 4 && (32 * q + r) % 8 == r % 8
  {
    QuotientRemainder(32 * q + r, 4, 8 * q + r / 4, r % 4);
    QuotientRemainder(32 * q + r, 8, 4 * q + r / 8, r % 8);
  }

  /** The last few words of a copy between aligned ends, and the masked last one. */
  method FinishWords(m: Memory, w: WordSize, dw: nat, sw: nat, words: nat, rest: nat, ghost was: seq<byte>, ghost lo: nat, ghost total: nat, ghost r: Reach)
    requires rest < w && words < N32(w) && m.cells.Length == Size(total, w) == |was|
    requires lo <= Size(dw, w) && 0 <= lo + Size(sw - dw, w)
    requires Size(dw + words, w) + rest <= m.cells.Length && Size(sw + words, w) + rest <= m.cells.Length
    requires ForwardSafe(lo, lo + Size(sw - dw, w), Size(dw + words, w) + rest - lo)
    requires Moved(m.cells[..], was, lo, Size(dw, w), Size(sw - dw, w))
    requires Ruled(m.log, r) && Covers(r, lo, Size(dw + words, w) + rest, Size(sw - dw, w))
    modifies m, m.cells
    ensures Moved(m.cells[..], was, lo, Size(dw + words, w) + rest, Size(sw - dw, w))
    ensures Ruled(m.log, r)
  {
    hide Moved, Ruled;
    ghost var mid := m.cells[..];
    CopyWordsUpto(m, w, dw, sw, words, N32(w) - 1, r);
    MoveAppends(m.cells[..], mid, was, lo, Size(dw, w), Size(dw + words, w), Size(sw - dw, w));
    TailAligned(m, w, dw + words, sw + words, rest, was, lo, total, r);
  }

  /** Blocks from a 32-byte boundary on, then words and a masked last one. */
  method CopyFromBoundary(m: Memory, w: WordSize, db: nat, sb: nat, n: nat, ghost was: seq<byte>, ghost lo: nat, ghost total: nat, ghost r: Reach)
    requires m.cells.Length == Size(total, w) == |was| && db != sb && lo <= 32 * db
    requires 32 * db + n <= m.cells.Length && 32 * sb + n <= m.cells.Length && 0 <= lo + 32 * (sb - db)
    requires ForwardSafe(lo, lo + 32 * (sb - db), 32 * db + n - lo)
    requires Moved(m.cells[..], was, lo, 32 * db, 32 * (sb - db))
    requires Ruled(m.log, r) && Covers(r, lo, 32 * db + n, 32 * (sb - db))
    modifies m, m.cells
    ensures Moved(m.cells[..], was, lo, 32 * db + n, 32 * (sb - db))
    ensures Ruled(m.log, r)
  {
    hide Moved, Ruled;
    WordsAfterBlocks(n, w);
    CopyCounted(m, w, db, sb, n / 32, WordsIn(n % 32, w), Phase(n, w), was, lo, total, r);
  }

  method CopyCounted(m: Memory, w: WordSize, db: nat, sb: nat, blocks: nat, words: nat, rest: nat,
                     ghost was: seq<byte>, ghost lo: nat, ghost total: nat, ghost r: Reach)
    requires m.cells.Length == Size(total, w) == |was| && db != sb && lo <= 32 * db && words < N32(w) && rest < w
    requires 32 * db + 32 * blocks + Size(words, w) + rest <= m.cells.Length && 32 * sb + 32 * blocks + Size(words, w) + rest <= m.cells.Length
    requires 0 <= lo + 32 * (sb - db)
    requires ForwardSafe(lo, lo + 32 * (sb - db), 32 * db + 32 * blocks + Size(words, w) + rest - lo)
    requires Moved(m.cells[..], was, lo, 32 * db, 32 * (sb - db))
    requires Ruled(m.log, r) && Covers(r, lo, 32 * db + 32 * blocks + Size(words, w) + rest, 32 * (sb - db))
    modifies m, m.cells
    ensures Moved(m.cells[..], was, lo, 32 * db + 32 * blocks + Size(words, w) + rest, 32 * (sb - db))
    ensures Ruled(m.log, r)
  {
    hide Moved, Ruled;
    CopyBlocks(m, db, sb, blocks, was, lo, r);
    FinishWords(m, w, BlockWord(db + blocks, w), BlockWord(sb + blocks, w), words, rest, was, lo, total, r);
  }

  /** A copy whose ends agree modulo 32: words until both are on a block boundary, and from there on. */
  method CopyByBlocks(m: Memory, w: WordSize, dw: nat, sw: nat, n: nat, ghost total: nat, ghost r: Reach)
    requires m.cells.Length == Size(total, w) && n >= 32 && dw != sw
    requires Size(dw, w) % 32 == Size(sw, w) % 32
    requires Size(dw, w) + n <= m.cells.Length && Size(sw, w) + n <= m.cells.Length
    requires ForwardSafe(Size(dw, w), Size(sw, w), n)
    requires Ruled(m.log, r) && Covers(r, Size(dw, w), Size(dw, w) + n, Size(sw - dw, w))
    modifies m, m.cells
    ensures Moved(m.cells[..], old(m.cells[..]), Size(dw, w), Size(dw, w) + n, Size(sw - dw, w))
    ensures Ruled(m.log, r)
  {
    hide Moved, Ruled, Lead;
    var lead := Lead(dw, w);
    LeadAligns(dw, sw, w);
    ghost var was := m.cells[..];
    CopyWordsUpto(m, w, dw, sw, lead, N32(w) - 1, r);
    var db, sb := Size(dw + lead, w) / 32, Size(sw + lead, w) / 32;
    CopyFromBoundary(m, w, db, sb, n - Size(lead, w), was, Size(dw, w), total, r);
  }

  /** The larger copies of the block build. */
  method MemcpyRest(m: Memory, w: WordSize, d: nat, s: nat, n: nat, ghost total: nat, ghost r: Reach)
    requires m.cells.Length == Size(total, w) && n >= 16
    requires Phase(d, w) == 0 && Phase(s, w) == 0 ==> n >= 32
    requires d + n <= m.cells.Length && s + n <= m.cells.Length && ForwardSafe(d, s, n)
    requires Ruled(m.log, r) && Covers(r, d, d + n, s - d)
    modifies m, m.cells
    ensures Moved(m.cells[..], old(m.cells[..]), d, d + n, s - d)
    ensures Ruled(m.log, r)
  {
    hide Moved, Ruled;
    if Phase(d, w) != 0 || Phase(s, w) != 0 {
      CopyUnaligned(m, w, d, s, n, total, r);
      return;
    }
    var dw: int, sw: int := WordsIn(d, w), WordsIn(s, w);
    assert Size(dw, w) == d && Size(sw, w) == s && Size(sw - dw, w) == s - d;
    if d != s && d % 32 == s % 32 {
      CopyByBlocks(m, w, dw, sw, n, total, r);
    } else {
      CopyAligned(m, w, dw, sw, n, total, r);
    }
  }

  // ---------- memcpy ----------

  /**
    memcpy, in the plain word build and in the block build: afterwards the destination holds the
    source as it was, and no other byte has changed. Overlaps are allowed where memmove forwards
    them: a destination below the source.
    */
  method Memcpy(m: Memory, w: WordSize, blockBuild: bool, d: nat, s: nat, n: nat)
    requires Phase(m.cells.Length, w) == 0
    requires d + n <= m.cells.Length && s + n <= m.cells.Length && ForwardSafe(d, s, n)
    modifies m, m.cells
    ensures Moved(m.cells[..], old(m.cells[..]), d, d + n, s - d)
    ensures Ruled(m.log, Reach(old(m.log), d, d + n, s, s + n))
  {
    hide Moved, Ruled;
    ghost var r := Reach(m.log, d, d + n, s, s + n);
    RuledStart(m.log, d, d + n, s, s + n);
    ghost var total := WordsIn(m.cells.Length, w);
    if Phase(d, w) == 0 && Phase(s, w) == 0 {
      var dw: int, sw: int := WordsIn(d, w), WordsIn(s, w);
      assert Size(dw, w) == d && Size(sw, w) == s && Size(sw - dw, w) == s - d;
      MemcpyAligned(m, w, blockBuild, dw, sw, n, total, r);
    } else if n == 32 {
      Copy32Any(m, w, d, s, total, r);
    } else if n < 16 {
      CopyBytes(m, d, s, n, 15, r);
    } else if blockBuild {
      MemcpyRest(m, w, d, s, n, total, r);
    } else {
      CopyUnaligned(m, w, d, s, n, total, r);
    }
  }

  method MemcpyAligned(m: Memory, w: WordSize, blockBuild: bool, dw: nat, sw: nat, n: nat, ghost total: nat, ghost r: Reach)
    requires m.cells.Length == Size(total, w)
    requires Size(dw, w) + n <= m.cells.Length && Size(sw, w) + n <= m.cells.Length
    requires ForwardSafe(Size(dw, w), Size(sw, w), n)
    requires Ruled(m.log, r) && Covers(r, Size(dw, w), Size(dw, w) + n, Size(sw - dw, w))
    modifies m, m.cells
    ensures Moved(m.cells[..], old(m.cells[..]), Size(dw, w), Size(dw, w) + n, Size(sw - dw, w))
    ensures Ruled(m.log, r)
  {
    hide Moved, Ruled, Phase, WordsIn;
    var words := WordsIn(n, w);
    if n == 32 {
      CopyWordsUpto(m, w, dw, sw, N32(w), N32(w), r);
    } else if words <= COPY_RUN_WORDS {
      ghost var was := m.cells[..];
      assert n == Size(words, w) + Phase(n, w);
      CopyWordsUpto(m, w, dw, sw, words, COPY_RUN_WORDS, r);
      TailAligned(m, w, dw + words, sw + words, Phase(n, w), was, Size(dw, w), total, r);
    } else if blockBuild {
      assert Size(sw, w) - Size(dw, w) == Size(sw - dw, w);
      PhaseOfSize(dw, w);
      PhaseOfSize(sw, w);
      assert n >= 32;
      MemcpyRest(m, w, Size(dw, w), Size(sw, w), n, total, r);
    } else {
      CopyAligned(m, w, dw, sw, n, total, r);
    }
  }

  // ---------- memmove ----------

  /** A store of whole source bytes extends a move at its lower end. */
  lemma StorePrepends(now: seq<byte>, mid: seq<byte>, was: seq<byte>, lo: nat, hi: nat, delta: int, a: nat, v: seq<byte>)
    requires Moved(mid, was, lo, hi, delta) && Stored(now, mid, a, v) && a + |v| == lo
    requires 0 <= a + delta && hi + delta <= |was|
    requires v == was[a + delta..lo + delta]
    ensures Moved(now, was, a, hi, delta)
  {
  }

  /** Word `i` stored next in a backward copy of `[bottom, hi)`. */
  method StorePrev(m: Memory, w: WordSize, i: nat, v: Word, ghost was: seq<byte>, ghost hi: nat, ghost delta: int, ghost r: Reach)
    requires |v| == w && |was| == m.cells.Length && Size(i + 1, w) <= hi && Reaches(r, Size(i, w), w)
    requires Moved(m.cells[..], was, Size(i + 1, w), hi, delta)
    requires 0 <= Size(i, w) + delta && hi + delta <= m.cells.Length && hi <= m.cells.Length
    requires v == was[Size(i, w) + delta..Size(i + 1, w) + delta]
    requires Ruled(m.log, r)
    modifies m, m.cells
    ensures Moved(m.cells[..], was, Size(i, w), hi, delta)
    ensures Ruled(m.log, r)
  {
    hide Moved, Ruled, Stored;
    ghost var mid := m.cells[..];
    assert Size(i, w) + w == Size(i + 1, w);
    m.Store(i, v, w, r);
    StorePrepends(m.cells[..], mid, was, Size(i + 1, w), hi, delta, Size(i, w), v);
  }

  /** A word of the source of a backward copy, holding bytes below those already copied. */
  method FetchPrev(m: Memory, w: WordSize, i: nat, ghost was: seq<byte>, ghost bottom: nat, ghost lo: nat, ghost hi: nat, ghost delta: int, ghost r: Reach)
    returns (x: Word)
    requires Moved(m.cells[..], was, lo, hi, delta) && delta < 0 && 0 <= bottom + delta
    requires bottom <= lo && hi <= m.cells.Length == |was| && Size(i + 1, w) <= m.cells.Length
    requires Reaches(r, Size(i, w), w)
    requires Ruled(m.log, r)
    modifies m
    ensures |x| == w && Fetched(x, was, w, i, 0, lo + delta)
    ensures Ruled(m.log, r)
  {
    hide Ruled, Reaches;
    x := m.Load(i, w, r);
  }

  /** A byte below the bytes already copied is as it was. */
  lemma BelowIntact(mid: seq<byte>, was: seq<byte>, lo: nat, hi: nat, delta: int, a: nat)
    requires Moved(mid, was, lo, hi, delta) && a < lo
    ensures |mid| == |was| && mid[a] == was[a]
  {
  }

  /** Single bytes in descending order. */
  method BytesBack(m: Memory, d: nat, s: nat, n: nat, ghost was: seq<byte>, ghost hi: nat, ghost r: Reach)
    requires s < d && d + n <= hi <= m.cells.Length == |was| && hi + (s - d) <= m.cells.Length
    requires Moved(m.cells[..], was, d + n, hi, s - d)
    requires Ruled(m.log, r) && Covers(r, d, d + n, s - d)
    modifies m, m.cells
    ensures Moved(m.cells[..], was, d, hi, s - d)
    ensures Ruled(m.log, r)
  {
    hide Moved, Stored, Ruled;
    var k := n;
    while k != 0
      invariant Ruled(m.log, r)
      invariant 0 <= k <= n && Moved(m.cells[..], was, d + k, hi, s - d)
    {
      k := k - 1;
      BelowIntact(m.cells[..], was, d + k + 1, hi, s - d, s + k);
      var v := m.LoadByte(s + k, r);
      ghost var mid := m.cells[..];
      assert [v] == was[s + k..s + k + 1];
      m.StoreByte(d + k, v, r);
      StorePrepends(m.cells[..], mid, was, d + k + 1, hi, s - d, d + k, [v]);
    }
  }

  /** Words in descending order, source and destination in phase; rounds of four. */
  method WordsBackAligned(m: Memory, w: WordSize, dw: nat, sw: nat, words: nat, ghost was: seq<byte>, ghost bottom: nat, ghost hi: nat, ghost r: Reach)
    requires sw < dw && Size(dw + words, w) <= hi <= m.cells.Length == |was|
    requires bottom <= Size(dw, w) && 0 <= bottom + Size(sw - dw, w) && hi + Size(sw - dw, w) <= m.cells.Length
    requires Moved(m.cells[..], was, Size(dw + words, w), hi, Size(sw - dw, w))
    requires Ruled(m.log, r) && Covers(r, bottom, hi, Size(sw - dw, w))
    modifies m, m.cells
    ensures Moved(m.cells[..], was, Size(dw, w), hi, Size(sw - dw, w))
    ensures Ruled(m.log, r)
  {
    hide Moved, Ruled;
    ghost var delta := Size(sw - dw, w);
    var k := words;
    while k != words % 4
      invariant Ruled(m.log, r)
      invariant words % 4 <= k <= words && k % 4 == words % 4
      invariant Moved(m.cells[..], was, Size(dw + k, w), hi, delta)
    {
      FourBack(m, w, dw + k, sw + k, was, bottom, hi, r);
      k := k - 4;
    }
    while k != 0
      invariant Ruled(m.log, r)
      invariant 0 <= k <= words
      invariant Moved(m.cells[..], was, Size(dw + k, w), hi, delta)
    {
      OneBack(m, w, dw + k - 1, sw + k - 1, was, bottom, hi, r);
      k := k - 1;
    }
  }

  method OneBack(m: Memory, w: WordSize, dw: nat, sw: nat, ghost was: seq<byte>, ghost bottom: nat, ghost hi: nat, ghost r: Reach)
    requires sw < dw && Size(dw + 1, w) <= hi <= m.cells.Length == |was|
    requires bottom <= Size(dw, w) && 0 <= bottom + Size(sw - dw, w) && hi + Size(sw - dw, w) <= m.cells.Length
    requires Moved(m.cells[..], was, Size(dw + 1, w), hi, Size(sw - dw, w))
    requires Ruled(m.log, r) && Covers(r, bottom, hi, Size(sw - dw, w))
    modifies m, m.cells
    ensures Moved(m.cells[..], was, Size(dw, w), hi, Size(sw - dw, w))
    ensures Ruled(m.log, r)
  {
    hide Moved, Ruled, Fetched;
    ghost var delta, lo := Size(sw - dw, w), Size(dw + 1, w);
    var x := FetchPrev(m, w, sw, was, bottom, lo, hi, delta, r);
    WholeWord(x, was, w, sw, lo + delta, Size(dw, w) + delta);
    StorePrev(m, w, dw, x, was, hi, delta, r);
  }

  /** Four words read, then stored, highest first. */
  method FourBack(m: Memory, w: WordSize, dw: nat, sw: nat, ghost was: seq<byte>, ghost bottom: nat, ghost hi: nat, ghost r: Reach)
    requires sw < dw && 4 <= sw && Size(dw, w) <= hi <= m.cells.Length == |was|
    requires bottom <= Size(dw - 4, w) && 0 <= bottom + Size(sw - dw, w) && hi + Size(sw - dw, w) <= m.cells.Length
    requires Moved(m.cells[..], was, Size(dw, w), hi, Size(sw - dw, w))
    requires Ruled(m.log, r) && Covers(r, bottom, hi, Size(sw - dw, w))
    modifies m, m.cells
    ensures Moved(m.cells[..], was, Size(dw - 4, w), hi, Size(sw - dw, w))
    ensures Ruled(m.log, r)
  {
    hide Moved, Ruled, Fetched;
    ghost var delta, lo := Size(sw - dw, w), Size(dw, w);
    var v := [];
    for i := 0 to 4
      invariant Ruled(m.log, r)
      invariant |v| == i && Moved(m.cells[..], was, lo, hi, delta)
      invariant forall k :: 0 <= k < i ==> |v[k]| == w && Fetched(v[k], was, w, sw - 1 - k, 0, lo + delta)
    {
      var x := FetchPrev(m, w, sw - 1 - i, was, bottom, lo, hi, delta, r);
      v := v + [x];
    }
    for i := 0 to 4
      invariant Ruled(m.log, r)
      invariant Moved(m.cells[..], was, Size(dw - i, w), hi, delta)
    {
      WholeWord(v[i], was, w, sw - 1 - i, lo + delta, Size(dw - 1 - i, w) + delta);
      StorePrev(m, w, dw - 1 - i, v[i], was, hi, delta, r);
    }
  }

  lemma WholeWord(x: Word, was: seq<byte>, w: WordSize, i: nat, end: int, at: nat)
    requires Fetched(x, was, w, i, 0, end) && Size(i + 1, w) <= end <= |was| && at == Size(i, w)
    ensures x == was[at..at + w]
  {
  }

  /** One word of a backward copy, re-laned with the word above it; returns the word read. */
  method OneBackRelaned(m: Memory, w: WordSize, dw: nat, sw: nat, phase: nat, w1: Word,
                        ghost was: seq<byte>, ghost bottom: nat, ghost hi: nat, ghost r: Reach) returns (w0: Word)
    requires 0 < phase < w && Size(sw, w) + phase < Size(dw, w) && Size(sw + 1, w) <= m.cells.Length
    requires Size(dw + 1, w) <= hi <= m.cells.Length == |was|
    requires bottom <= Size(dw, w) && 0 <= bottom + Size(sw - dw, w) + phase && hi + Size(sw - dw, w) + phase <= m.cells.Length
    requires Moved(m.cells[..], was, Size(dw + 1, w), hi, Size(sw - dw, w) + phase)
    requires |w1| == w && Fetched(w1, was, w, sw + 1, 0, Size(sw + 1, w) + phase)
    requires Ruled(m.log, r) && Covers(r, bottom, hi, Size(sw - dw, w) + phase)
    modifies m, m.cells
    ensures Moved(m.cells[..], was, Size(dw, w), hi, Size(sw - dw, w) + phase)
    ensures |w0| == w && Fetched(w0, was, w, sw, 0, Size(sw, w) + phase)
    ensures Ruled(m.log, r)
  {
    hide Moved, Ruled, Fetched, Or, ShiftUp, ShiftDown;
    ghost var delta, at := Size(sw - dw, w) + phase, Size(sw, w) + phase;
    w0 := FetchPrev(m, w, sw, was, bottom, Size(dw + 1, w), hi, delta, r);
    Relane(w0, w1, phase);
    JoinFetched(w0, w1, was, w, sw, phase, at);
    StorePrev(m, w, dw, Or(ShiftDown(w0, phase), ShiftUp(w1, w - phase)), was, hi, delta, r);
    FetchedBelow(w0, was, w, sw, at + w, at);
  }

  /** Words in descending order from a source at another phase. */
  method WordsBackRelaned(m: Memory, w: WordSize, dw: nat, sw: nat, phase: nat, words: nat,
                          ghost was: seq<byte>, ghost bottom: nat, ghost hi: nat, ghost total: nat, ghost r: Reach)
    requires 0 < phase < w && words > 0 && Size(sw, w) + phase < Size(dw, w) && m.cells.Length == Size(total, w)
    requires Size(dw + words, w) <= hi <= m.cells.Length == |was|
    requires bottom <= Size(dw, w) && 0 <= bottom + Size(sw - dw, w) + phase && hi + Size(sw - dw, w) + phase <= m.cells.Length
    requires Moved(m.cells[..], was, Size(dw + words, w), hi, Size(sw - dw, w) + phase)
    requires Ruled(m.log, r) && Covers(r, bottom, hi, Size(sw - dw, w) + phase)
    modifies m, m.cells
    ensures Moved(m.cells[..], was, Size(dw, w), hi, Size(sw - dw, w) + phase)
    ensures Ruled(m.log, r)
  {
    hide Moved, Ruled, Fetched, Or, ShiftUp, ShiftDown;
    ghost var delta := Size(sw - dw, w) + phase;
    WordInside(sw + words, total, w);
    var w1 := FetchPrev(m, w, sw + words, was, bottom, Size(dw + words, w), hi, delta, r);
    var k := words;
    while k != 0
      invariant Ruled(m.log, r)
      invariant 0 <= k <= words
      invariant Moved(m.cells[..], was, Size(dw + k, w), hi, delta)
      invariant |w1| == w && Fetched(w1, was, w, sw + k, 0, Size(sw + k, w) + phase)
    {
      w1 := OneBackRelaned(m, w, dw + k - 1, sw + k - 1, phase, w1, was, bottom, hi, r);
      k := k - 1;
    }
  }

  lemma JoinFetched(w0: Word, w1: Word, was: seq<byte>, w: WordSize, i: nat, phase: nat, at: nat)
    requires 0 < phase < w && at == Size(i, w) + phase && at + w <= |was|
    requires Fetched(w0, was, w, i, 0, at + w) && Fetched(w1, was, w, i + 1, 0, at + w)
    ensures w0[phase..] + w1[..phase] == was[at..at + w]
  {
    assert Size(i + 1, w) == Size(i, w) + w;
  }

  lemma FetchedBelow(x: Word, was: seq<byte>, w: WordSize, i: nat, end: int, end': int)
    requires Fetched(x, was, w, i, 0, end) && end' <= end <= |was|
    ensures Fetched(x, was, w, i, 0, end')
  {
  }

  /** The copy from the end, for a destination above an overlapping source. */
  method MoveBackward(m: Memory, w: WordSize, d: nat, s: nat, n: nat, ghost total: nat, ghost r: Reach)
    requires m.cells.Length == Size(total, w) && d + n <= m.cells.Length && s < d < s + n
    requires Ruled(m.log, r) && Covers(r, d, d + n, s - d)
    modifies m, m.cells
    ensures Moved(m.cells[..], old(m.cells[..]), d, d + n, s - d)
    ensures Ruled(m.log, r)
  {
    hide Moved, Ruled, Phase, WordsIn;
    ghost var was, hi := m.cells[..], d + n;
    MoveOfNothing(was, hi, s - d);
    PhaseBack(d + n, w);
    // The bytes behind the last word boundary of the destination.
    var over := Phase(d + n, w);
    var odd := if over < n then over else n;
    BytesBack(m, d + n - odd, s + n - odd, odd, was, hi, r);
    var left := n - odd;
    assert left > 0 ==> left == n - over;
    var words := WordsIn(left, w);
    if words != 0 {
      WordsBack(m, w, d, s, left, words, was, hi, total, r);
    }
    BytesBack(m, d, s, Phase(left, w), was, hi, r);
  }

  lemma PhaseOfSize(i: nat, w: WordSize)
    ensures Phase(Size(i, w), w) == 0
  {
  }

  lemma PhaseBack(x: nat, w: WordSize)
    ensures Phase(x - Phase(x, w), w) == 0
  {
    if w == 4 {
      QuotientRemainder(x - x % 4, 4, x / 4, 0);
    } else {
      QuotientRemainder(x - x % 8, 8, x / 8, 0);
    }
  }

  /** The whole words of a backward copy whose remaining `left` bytes end at a word boundary. */
  method WordsBack(m: Memory, w: WordSize, d: nat, s: nat, left: nat, words: nat, ghost was: seq<byte>, ghost hi: nat, ghost total: nat, ghost r: Reach)
    requires m.cells.Length == Size(total, w) == |was| && s < d && d + left <= hi <= m.cells.Length
    requires words == WordsIn(left, w) > 0 && Phase(d + left, w) == 0 && hi + (s - d) <= m.cells.Length
    requires Moved(m.cells[..], was, d + left, hi, s - d)
    requires Ruled(m.log, r) && Covers(r, d, hi, s - d)
    modifies m, m.cells
    ensures Moved(m.cells[..], was, d + Phase(left, w), hi, s - d)
    ensures Ruled(m.log, r)
  {
    hide Moved, Ruled;
    var dw: int, sw: int := WordsIn(d + left, w) - words, WordsIn(s + left, w) - words;
    var phase := Phase(s + left, w);
    assert Size(dw + words, w) == d + left && Size(sw + words, w) + phase == s + left;
    assert left == Size(words, w) + Phase(left, w);
    assert Size(dw, w) == d + Phase(left, w) && Size(sw - dw, w) + phase == s - d;
    if phase == 0 {
      WordsBackAligned(m, w, dw, sw, words, was, d, hi, r);
    } else {
      WordsBackRelaned(m, w, dw, sw, phase, words, was, d, hi, total, r);
    }
  }

  /** memmove: as memcpy, for every overlap. */
  method Memmove(m: Memory, w: WordSize, blockBuild: bool, d: nat, s: nat, n: nat)
    requires Phase(m.cells.Length, w) == 0
    requires d + n <= m.cells.Length && s + n <= m.cells.Length
    modifies m, m.cells
    ensures Moved(m.cells[..], old(m.cells[..]), d, d + n, s - d)
    ensures Ruled(m.log, Reach(old(m.log), d, d + n, s, s + n))
  {
    hide Moved, Ruled;
    ghost var r := Reach(m.log, d, d + n, s, s + n);
    RuledStart(m.log, d, d + n, s, s + n);
    if d <= s || d >= s + n {
      Memcpy(m, w, blockBuild, d, s, n);
    } else {
      MoveBackward(m, w, d, s, n, WordsIn(m.cells.Length, w), r);
    }
  }

  // ---------- One result for every build ----------

  /** The moved range and the rest of memory leave no byte open. */
  lemma MovedIsOne(x: seq<byte>, y: seq<byte>, was: seq<byte>, lo: nat, hi: nat, delta: int)
    requires Moved(x, was, lo, hi, delta) && Moved(y, was, lo, hi, delta)
    ensures x == y
  {
    forall i | 0 <= i < |was|
      ensures x[i] == y[i]
    {
      if lo <= i < hi { assert x[i] == was[i + delta]; }
    }
  }

  /** The byte loop the standard describes. */
  method CopyLoop(m: array<byte>, d: nat, s: nat, n: nat)
    requires d + n <= m.Length && s + n <= m.Length && ForwardSafe(d, s, n)
    modifies m
    ensures Moved(m[..], old(m[..]), d, d + n, s - d)
  {
    for i := 0 to n
      invariant Moved(m[..], old(m[..]), d, d + i, s - d)
    {
      m[d + i] := m[s + i];
    }
  }

  /** Both builds of memcpy and the byte loop leave the same memory. */
  method BuildsAgree(a: Memory, b: Memory, c: array<byte>, w: WordSize, d: nat, s: nat, n: nat)
    requires a != b && a.cells != b.cells && b.cells != c && a.cells != c
    requires a.cells[..] == b.cells[..] == c[..] && Phase(c.Length, w) == 0
    requires d + n <= c.Length && s + n <= c.Length && ForwardSafe(d, s, n)
    modifies a, b, a.cells, b.cells, c
    ensures a.cells[..] == b.cells[..] == c[..]
  {
    hide Moved, Ruled;
    ghost var was := c[..];
    assert a.cells.Length == |a.cells[..]| == |c[..]| == c.Length && b.cells.Length == |b.cells[..]|;
    Memcpy(a, w, false, d, s, n);
    Memcpy(b, w, true, d, s, n);
    CopyLoop(c, d, s, n);
    MovedIsOne(a.cells[..], b.cells[..], was, d, d + n, s - d);
    MovedIsOne(b.cells[..], c[..], was, d, d + n, s - d);
  }
}
