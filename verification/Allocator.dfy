/**
  The guest's bump allocator (prover/guest_airbender/src/simple_allocator.cpp). Addresses are
  numbers; the heap is the bytes from `start` to `end`, and null is address zero.
  */
module Allocator {
  import opened Basics
  import opened Bytes
  import H = HashIndex

  const MAX_ALIGN: nat := 2097152
  const WORD: nat := 4
  const EINVAL: nat := 22
  const ENOMEM: nat := 12

  // ---------- Alignment ----------

  /** `x` rounded up, as the source masks it: `(x + (a - 1)) & ~(a - 1)`. */
  function RoundUp(x: nat, align: nat): nat
    requires align > 0
  {
    x + (align - 1) - H.And(x + (align - 1), align - 1)
  }

  lemma MultipleBelow(y: nat, a: nat)
    requires a > 0
    ensures y % a < a && y % a <= y && (y - y % a) % a == 0
  {
    QuotientRemainder(y - y % a, a, y / a, 0);
  }

  lemma RoundUpAligns(x: nat, align: nat)
    requires align > 0 && H.IsPow2(align)
    ensures x <= RoundUp(x, align) < x + align && RoundUp(x, align) % align == 0
  {
    hide H.And, H.IsPow2;
    H.MaskIsModulo(x + (align - 1), align);
    MultipleBelow(x + (align - 1), align);
  }

  lemma NextMultiple(x: nat, p: nat, a: nat, k: nat)
    requires a > 0 && p % a == 0 && p < x + a && x <= k * a
    ensures p <= k * a
  {
    var q := p / a;
    assert p == a * q;
    assert q > k ==> a * q >= a * (k + 1) == k * a + a;
    assert q <= k ==> a * q <= a * k;
  }

  /** No multiple of the alignment lies between a number and its rounding. */
  lemma RoundUpBelow(x: nat, align: nat, k: nat)
    requires align > 0 && H.IsPow2(align) && x <= k * align
    ensures RoundUp(x, align) <= k * align
  {
    hide H.IsPow2, RoundUp;
    RoundUpAligns(x, align);
    NextMultiple(x, RoundUp(x, align), align, k);
  }

  /** Every power of two up to the largest alignment divides it. */
  lemma {:induction false} Pow2Divides(a: nat, b: nat) returns (k: nat)
    requires H.IsPow2(a) && H.IsPow2(b) && a <= b
    ensures b == k * a
  {
    if a == 1 {
      k := b;
    } else {
      k := Pow2Divides(a / 2, b / 2);
      assert b == 2 * (b / 2) && a == 2 * (a / 2);
      assert k * a == 2 * (k * (a / 2));
    }
  }

  lemma MaxAlignIsPow2()
    ensures H.IsPow2(MAX_ALIGN) && H.IsPow2(8)
  {
    assert H.IsPow2(4);
    assert H.IsPow2(64);
    assert H.IsPow2(512);
    assert H.IsPow2(4096);
    assert H.IsPow2(32768);
    assert H.IsPow2(262144);
  }

  /** One step of the bitwise and. */
  lemma AndHalves(a: nat, b: nat, x: nat, y: nat)
    requires x < 2 && y < 2
    ensures H.And(2 * a + x, 2 * b + y) == 2 * H.And(a, b) + x * y
  {
    assert (2 * a + x) / 2 == a && (2 * a + x) % 2 == x && (2 * b + y) / 2 == b && (2 * b + y) % 2 == y;
    if 2 * a + x == 0 || 2 * b + y == 0 {
      assert x * y == 0 && (a == 0 || b == 0);
    }
  }

  lemma {:induction false} AndSelf(a: nat)
    ensures H.And(a, a) == a
  {
    if a > 0 {
      hide H.And;
      var h, x := a / 2, a % 2;
      AndSelf(h);
      AndHalves(h, h, x, x);
      assert x * x == x && a == 2 * h + x;
    }
  }

  /** The bit test for powers of two. */
  lemma {:induction false} Pow2Test(x: nat)
    requires x > 0
    ensures H.And(x, x - 1) == 0 <==> H.IsPow2(x)
  {
    if x > 1 {
      hide H.And;
      var h := x / 2;
      if x % 2 == 0 {
        Pow2Test(h);
        AndHalves(h, h - 1, 0, 1);
        assert x == 2 * h + 0 && x - 1 == 2 * (h - 1) + 1;
      } else {
        AndSelf(h);
        AndHalves(h, h, 1, 0);
        assert x == 2 * h + 1 && x - 1 == 2 * h + 0;
      }
    }
  }

  /** An end aligned to the largest alignment is a multiple of every other. */
  lemma EndIsMultiple(end: nat, align: nat) returns (k: nat)
    requires H.IsPow2(align) && align <= MAX_ALIGN && end % MAX_ALIGN == 0
    ensures end == k * align
  {
    hide H.IsPow2;
    MaxAlignIsPow2();
    var j := Pow2Divides(align, MAX_ALIGN);
    var m := end / MAX_ALIGN;
    Product(end, m, MAX_ALIGN, j, align);
    k := m * j;
  }

  lemma RoundingFits(next: nat, end: nat, space: nat, align: nat)
    requires H.IsPow2(align) && align <= MAX_ALIGN && next <= end < space && end % MAX_ALIGN == 0 && space % MAX_ALIGN == 0
    ensures align > 0 && next + (align - 1) < space && next <= RoundUp(next, align) <= end
  {
    assert align > 0;
    hide H.IsPow2, RoundUp;
    var k := EndIsMultiple(end, align);
    RoundUpAligns(next, align);
    RoundUpBelow(next, align, k);
    RoomAbove(end, space);
  }

  lemma RoomAbove(end: nat, space: nat)
    requires end < space && end % MAX_ALIGN == 0 && space % MAX_ALIGN == 0
    ensures end + MAX_ALIGN <= space
  {
  }

  lemma Product(e: nat, m: nat, max: nat, k: nat, a: nat)
    requires e == m * max && max == k * a
    ensures e == (m * k) * a
  {
  }

  lemma SmallPow2(align: nat)
    requires H.IsPow2(align) && align < 8
    ensures align == 1 || align == 2 || align == 4
  {
  }

  // ---------- Blocks ----------

  datatype Block = Block(at: nat, size: nat, align: nat)

  ghost predicate Apart(a: Block, b: Block) {
    a.at + a.size <= b.at || b.at + b.size <= a.at
  }

  ghost predicate Placed(b: Block, start: nat, next: nat) {
    start <= b.at && b.at + b.size <= next && b.align > 0 && b.at % b.align == 0
  }

  ghost predicate AllPlaced(blocks: seq<Block>, start: nat, next: nat) {
    forall i :: 0 <= i < |blocks| ==> Placed(blocks[i], start, next)
  }

  ghost predicate AllApart(blocks: seq<Block>) {
    forall i, j :: 0 <= i < j < |blocks| ==> Apart(blocks[i], blocks[j])
  }

  /** A block at or above the pointer is apart from every block below it. */
  lemma OneMore(blocks: seq<Block>, start: nat, next: nat, b: Block)
    requires AllPlaced(blocks, start, next) && AllApart(blocks) && start <= next <= b.at && b.align > 0 && b.at % b.align == 0
    ensures AllPlaced(blocks + [b], start, b.at + b.size) && AllApart(blocks + [b])
  {
    assert forall i :: 0 <= i < |blocks| ==> Placed(blocks[i], start, next);
    forall i | 0 <= i < |blocks + [b]|
      ensures Placed((blocks + [b])[i], start, b.at + b.size)
    {
      if i < |blocks| {
        StillPlaced(blocks[i], start, next, b.at + b.size);
      }
    }
  }

  lemma StillPlaced(b: Block, start: nat, next: nat, next': nat)
    requires Placed(b, start, next) && next <= next'
    ensures Placed(b, start, next')
  {
  }

  /** `__builtin_memmove` upwards: the destination gets the source as it was, and nothing else changes. */
  method Move(bytes: array<byte>, to: nat, from: nat, n: nat)
    requires from <= to && to + n <= bytes.Length
    modifies bytes
    ensures bytes[to..to + n] == old(bytes[from..from + n])
    ensures forall i :: 0 <= i < bytes.Length && !(to <= i < to + n) ==> bytes[i] == old(bytes[i])
  {
    var k := n;
    while k > 0
      invariant 0 <= k <= n
      invariant forall i :: 0 <= i < to + k || to + n <= i < bytes.Length ==> bytes[i] == old(bytes[i])
      invariant bytes[to + k..to + n] == old(bytes[from + k..from + n])
    {
      k := k - 1;
      bytes[to + k] := bytes[from + k];
      assert bytes[to + k..to + n] == [bytes[to + k]] + bytes[to + k + 1..to + n];
    }
  }

  class Heap {
    const start: nat
    const end: nat
    /** One more than the largest address: 2^32 or 2^64. */
    const space: nat
    const bytes: array<byte>
    var next: nat
    ghost var blocks: seq<Block>

    /**
      The invariant of every run: handed-out blocks are aligned, inside the heap, below the bump
      pointer and pairwise disjoint, and no byte at or above the pointer has been written.
      */
    ghost predicate Valid()
      reads this, bytes
    {
      && Laid() && bytes.Length == end - start && start <= next <= end
      && AllPlaced(blocks, start, next) && AllApart(blocks)
      && (forall i :: next - start <= i < bytes.Length ==> bytes[i] == 0)
    }

    /** The linker's part: bounds aligned to the largest alignment, and an end below the last address. */
    ghost predicate Laid() {
      && 0 < start <= end < space && space <= U64 && space % MAX_ALIGN == 0
      && start % MAX_ALIGN == 0 && end % MAX_ALIGN == 0
    }

    constructor (start: nat, end: nat, space: nat)
      requires 0 < start <= end < space && space <= U64 && space % MAX_ALIGN == 0
      requires start % MAX_ALIGN == 0 && end % MAX_ALIGN == 0
      ensures Valid() && this.start == start && this.end == end && this.space == space && blocks == [] && fresh(bytes)
    {
      this.start, this.end, this.space := start, end, space;
      bytes := new byte[end - start](_ => 0);
      next, blocks := start, [];
    }

    /** The rounded pointer stays in the heap, so neither the sum nor the room left wraps. */
    lemma RoomNeverWraps(align: nat)
      requires Valid() && H.IsPow2(align) && align <= MAX_ALIGN
      ensures align > 0 && next + (align - 1) < space && next <= RoundUp(next, align) <= end
    {
      RoundingFits(next, end, space, align);
    }

    /** What an allocation does to the heap: nothing, or one more block above all others. */
    twostate predicate Allocated(p: nat, size: nat, align: nat)
      reads this, bytes
    {
      && bytes[..] == old(bytes[..])
      && (p == 0 ==> next == old(next) && blocks == old(blocks))
      && (p != 0 ==>
            && p >= old(next) && p + size == next <= end && align > 0 && p % align == 0
            && blocks == old(blocks) + [Block(p, size, align)])
    }

    /** `bump_allocate_aligned`; with alignment 8, `bump_allocate`. It refuses exactly what does not fit. */
    method Bump(size: nat, align: nat) returns (p: nat)
      requires Valid() && H.IsPow2(align) && size < space
      modifies `next, `blocks
      ensures Valid()
      ensures var a := if align < 8 then 8 else align;
              && Allocated(p, size, a)
              && (p == 0 <==> NoRoom(old(next), end, size, align))
              && (p != 0 ==> p == RoundUp(old(next), a))
    {
      hide H.IsPow2, RoundUp, AllPlaced, AllApart, NoRoom;
      LargeAlign(next, end, size, align);
      var a := if align < 8 then 8 else align;
      if a > MAX_ALIGN { return 0; }
      MaxAlignIsPow2();
      RoomNeverWraps(a);
      RoundUpAligns(next, a);
      RoundUpFinds(next, end, size, align);
      p := RoundUp(next, a);
      if size > end - p { return 0; }
      OneMore(blocks, start, next, Block(p, size, a));
      next := p + size;
      blocks := blocks + [Block(p, size, a)];
    }

    method Malloc(size: nat) returns (p: nat)
      requires Valid() && size < space
      modifies `next, `blocks
      ensures Valid() && Allocated(p, size, 8)
      ensures p == 0 <==> NoRoom(old(next), end, size, 8)
    {
      MaxAlignIsPow2();
      p := Bump(size, 8);
    }

    /** No clearing, and yet every byte of the block reads zero. */
    method Calloc(count: nat, size: nat) returns (p: nat)
      requires Valid() && count < space && size < space
      modifies `next, `blocks
      ensures Valid()
      ensures count * size >= space ==> p == 0 && next == old(next) && blocks == old(blocks)
      ensures count * size < space ==> Allocated(p, count * size, 8) && (p == 0 <==> NoRoom(old(next), end, count * size, 8))
      ensures p != 0 ==> forall i :: p - start <= i < next - start ==> bytes[i] == 0
    {
      hide H.IsPow2, RoundUp, AllPlaced, AllApart;
      var total := count * size;
      if total >= space { return 0; }
      p := Malloc(total);
      assert forall i :: 0 <= i < bytes.Length ==> bytes[i] == bytes[..][i] == old(bytes[..])[i];
    }

    method Memalign(align: nat, size: nat) returns (p: nat)
      requires Valid() && align < space && size < space
      modifies `next, `blocks
      ensures Valid()
      ensures p != 0 ==> align > 0 && H.IsPow2(align) && p % align == 0 && Allocated(p, size, if align < 8 then 8 else align)
      ensures p == 0 ==> next == old(next) && blocks == old(blocks)
      ensures p == 0 <==> !H.IsPow2(align) || NoRoom(old(next), end, size, align)
    {
      hide RoundUp, AllPlaced, AllApart, NoRoom;
      if align > 0 { Pow2Test(align); }
      if align == 0 || H.And(align, align - 1) != 0 { return 0; }
      p := Bump(size, align);
      if p != 0 && align < 8 { DividesEight(align, p); }
    }

    lemma DividesEight(align: nat, p: nat)
      requires H.IsPow2(align) && align < 8 && p % 8 == 0
      ensures align > 0 && p % align == 0
    {
      hide H.IsPow2;
      SmallPow2(align);
      QuotientRemainder(p, 1, p, 0);
      QuotientRemainder(p, 2, 4 * (p / 8), 0);
      QuotientRemainder(p, 4, 2 * (p / 8), 0);
    }

    method PosixMemalign(align: nat, size: nat) returns (code: nat, p: nat)
      requires Valid() && align < space && size < space
      modifies `next, `blocks
      ensures Valid()
      ensures code == 0 ==> p != 0 && align > 0 && p % align == 0 && Allocated(p, size, if align < 8 then 8 else align)
      ensures code != 0 ==> p == 0 && next == old(next) && blocks == old(blocks)
      ensures code == 22 <==> !(H.IsPow2(align) && align % 4 == 0)
      ensures code == 12 <==> H.IsPow2(align) && align % 4 == 0 && NoRoom(old(next), end, size, align)
      ensures code == 0 || code == 22 || code == 12
    {
      hide NoRoom, RoundUp, AllPlaced, AllApart;
      if align > 0 { Pow2Test(align); }
      if align == 0 || H.And(align, align - 1) != 0 || align % WORD != 0 { return EINVAL, 0; }
      p := Memalign(align, size);
      code := if p == 0 then ENOMEM else 0;
    }

    /**
      `realloc` of a block, or of null: the new block starts with the bytes that stood at the old
      one, however much more they cover, and every byte read is a heap byte.
      */
    method Realloc(ptr: nat, size: nat) returns (q: nat)
      requires Valid() && size < space
      requires ptr == 0 || exists i :: 0 <= i < |blocks| && blocks[i].at == ptr
      modifies `next, `blocks, bytes
      ensures Valid()
      ensures q == 0 <==> (ptr != 0 && size == 0) || NoRoom(old(next), end, size, 8)
      ensures q == 0 ==> next == old(next) && blocks == old(blocks) && bytes[..] == old(bytes[..])
      ensures q != 0 ==> q % 8 == 0 && q >= old(next) && q + size == next <= end && blocks == old(blocks) + [Block(q, size, 8)]
      ensures q != 0 && ptr != 0 ==>
        && start <= ptr && ptr + size <= end
        && bytes[q - start..q - start + size] == old(bytes[ptr - start..ptr - start + size])
      ensures forall i :: 0 <= i < old(next) - start ==> bytes[i] == old(bytes[i])
    {
      hide H.IsPow2, RoundUp, AllApart, NoRoom;
      if ptr == 0 {
        q := Malloc(size);
        assert forall i :: 0 <= i < bytes.Length ==> bytes[i] == bytes[..][i];
        return;
      }
      if size == 0 { return 0; }
      q := Malloc(size);
      assert bytes[..] == old(bytes[..]);
      if q != 0 {
        Move(bytes, q - start, ptr - start, size);
      }
    }

    /** The program's own writes, each to a byte of a block it was given. */
    method Write(x: nat, v: byte, ghost i: nat)
      requires Valid() && i < |blocks| && blocks[i].at <= x < blocks[i].at + blocks[i].size
      modifies bytes
      ensures Valid() && bytes[x - start] == v
      ensures forall j :: 0 <= j < bytes.Length && j != x - start ==> bytes[j] == old(bytes[j])
    {
      assert Placed(blocks[i], start, next);
      bytes[x - start] := v;
    }

    /** Result number `k` of a run is null or the block number `at[k]`. */
    ghost predicate Tracks(results: seq<Result>, at: seq<nat>)
      reads this
    {
      && |at| == |results|
      && forall k :: 0 <= k < |results| && results[k].p != 0 ==>
           at[k] < |blocks| && blocks[at[k]].at == results[k].p && blocks[at[k]].size == results[k].size
    }

    lemma AreInside(results: seq<Result>, at: seq<nat>)
      requires Valid() && Tracks(results, at)
      ensures forall k :: 0 <= k < |results| && results[k].p != 0 ==> start <= results[k].p && results[k].p + results[k].size <= end
    {
      hide AllApart;
      forall k | 0 <= k < |results| && results[k].p != 0
        ensures start <= results[k].p && results[k].p + results[k].size <= end
      {
        assert Placed(blocks[at[k]], start, next);
      }
    }

    method Perform(op: Op, results: seq<Result>, ghost at: seq<nat>) returns (r: Result)
      requires Valid() && Tracks(results, at) && InSpace(op, space)
      modifies `next, `blocks, bytes
      ensures Valid() && old(blocks) <= blocks
      ensures r.p != 0 ==> blocks != [] && blocks[|blocks| - 1].at == r.p && blocks[|blocks| - 1].size == r.size
      ensures r.p != 0 ==> blocks == old(blocks) + [blocks[|blocks| - 1]]
      ensures r.p == 0 ==> blocks == old(blocks)
      ensures r.p == 0 <==> Refused(op, old(next), end, space, results)
      ensures r.p != 0 ==> r.p % AlignmentOf(op) == 0
      ensures next == if r.p != 0 then r.p + r.size else old(next)
    {
      hide H.IsPow2, RoundUp, AllApart, AllPlaced;
      r := Result(0, 0);
      match op {
        case Allocate(size) =>
          var p := Malloc(size);
          r := Result(p, size);
        case Clear(count, size) =>
          var p := Calloc(count, size);
          r := Result(p, count * size);
        case Align(align, size) =>
          var p := Memalign(align, size);
          r := Result(p, size);
        case Resize(k, size) =>
          var p := Realloc(if k < |results| then results[k].p else 0, size);
          r := Result(p, size);
        case Store(k, off, v) =>
          if k < |results| && results[k].p != 0 && off < results[k].size {
            Write(results[k].p + off, v, at[k]);
          }
      }
    }

    /**
      Every run of calls and writes, each naming earlier results by their number: the blocks
      handed out are inside the heap and share no byte, and the invariant holds to the end.
      */
    method Execute(ops: seq<Op>) returns (results: seq<Result>)
      requires Valid() && forall i :: 0 <= i < |ops| ==> InSpace(ops[i], space)
      modifies `next, `blocks, bytes
      ensures Valid() && |results| == |ops|
      ensures forall k :: 0 <= k < |results| && results[k].p != 0 ==> start <= results[k].p && results[k].p + results[k].size <= end
      ensures forall j, k :: 0 <= j < k < |results| && results[j].p != 0 && results[k].p != 0 ==>
        results[j].p + results[j].size <= results[k].p || results[k].p + results[k].size <= results[j].p
      ensures forall k :: 0 <= k < |results| ==> Answers(ops[k], results, k, old(next), end, space)
    {
      hide AllApart, Answers, Pointer, AllPlaced;
      results := [];
      PointerStart(next);
      ghost var at: seq<nat> := [];
      for i := 0 to |ops|
        invariant Valid() && |results| == i && Tracks(results, at)
        invariant forall j, k :: 0 <= j < k < i && results[j].p != 0 && results[k].p != 0 ==> at[j] < at[k]
        invariant next == Pointer(old(next), results)
        invariant forall k :: 0 <= k < i ==> Answers(ops[k], results, k, old(next), end, space)
      {
        var r := Perform(ops[i], results, at);
        OneMoreResult(ops, results, r, old(next), end, space);
        results, at := results + [r], at + [if r.p != 0 then |blocks| - 1 else 0];
      }
      AreInside(results, at);
      forall j, k | 0 <= j < k < |results| && results[j].p != 0 && results[k].p != 0
        ensures results[j].p + results[j].size <= results[k].p || results[k].p + results[k].size <= results[j].p
      {
        ApartAt(blocks, at[j], at[k]);
      }
    }
  }

  /** A block at `p` is free, aligned and inside the heap. */
  ghost predicate RoomAt(next: nat, end: nat, size: nat, a: nat, p: nat)
    requires a > 0
  {
    next <= p && p % a == 0 && p + size <= end
  }

  /** No aligned place from the pointer on leaves enough room, or the alignment is more than two mebibytes. */
  ghost predicate NoRoom(next: nat, end: nat, size: nat, align: nat) {
    align > 2097152 || !Room(next, end, size, if align < 8 then 8 else align)
  }

  ghost predicate Room(next: nat, end: nat, size: nat, a: nat)
    requires a > 0
  {
    exists p: nat :: RoomAt(next, end, size, a, p)
  }

  lemma LargeAlign(next: nat, end: nat, size: nat, align: nat)
    ensures align > MAX_ALIGN ==> NoRoom(next, end, size, align)
  {
  }

  /** The rounding finds room exactly if there is any. */
  lemma RoundUpFinds(next: nat, end: nat, size: nat, align: nat)
    requires var a := if align < 8 then 8 else align; H.IsPow2(a) && a <= MAX_ALIGN
    ensures NoRoom(next, end, size, align) <==> RoundUp(next, if align < 8 then 8 else align) + size > end
  {
    hide H.IsPow2, RoundUp, RoomAt;
    var a := if align < 8 then 8 else align;
    if RoundUp(next, a) + size <= end { RoomAtRounding(next, end, size, a); }
    forall p: nat | RoomAt(next, end, size, a, p)
      ensures RoundUp(next, a) + size <= end
    {
      RoomBefore(next, end, size, a, p);
    }
  }

  lemma RoomAtRounding(next: nat, end: nat, size: nat, a: nat)
    requires a > 0 && H.IsPow2(a) && RoundUp(next, a) + size <= end
    ensures RoomAt(next, end, size, a, RoundUp(next, a))
  {
    hide H.IsPow2, RoundUp;
    RoundUpAligns(next, a);
  }

  lemma RoomBefore(next: nat, end: nat, size: nat, a: nat, p: nat)
    requires a > 0 && H.IsPow2(a) && RoomAt(next, end, size, a, p)
    ensures RoundUp(next, a) + size <= end
  {
    hide H.IsPow2, RoundUp;
    var k := p / a;
    assert k * a == p;
    RoundUpBelow(next, a, k);
  }

  /** Exactly the calls that get null: too large, misaligned, resized to nothing, or no call at all. */
  ghost predicate Refused(op: Op, next: nat, end: nat, space: nat, results: seq<Result>) {
    match op
    case Allocate(size) => NoRoom(next, end, size, 8)
    case Clear(count, size) => count * size >= space || NoRoom(next, end, count * size, 8)
    case Align(align, size) => !H.IsPow2(align) || NoRoom(next, end, size, align)
    case Resize(k, size) => (k < |results| && results[k].p != 0 && size == 0) || NoRoom(next, end, size, 8)
    case Store(_, _, _) => true
  }

  /** The alignment a call is promised. */
  function AlignmentOf(op: Op): (a: nat)
    ensures a >= 8
  {
    if op.Align? && op.align > 8 then op.align else 8
  }

  /** The bump pointer after some results: behind the last block handed out. */
  function Pointer(next: nat, results: seq<Result>): nat {
    if results == [] then next
    else
      var last := results[|results| - 1];
      if last.p != 0 then last.p + last.size else Pointer(next, results[..|results| - 1])
  }

  /** Result number `k` of a run: null exactly where the call is refused, and aligned otherwise. */
  ghost predicate Answers(op: Op, results: seq<Result>, k: nat, next: nat, end: nat, space: nat)
    requires k < |results|
  {
    && (results[k].p == 0 <==> Refused(op, Pointer(next, results[..k]), end, space, results[..k]))
    && (results[k].p != 0 ==> results[k].p % AlignmentOf(op) == 0)
  }

  lemma PointerStart(next: nat)
    ensures Pointer(next, []) == next
  {
  }

  lemma OneMoreResult(ops: seq<Op>, results: seq<Result>, r: Result, next: nat, end: nat, space: nat)
    requires |results| < |ops| && forall k :: 0 <= k < |results| ==> Answers(ops[k], results, k, next, end, space)
    requires r.p == 0 <==> Refused(ops[|results|], Pointer(next, results), end, space, results)
    requires r.p != 0 ==> r.p % AlignmentOf(ops[|results|]) == 0
    ensures forall k :: 0 <= k < |results| + 1 ==> Answers(ops[k], results + [r], k, next, end, space)
    ensures Pointer(next, results + [r]) == if r.p != 0 then r.p + r.size else Pointer(next, results)
  {
    hide Refused, AlignmentOf;
    var more := results + [r];
    assert more[..|results|] == results;
    forall k | 0 <= k < |results|
      ensures Answers(ops[k], more, k, next, end, space)
    {
      assert more[..k] == results[..k];
    }
  }

  /** A call, or a write through an earlier result. */
  datatype Op =
    | Allocate(size: nat)
    | Clear(count: nat, size: nat)
    | Align(align: nat, size: nat)
    | Resize(k: nat, size: nat)
    | Store(k: nat, off: nat, v: byte)

  datatype Result = Result(p: nat, size: nat)

  /** Arguments are sizes of the machine. */
  predicate InSpace(op: Op, space: nat) {
    match op
    case Allocate(size) => size < space
    case Clear(count, size) => count < space && size < space
    case Align(align, size) => align < space && size < space
    case Resize(_, size) => size < space
    case Store(_, _, _) => true
  }

  lemma ApartAt(blocks: seq<Block>, i: nat, j: nat)
    requires AllApart(blocks) && i < j < |blocks|
    ensures Apart(blocks[i], blocks[j])
  {
  }
}
