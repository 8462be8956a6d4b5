/**
  The minimal perfect hash solver: bucket displacement with seed retries and spills, as
  `chd_solve` of prover/stateless_validator/src/mfbd.rs, and the C++ solver of
  zilk_core/core/common_zz/mphf_builder.cpp, which also spills the owner of every slot a spilled
  key probes. Everything holds for every mixer `mix`.
  */
module Chd {
  import opened Basics
  import opened Bytes

  const GOLDEN_RATIO: nat := 0x9E37_79B9_7F4A_7C15
  const LAMBDA: nat := 4
  const MAX_DISPLACEMENT: nat := 0x10_0000
  const MAX_SEED_RETRIES: nat := 32

  // ---------- Hashing ----------

  function Add64(a: nat, b: nat): nat { (a + b) % U64 }
  function Mul64(a: nat, b: nat): (r: nat) ensures r < U64 { (a * b) % U64 }

  /** Bitwise exclusive or. */
  function Xor(a: nat, b: nat): nat {
    if a == 0 then b else if b == 0 then a
    else 2 * Xor(a / 2, b / 2) + (a + b) % 2
  }

  /** A 32-bit hash reduced to `[0, n)` by a multiplication and a shift. */
  function FastMod(h: nat, n: nat): (r: nat)
    ensures n > 0 ==> r < n
  {
    FastModBelow(h % U32, n);
    ((h % U32) * n) / U32
  }

  lemma FastModBelow(x: nat, n: nat)
    requires x < U32
    ensures n > 0 ==> (x * n) / U32 < n
  {
    if n > 0 { assert x * n < U32 * n; }
  }

  function BucketOf(mix: nat -> nat, key: nat, seedFactor: nat, nBuckets: nat): (b: nat)
    ensures nBuckets > 0 ==> b < nBuckets
  {
    FastMod(mix(Add64(key, seedFactor)), nBuckets)
  }

  function SlotOf(mix: nat -> nat, key: nat, seedFactor: nat, factor: nat, n: nat): (s: nat)
    ensures n > 0 ==> s < n
  {
    FastMod(mix(Add64(Add64(key, seedFactor), factor)), n)
  }

  // ---------- Solutions ----------

  datatype Solution = Solution(
    nBuckets: nat, factors: seq<nat>, seed: nat, seedFactor: nat, idx: seq<nat>, spilled: seq<nat>)

  /** The slot a lookup probes for a key, from the stored factors alone. */
  function IndexOf(mix: nat -> nat, sol: Solution, key: nat, n: nat): (s: nat)
    requires sol.nBuckets > 0 && |sol.factors| == sol.nBuckets
    ensures n > 0 ==> s < n
  {
    SlotOf(mix, key, sol.seedFactor, sol.factors[BucketOf(mix, key, sol.seedFactor, sol.nBuckets)], n)
  }

  ghost predicate NoRepeats(s: seq<nat>) {
    forall i, j :: 0 <= i < j < |s| ==> s[i] != s[j]
  }

  /**
    What a solution promises its reader: the stored factors reproduce every key's slot, the slots
    of unspilled keys are pairwise distinct and below n, and spilled keys are listed once.
    */
  ghost predicate Solved(mix: nat -> nat, keys: seq<nat>, sol: Solution) {
    && sol.nBuckets > 0 && |sol.factors| == sol.nBuckets && |sol.idx| == |keys|
    && sol.seedFactor < U64 && (forall b :: 0 <= b < |sol.factors| ==> sol.factors[b] < U64)
    && (forall i :: 0 <= i < |keys| ==> sol.idx[i] < |keys| && sol.idx[i] == IndexOf(mix, sol, keys[i], |keys|))
    && (forall i, j :: 0 <= i < j < |keys| && i !in sol.spilled && j !in sol.spilled ==> sol.idx[i] != sol.idx[j])
    && (forall i :: i in sol.spilled ==> i < |keys|)
    && NoRepeats(sol.spilled)
  }

  /** Every spilled key comes from a bucket that kept factor zero. */
  ghost predicate SpilledFromZero(mix: nat -> nat, keys: seq<nat>, sol: Solution)
    requires Solved(mix, keys, sol)
  {
    forall i :: i in sol.spilled ==>
      sol.factors[BucketOf(mix, keys[i], sol.seedFactor, sol.nBuckets)] == 0
  }

  /** No unspilled key owns the slot a spilled key probes. */
  ghost predicate SidecarClear(keys: seq<nat>, sol: Solution)
    requires |sol.idx| == |keys| && forall i :: i in sol.spilled ==> i < |keys|
  {
    forall i, j :: i in sol.spilled && 0 <= j < |keys| && j !in sol.spilled ==> sol.idx[i] != sol.idx[j]
  }

  // ---------- Buckets ----------

  ghost predicate AscendingKeys(s: seq<nat>) {
    forall i, j :: 0 <= i < j < |s| ==> s[i] < s[j]
  }

  /** `buckets[b]` lists, in ascending order, the keys that hash to `b`. */
  ghost predicate Bucketed(mix: nat -> nat, keys: seq<nat>, seedFactor: nat, buckets: seq<seq<nat>>, upto: nat) {
    && |buckets| > 0 && upto <= |keys|
    && (forall b :: 0 <= b < |buckets| ==> AscendingKeys(buckets[b]))
    && (forall b, j :: 0 <= b < |buckets| && 0 <= j < |buckets[b]| ==>
          buckets[b][j] < upto && BucketOf(mix, keys[buckets[b][j]], seedFactor, |buckets|) == b)
    && (forall i :: 0 <= i < upto ==> i in buckets[BucketOf(mix, keys[i], seedFactor, |buckets|)])
  }

  lemma AddToBucket(mix: nat -> nat, keys: seq<nat>, seedFactor: nat, buckets: seq<seq<nat>>, i: nat)
    requires i < |keys| && Bucketed(mix, keys, seedFactor, buckets, i)
    ensures var b := BucketOf(mix, keys[i], seedFactor, |buckets|);
            Bucketed(mix, keys, seedFactor, buckets[b := buckets[b] + [i]], i + 1)
  {
    hide FastMod;
    var b := BucketOf(mix, keys[i], seedFactor, |buckets|);
    var grown := buckets[b] + [i];
    var buckets' := buckets[b := grown];
    assert grown[|buckets[b]|] == i;
    assert forall x :: x in buckets[b] ==> x in grown;
    forall x | 0 <= x < i + 1
      ensures x in buckets'[BucketOf(mix, keys[x], seedFactor, |buckets'|)]
    {
      if x < i { assert x in buckets[BucketOf(mix, keys[x], seedFactor, |buckets|)]; }
    }
  }

  method FillBuckets(mix: nat -> nat, keys: seq<nat>, seedFactor: nat, nBuckets: nat) returns (buckets: seq<seq<nat>>)
    requires nBuckets > 0
    ensures |buckets| == nBuckets && Bucketed(mix, keys, seedFactor, buckets, |keys|)
  {
    hide BucketOf;
    buckets := seq(nBuckets, _ => []);
    for i := 0 to |keys|
      invariant |buckets| == nBuckets && Bucketed(mix, keys, seedFactor, buckets, i)
    {
      AddToBucket(mix, keys, seedFactor, buckets, i);
      var b := BucketOf(mix, keys[i], seedFactor, nBuckets);
      buckets := buckets[b := buckets[b] + [i]];
    }
  }

  /** Larger buckets first, equal sizes in ascending order. */
  predicate Precedes(buckets: seq<seq<nat>>, a: nat, b: nat) {
    a < |buckets| && b < |buckets| &&
    (|buckets[a]| > |buckets[b]| || (|buckets[a]| == |buckets[b]| && a < b))
  }

  ghost predicate Ordered(buckets: seq<seq<nat>>, order: seq<nat>, upto: nat) {
    && upto <= |buckets| && |order| == upto
    && (forall i :: 0 <= i < |order| ==> order[i] < upto)
    && (forall b :: 0 <= b < upto ==> b in order)
    && (forall i, j :: 0 <= i < j < |order| ==> Precedes(buckets, order[i], order[j]))
  }

  lemma InsertOrdered(buckets: seq<seq<nat>>, order: seq<nat>, b: nat, k: nat)
    requires b < |buckets| && Ordered(buckets, order, b) && k <= b
    requires forall i :: k <= i < b ==> |buckets[order[i]]| < |buckets[b]|
    requires k > 0 ==> |buckets[order[k - 1]]| >= |buckets[b]|
    ensures Ordered(buckets, order[..k] + [b] + order[k..], b + 1)
  {
    var order' := order[..k] + [b] + order[k..];
    InsertKeeps(order, b, k);
    assert k > 0 ==> forall i :: 0 <= i < k - 1 ==> Precedes(buckets, order[i], order[k - 1]);
    forall i, j | 0 <= i < j < |order'|
      ensures Precedes(buckets, order'[i], order'[j])
    {
      if i != k && j != k {
        assert Precedes(buckets, order[if i < k then i else i - 1], order[if j < k then j else j - 1]);
      }
    }
  }

  lemma InsertKeeps(order: seq<nat>, b: nat, k: nat)
    requires k <= |order|
    ensures forall x :: x in order || x == b ==> x in order[..k] + [b] + order[k..]
  {
    var order' := order[..k] + [b] + order[k..];
    forall x | x in order
      ensures x in order'
    {
      var i :| 0 <= i < |order| && order[i] == x;
      assert order'[if i < k then i else i + 1] == x;
    }
    assert order'[k] == b;
  }

  /** The stable sort of the buckets by descending size. */
  method OrderBuckets(buckets: seq<seq<nat>>) returns (order: seq<nat>)
    ensures Ordered(buckets, order, |buckets|)
  {
    order := [];
    for b := 0 to |buckets|
      invariant Ordered(buckets, order, b)
    {
      var k := b;
      while k > 0 && |buckets[order[k - 1]]| < |buckets[b]|
        invariant 0 <= k <= b
        invariant forall i :: k <= i < b ==> |buckets[order[i]]| < |buckets[b]|
      {
        k := k - 1;
      }
      InsertOrdered(buckets, order, b, k);
      order := order[..k] + [b] + order[k..];
    }
  }

  // ---------- One seed ----------

  const NO_KEY: int := -1

  /** The displacement factor number `d` under a seed. */
  function DisplacementFactor(seedTry: nat, d: nat): (f: nat)
    ensures f < U64
  {
    Mul64((Xor(Xor(seedTry, d), GOLDEN_RATIO) + U64 - seedTry) % U64, GOLDEN_RATIO)
  }

  lemma WrapTimes(x: nat, g: nat)
    ensures (x % U64) * g % U64 == x * g % U64
  {
    assert x == U64 * (x / U64) + x % U64;
    assert x * g == (x % U64) * g + U64 * (x / U64 * g);
    QuotientRemainder(x * g, U64, x / U64 * g + (x % U64) * g / U64, (x % U64) * g % U64);
  }

  /** Adding the seed's factor and a displacement's to a key adds the displacement's hash, seed and all. */
  lemma ProbeInput(key: nat, seedTry: nat, d: nat)
    requires seedTry < U64
    ensures Add64(Add64(key, Mul64(seedTry, GOLDEN_RATIO)), DisplacementFactor(seedTry, d))
            == (key + Xor(Xor(seedTry, d), 0x9E37_79B9_7F4A_7C15) * 0x9E37_79B9_7F4A_7C15) % U64
  {
    hide Xor;
    var g, x := GOLDEN_RATIO, Xor(Xor(seedTry, d), GOLDEN_RATIO);
    var y := x + U64 - seedTry;
    WrapTimes(y, g);
    assert DisplacementFactor(seedTry, d) == y * g % U64;
    assert y * g + seedTry * g == x * g + U64 * g;
    Cancels(key, seedTry * g, y * g, x * g, g);
  }

  lemma Cancels(k: nat, a: nat, b: nat, c: nat, g: nat)
    requires a + b == c + U64 * g
    ensures ((k + a % U64) % U64 + b % U64) % U64 == (k + c) % U64
  {
    WrapsOnce(k + a % U64, b % U64, U64);
    WrapsOnce(b, k + a % U64, U64);
    WrapsOnce(a, k + b, U64);
    QuotientRemainder(k + a + b, U64, g + (k + c) / U64, (k + c) % U64);
  }

  ghost function Bit(a: nat, k: nat): nat { if k == 0 then a % 2 else Bit(a / 2, k - 1) }

  lemma XorHalves(a: nat, b: nat)
    ensures Xor(a, b) % 2 == (a + b) % 2 && Xor(a, b) / 2 == Xor(a / 2, b / 2)
  {
    hide Xor;
    XorNone(a);
    XorNone(b);
    XorNone(a / 2);
    XorNone(b / 2);
    if a != 0 && b != 0 {
      XorStep(a, b);
      QuotientRemainder(Xor(a, b), 2, Xor(a / 2, b / 2), (a + b) % 2);
    }
  }

  lemma XorNone(x: nat)
    ensures Xor(0, x) == x && Xor(x, 0) == x
  {
  }

  lemma XorStep(a: nat, b: nat)
    requires a != 0 && b != 0
    ensures Xor(a, b) == (a + b) % 2 + 2 * Xor(a / 2, b / 2)
  {
  }

  /** Each bit of the exclusive or is set exactly if it is set in one of the two. */
  lemma {:induction false} XorBits(a: nat, b: nat, k: nat)
    ensures Bit(Xor(a, b), k) == (Bit(a, k) + Bit(b, k)) % 2
    decreases k
  {
    hide Xor;
    XorHalves(a, b);
    if k > 0 { XorBits(a / 2, b / 2, k - 1); }
  }

  /** The positions of a bucket's keys under a factor: free slots, pairwise distinct. */
  ghost predicate Fits(mix: nat -> nat, keys: seq<nat>, bucket: seq<nat>, seedFactor: nat, factor: nat,
                       owner: seq<int>, positions: seq<nat>)
    requires forall i :: 0 <= i < |bucket| ==> bucket[i] < |keys|
  {
    && |positions| <= |bucket|
    && (forall i :: 0 <= i < |positions| ==>
          && positions[i] == SlotOf(mix, keys[bucket[i]], seedFactor, factor, |keys|)
          && positions[i] < |owner| && owner[positions[i]] == NO_KEY)
    && NoRepeats(positions)
  }

  /** The factor leads the keys of a bucket to free slots, each to its own. */
  ghost predicate HasRoom(mix: nat -> nat, keys: seq<nat>, bucket: seq<nat>, seedFactor: nat, factor: nat, owner: seq<int>)
    requires (forall i :: 0 <= i < |bucket| ==> bucket[i] < |keys|) && |owner| == |keys|
  {
    && (forall i :: 0 <= i < |bucket| ==> owner[SlotOf(mix, keys[bucket[i]], seedFactor, factor, |keys|)] == NO_KEY)
    && (forall i, j :: 0 <= i < j < |bucket| ==>
          SlotOf(mix, keys[bucket[i]], seedFactor, factor, |keys|) != SlotOf(mix, keys[bucket[j]], seedFactor, factor, |keys|))
  }

  /** One displacement: the positions of the whole bucket, or a collision. */
  method TryFactor(mix: nat -> nat, keys: seq<nat>, bucket: seq<nat>, seedFactor: nat, factor: nat, owner: seq<int>)
    returns (collision: bool, positions: seq<nat>)
    requires forall i :: 0 <= i < |bucket| ==> bucket[i] < |keys|
    requires |owner| == |keys|
    ensures Fits(mix, keys, bucket, seedFactor, factor, owner, positions)
    ensures !collision ==> |positions| == |bucket|
    ensures collision <==> !HasRoom(mix, keys, bucket, seedFactor, factor, owner)
  {
    hide SlotOf;
    positions, collision := [], false;
    for i := 0 to |bucket|
      invariant |positions| == i && !collision
      invariant Fits(mix, keys, bucket, seedFactor, factor, owner, positions)
    {
      var pos := SlotOf(mix, keys[bucket[i]], seedFactor, factor, |keys|);
      if owner[pos] != NO_KEY || pos in positions {
        collision := true;
        return;
      }
      positions := positions + [pos];
    }
  }

  /** None of the first `n` displacements has room for the bucket. */
  ghost predicate NoRoom(mix: nat -> nat, keys: seq<nat>, bucket: seq<nat>, seedTry: nat, seedFactor: nat, owner: seq<int>, n: nat)
    requires (forall i :: 0 <= i < |bucket| ==> bucket[i] < |keys|) && |owner| == |keys|
  {
    forall d: nat :: d < n ==> !HasRoom(mix, keys, bucket, seedFactor, DisplacementFactor(seedTry, d), owner)
  }

  /** Displacement `d` is the first with room for the bucket. */
  ghost predicate FirstRoom(mix: nat -> nat, keys: seq<nat>, bucket: seq<nat>, seedTry: nat, seedFactor: nat, owner: seq<int>, d: nat)
    requires (forall i :: 0 <= i < |bucket| ==> bucket[i] < |keys|) && |owner| == |keys|
  {
    && HasRoom(mix, keys, bucket, seedFactor, DisplacementFactor(seedTry, d), owner)
    && NoRoom(mix, keys, bucket, seedTry, seedFactor, owner, d)
  }

  /** The first displacement that fits a bucket, if one within the budget does. */
  method PlaceBucket(mix: nat -> nat, keys: seq<nat>, bucket: seq<nat>, seedTry: nat, seedFactor: nat, owner: seq<int>)
    returns (placed: bool, factor: nat, positions: seq<nat>)
    requires forall i :: 0 <= i < |bucket| ==> bucket[i] < |keys|
    requires |owner| == |keys|
    ensures factor < U64
    ensures placed ==> |positions| == |bucket| && Fits(mix, keys, bucket, seedFactor, factor, owner, positions)
    ensures placed ==> exists d: nat :: d <= 0x10_0000 && FirstRoom(mix, keys, bucket, seedTry, seedFactor, owner, d)
                                        && factor == DisplacementFactor(seedTry, d)
    ensures !placed ==> NoRoom(mix, keys, bucket, seedTry, seedFactor, owner, 0x10_0001)
  {
    hide HasRoom, Fits, DisplacementFactor;
    placed, factor, positions := false, 0, [];
    for d := 0 to MAX_DISPLACEMENT + 1
      invariant factor < U64 && NoRoom(mix, keys, bucket, seedTry, seedFactor, owner, d)
    {
      factor := DisplacementFactor(seedTry, d);
      var collision;
      collision, positions := TryFactor(mix, keys, bucket, seedFactor, factor, owner);
      if !collision {
        placed := true;
        assert FirstRoom(mix, keys, bucket, seedTry, seedFactor, owner, d);
        return;
      }
    }
  }

  /** `bucket` lists, once each, exactly the keys of bucket `b`. */
  ghost predicate Lists(mix: nat -> nat, keys: seq<nat>, seedFactor: nat, nBuckets: nat, b: nat, bucket: seq<nat>) {
    && NoRepeats(bucket)
    && (forall j :: 0 <= j < |bucket| ==> bucket[j] < |keys| && BucketOf(mix, keys[bucket[j]], seedFactor, nBuckets) == b)
    && (forall i :: 0 <= i < |keys| && BucketOf(mix, keys[i], seedFactor, nBuckets) == b ==> i in bucket)
  }

  /** The state of a try after some buckets: which keys are settled, and where. */
  ghost predicate Settled(mix: nat -> nat, keys: seq<nat>, seedFactor: nat, nBuckets: nat, done: set<nat>,
                          factors: seq<nat>, idx: seq<nat>, owner: seq<int>, out: set<nat>)
  {
    && nBuckets > 0 && |factors| == nBuckets && |idx| == |owner| == |keys|
    && (forall b :: 0 <= b < |factors| ==> factors[b] < U64)
    && (forall i {:trigger idx[i]} :: 0 <= i < |keys| && BucketOf(mix, keys[i], seedFactor, nBuckets) in done ==>
          && idx[i] < |keys|
          && idx[i] == SlotOf(mix, keys[i], seedFactor, factors[BucketOf(mix, keys[i], seedFactor, nBuckets)], |keys|)
          && (i !in out ==> owner[idx[i]] == i))
    && (forall i :: i in out ==>
          && i < |keys| && BucketOf(mix, keys[i], seedFactor, nBuckets) in done
          && factors[BucketOf(mix, keys[i], seedFactor, nBuckets)] == 0)
    && (forall p {:trigger owner[p]} :: 0 <= p < |owner| && owner[p] != NO_KEY ==>
          && 0 <= owner[p] < |keys| && BucketOf(mix, keys[owner[p]], seedFactor, nBuckets) in done
          && idx[owner[p]] == p && owner[p] !in out)
  }

  /** The two vectors after a bucket's keys took their positions. */
  ghost predicate Assigned(idx: seq<nat>, owner: seq<int>, idx0: seq<nat>, owner0: seq<int>, bucket: seq<nat>, positions: seq<nat>) {
    && |idx| == |idx0| && |owner| == |owner0| && |bucket| == |positions|
    && (forall j :: 0 <= j < |bucket| ==> bucket[j] < |idx| && positions[j] < |owner|)
    && (forall j :: 0 <= j < |bucket| ==> idx[bucket[j]] == positions[j] && owner[positions[j]] == bucket[j])
    && (forall i :: 0 <= i < |idx| && i !in bucket ==> idx[i] == idx0[i])
    && (forall p :: 0 <= p < |owner| && p !in positions ==> owner[p] == owner0[p])
  }

  lemma SettlePlaced(mix: nat -> nat, keys: seq<nat>, seedFactor: nat, nBuckets: nat, done: set<nat>,
                     factors: seq<nat>, idx0: seq<nat>, owner0: seq<int>, out: set<nat>,
                     b: nat, bucket: seq<nat>, factor: nat, positions: seq<nat>, idx: seq<nat>, owner: seq<int>)
    requires Settled(mix, keys, seedFactor, nBuckets, done, factors, idx0, owner0, out)
    requires b < nBuckets && b !in done && Lists(mix, keys, seedFactor, nBuckets, b, bucket)
    requires Fits(mix, keys, bucket, seedFactor, factor, owner0, positions) && |positions| == |bucket| && factor < U64
    requires Assigned(idx, owner, idx0, owner0, bucket, positions)
    ensures Settled(mix, keys, seedFactor, nBuckets, done + {b}, factors[b := factor], idx, owner, out)
  {
    hide BucketOf, SlotOf;
    var done', factors' := done + {b}, factors[b := factor];
    forall i | 0 <= i < |keys| && BucketOf(mix, keys[i], seedFactor, nBuckets) in done'
      ensures idx[i] < |keys|
      ensures idx[i] == SlotOf(mix, keys[i], seedFactor, factors'[BucketOf(mix, keys[i], seedFactor, nBuckets)], |keys|)
      ensures i !in out ==> owner[idx[i]] == i
    {
      if BucketOf(mix, keys[i], seedFactor, nBuckets) == b {
        var j :| 0 <= j < |bucket| && bucket[j] == i;
        assert idx[bucket[j]] == positions[j];
      } else {
        assert i !in bucket && idx[i] == idx0[i];
        assert i !in out ==> idx0[i] !in positions;
      }
    }
    forall p | 0 <= p < |owner| && owner[p] != NO_KEY
      ensures 0 <= owner[p] < |keys| && BucketOf(mix, keys[owner[p]], seedFactor, nBuckets) in done'
      ensures idx[owner[p]] == p && owner[p] !in out
    {
      if p in positions {
        var j :| 0 <= j < |positions| && positions[j] == p;
        assert owner[positions[j]] == bucket[j];
      } else {
        assert owner[p] == owner0[p];
      }
    }
  }

  function SetOf(s: seq<nat>): set<nat> { set x | x in s }

  lemma SettleSpilled(mix: nat -> nat, keys: seq<nat>, seedFactor: nat, nBuckets: nat, done: set<nat>,
                      factors: seq<nat>, idx0: seq<nat>, owner: seq<int>, out: set<nat>,
                      b: nat, bucket: seq<nat>, idx: seq<nat>)
    requires Settled(mix, keys, seedFactor, nBuckets, done, factors, idx0, owner, out)
    requires b < nBuckets && b !in done && Lists(mix, keys, seedFactor, nBuckets, b, bucket)
    requires Pointed(mix, keys, seedFactor, bucket, idx0, idx)
    ensures Settled(mix, keys, seedFactor, nBuckets, done + {b}, factors[b := 0], idx, owner, out + SetOf(bucket))
  {
    hide BucketOf, FastMod;
    var done', factors', out' := done + {b}, factors[b := 0], out + SetOf(bucket);
    forall i | 0 <= i < |keys| && BucketOf(mix, keys[i], seedFactor, nBuckets) in done'
      ensures idx[i] < |keys|
      ensures idx[i] == SlotOf(mix, keys[i], seedFactor, factors'[BucketOf(mix, keys[i], seedFactor, nBuckets)], |keys|)
      ensures i !in out' ==> owner[idx[i]] == i
    {
      if BucketOf(mix, keys[i], seedFactor, nBuckets) == b {
        var j :| 0 <= j < |bucket| && bucket[j] == i;
      } else {
        assert i !in bucket && idx[i] == idx0[i];
      }
    }
    forall p | 0 <= p < |owner| && owner[p] != NO_KEY
      ensures 0 <= owner[p] < |keys| && BucketOf(mix, keys[owner[p]], seedFactor, nBuckets) in done'
      ensures idx[owner[p]] == p && owner[p] !in out'
    {
      assert idx0[owner[p]] == p;
    }
  }

  /** An empty bucket settles nothing and keeps factor zero. */
  lemma SettleEmpty(mix: nat -> nat, keys: seq<nat>, seedFactor: nat, nBuckets: nat, done: set<nat>,
                    factors: seq<nat>, idx: seq<nat>, owner: seq<int>, out: set<nat>, b: nat)
    requires Settled(mix, keys, seedFactor, nBuckets, done, factors, idx, owner, out)
    requires b < nBuckets && b !in done && Lists(mix, keys, seedFactor, nBuckets, b, [])
    ensures Settled(mix, keys, seedFactor, nBuckets, done + {b}, factors[b := 0], idx, owner, out)
  {
    hide BucketOf, SlotOf;
    assert out + SetOf([]) == out;
    SettleSpilled(mix, keys, seedFactor, nBuckets, done, factors, idx, owner, out, b, [], idx);
  }

  /** Gives a bucket's keys their positions. */
  method Assign(bucket: seq<nat>, positions: seq<nat>, idx0: seq<nat>, owner0: seq<int>) returns (idx: seq<nat>, owner: seq<int>)
    requires |bucket| == |positions| && NoRepeats(bucket) && NoRepeats(positions)
    requires forall j :: 0 <= j < |bucket| ==> bucket[j] < |idx0| && positions[j] < |owner0|
    ensures Assigned(idx, owner, idx0, owner0, bucket, positions)
  {
    idx, owner := idx0, owner0;
    for j := 0 to |bucket|
      invariant Assigned(idx, owner, idx0, owner0, bucket[..j], positions[..j])
    {
      idx, owner := idx[bucket[j] := positions[j]], owner[positions[j] := bucket[j]];
      assert bucket[..j + 1] == bucket[..j] + [bucket[j]] && positions[..j + 1] == positions[..j] + [positions[j]];
    }
    assert bucket[..|bucket|] == bucket && positions[..|bucket|] == positions;
  }

  /** The keys of a bucket point at the slots they probe with factor zero, the others where they did. */
  ghost predicate Pointed(mix: nat -> nat, keys: seq<nat>, seedFactor: nat, bucket: seq<nat>, idx0: seq<nat>, idx: seq<nat>) {
    && |idx| == |idx0|
    && (forall j :: 0 <= j < |bucket| ==> bucket[j] < |idx| && bucket[j] < |keys|)
    && (forall j :: 0 <= j < |bucket| ==> idx[bucket[j]] == SlotOf(mix, keys[bucket[j]], seedFactor, 0, |keys|))
    && (forall i :: 0 <= i < |idx| && i !in bucket ==> idx[i] == idx0[i])
  }

  method Spill(mix: nat -> nat, keys: seq<nat>, seedFactor: nat, bucket: seq<nat>, idx0: seq<nat>) returns (idx: seq<nat>)
    requires |idx0| == |keys| && NoRepeats(bucket) && forall j :: 0 <= j < |bucket| ==> bucket[j] < |keys|
    ensures Pointed(mix, keys, seedFactor, bucket, idx0, idx)
  {
    hide SlotOf;
    idx := idx0;
    for j := 0 to |bucket|
      invariant |idx| == |idx0|
      invariant forall k :: 0 <= k < j ==> idx[bucket[k]] == SlotOf(mix, keys[bucket[k]], seedFactor, 0, |keys|)
      invariant forall i :: 0 <= i < |idx| && i !in bucket ==> idx[i] == idx0[i]
    {
      idx := idx[bucket[j] := SlotOf(mix, keys[bucket[j]], seedFactor, 0, |keys|)];
    }
  }

  /** Every unspilled key owns its slot, and every owned slot is its owner's. */
  ghost predicate Owned(idx: seq<nat>, owner: seq<int>, out: set<nat>) {
    && |idx| == |owner|
    && (forall i :: 0 <= i < |idx| ==> idx[i] < |owner|)
    && (forall i :: 0 <= i < |idx| && i !in out ==> owner[idx[i]] == i)
    && (forall p {:trigger owner[p]} :: 0 <= p < |owner| && owner[p] != NO_KEY ==>
          0 <= owner[p] < |idx| && idx[owner[p]] == p && owner[p] !in out)
  }

  lemma SettledIsSolved(mix: nat -> nat, keys: seq<nat>, sol: Solution, owner: seq<int>, done: set<nat>)
    requires Settled(mix, keys, sol.seedFactor, sol.nBuckets, done, sol.factors, sol.idx, owner, SetOf(sol.spilled))
    requires forall b :: 0 <= b < sol.nBuckets ==> b in done
    requires NoRepeats(sol.spilled) && sol.seedFactor < U64
    ensures Solved(mix, keys, sol) && SpilledFromZero(mix, keys, sol)
    ensures Owned(sol.idx, owner, SetOf(sol.spilled))
  {
    hide FastMod;
    var out := SetOf(sol.spilled);
    assert forall i :: 0 <= i < |keys| ==> BucketOf(mix, keys[i], sol.seedFactor, sol.nBuckets) in done;
    forall i, j | 0 <= i < j < |keys| && i !in sol.spilled && j !in sol.spilled
      ensures sol.idx[i] != sol.idx[j]
    {
      assert i !in out && j !in out && owner[sol.idx[i]] == i && owner[sol.idx[j]] == j;
    }
    assert forall i :: i in sol.spilled ==> i in out;
  }

  /** Every displacement in the budget leads some key of this key's bucket to a taken slot, or two keys to one. */
  ghost predicate Crowded(mix: nat -> nat, keys: seq<nat>, seedTry: nat, seedFactor: nat, nBuckets: nat, owner: seq<int>, i: nat) {
    && i < |keys| == |owner|
    && exists bucket: seq<nat> ::
         && Lists(mix, keys, seedFactor, nBuckets, BucketOf(mix, keys[i], seedFactor, nBuckets), bucket)
         && NoRoom(mix, keys, bucket, seedTry, seedFactor, owner, 0x10_0001)
  }

  /** Only buckets that cannot be placed are spilled. */
  ghost predicate AllCrowded(mix: nat -> nat, keys: seq<nat>, seedTry: nat, seedFactor: nat, nBuckets: nat, owner: seq<int>, out: set<nat>) {
    forall i :: i in out ==> Crowded(mix, keys, seedTry, seedFactor, nBuckets, owner, i)
  }

  ghost predicate Grown(owner: seq<int>, owner': seq<int>) {
    |owner| == |owner'| && forall p :: 0 <= p < |owner| && owner[p] != NO_KEY ==> owner'[p] != NO_KEY
  }

  /** A crowded bucket stays crowded while the table fills. */
  lemma StaysCrowded(mix: nat -> nat, keys: seq<nat>, seedTry: nat, seedFactor: nat, nBuckets: nat, owner: seq<int>, owner': seq<int>, out: set<nat>)
    requires AllCrowded(mix, keys, seedTry, seedFactor, nBuckets, owner, out) && Grown(owner, owner')
    ensures AllCrowded(mix, keys, seedTry, seedFactor, nBuckets, owner', out)
  {
    hide BucketOf, SlotOf, DisplacementFactor, NoRoom;
    forall i | i in out
      ensures Crowded(mix, keys, seedTry, seedFactor, nBuckets, owner', i)
    {
      var bucket :| Lists(mix, keys, seedFactor, nBuckets, BucketOf(mix, keys[i], seedFactor, nBuckets), bucket)
                    && NoRoom(mix, keys, bucket, seedTry, seedFactor, owner, 0x10_0001);
      StillNoRoom(mix, keys, bucket, seedTry, seedFactor, owner, owner', 0x10_0001);
    }
  }

  lemma StillNoRoom(mix: nat -> nat, keys: seq<nat>, bucket: seq<nat>, seedTry: nat, seedFactor: nat, owner: seq<int>, owner': seq<int>, n: nat)
    requires (forall i :: 0 <= i < |bucket| ==> bucket[i] < |keys|) && |owner| == |keys| && Grown(owner, owner')
    requires NoRoom(mix, keys, bucket, seedTry, seedFactor, owner, n)
    ensures NoRoom(mix, keys, bucket, seedTry, seedFactor, owner', n)
  {
    hide SlotOf, DisplacementFactor;
  }

  lemma SpilledCrowded(mix: nat -> nat, keys: seq<nat>, seedTry: nat, seedFactor: nat, nBuckets: nat, owner: seq<int>, out: set<nat>, b: nat, bucket: seq<nat>)
    requires AllCrowded(mix, keys, seedTry, seedFactor, nBuckets, owner, out) && |owner| == |keys|
    requires Lists(mix, keys, seedFactor, nBuckets, b, bucket)
    requires NoRoom(mix, keys, bucket, seedTry, seedFactor, owner, 0x10_0001)
    ensures AllCrowded(mix, keys, seedTry, seedFactor, nBuckets, owner, out + SetOf(bucket))
  {
    hide BucketOf, SlotOf, NoRoom;
  }

  lemma AssignGrows(idx: seq<nat>, owner: seq<int>, idx0: seq<nat>, owner0: seq<int>, bucket: seq<nat>, positions: seq<nat>)
    requires Assigned(idx, owner, idx0, owner0, bucket, positions)
    ensures Grown(owner0, owner)
  {
    forall p | 0 <= p < |owner0| && owner0[p] != NO_KEY
      ensures owner[p] != NO_KEY
    {
      if p in positions {
        var j :| 0 <= j < |positions| && positions[j] == p;
        assert owner[positions[j]] == bucket[j];
      }
    }
  }

  /** The vectors of a try. */
  datatype Trial = Trial(factors: seq<nat>, idx: seq<nat>, owner: seq<int>, spilled: seq<nat>)

  ghost predicate InTable(keys: seq<nat>, bucket: seq<nat>, t: Trial) {
    |t.owner| == |keys| && forall i :: 0 <= i < |bucket| ==> bucket[i] < |keys|
  }

  /** The bucket took the slots of displacement `d`, the first with room for it. */
  ghost predicate Places(mix: nat -> nat, keys: seq<nat>, seedTry: nat, seedFactor: nat, b: nat, bucket: seq<nat>,
                         t: Trial, t': Trial, d: nat, positions: seq<nat>)
    requires InTable(keys, bucket, t) && b < |t.factors|
  {
    var factor := DisplacementFactor(seedTry, d);
    && d <= 0x10_0000 && FirstRoom(mix, keys, bucket, seedTry, seedFactor, t.owner, d)
    && Fits(mix, keys, bucket, seedFactor, factor, t.owner, positions) && |positions| == |bucket|
    && Assigned(t'.idx, t'.owner, t.idx, t.owner, bucket, positions)
    && t'.factors == t.factors[b := factor] && t'.spilled == t.spilled
  }

  /** No displacement had room for the bucket; its keys point at the slots of factor zero. */
  ghost predicate Spills(mix: nat -> nat, keys: seq<nat>, seedTry: nat, seedFactor: nat, b: nat, bucket: seq<nat>, t: Trial, t': Trial)
    requires InTable(keys, bucket, t) && b < |t.factors|
  {
    && NoRoom(mix, keys, bucket, seedTry, seedFactor, t.owner, 0x10_0001)
    && Pointed(mix, keys, seedFactor, bucket, t.idx, t'.idx)
    && t'.owner == t.owner && t'.factors == t.factors[b := 0] && t'.spilled == t.spilled + bucket
  }

  /** One bucket: placed at the first displacement that fits, or spilled; an empty one keeps factor zero. */
  ghost predicate Advances(mix: nat -> nat, keys: seq<nat>, seedTry: nat, seedFactor: nat, b: nat, bucket: seq<nat>, t: Trial, t': Trial) {
    && InTable(keys, bucket, t) && b < |t.factors|
    && if bucket == [] then t' == t.(factors := t.factors[b := 0])
       else || (exists d: nat, positions :: Places(mix, keys, seedTry, seedFactor, b, bucket, t, t', d, positions))
            || Spills(mix, keys, seedTry, seedFactor, b, bucket, t, t')
  }

  method SettleBucket(mix: nat -> nat, keys: seq<nat>, seedTry: nat, seedFactor: nat, nBuckets: nat,
                      b: nat, bucket: seq<nat>, t: Trial, ghost done: set<nat>) returns (t': Trial)
    requires Settled(mix, keys, seedFactor, nBuckets, done, t.factors, t.idx, t.owner, SetOf(t.spilled))
    requires NoRepeats(t.spilled)
    requires b < nBuckets && b !in done && Lists(mix, keys, seedFactor, nBuckets, b, bucket)
    requires AllCrowded(mix, keys, seedTry, seedFactor, nBuckets, t.owner, SetOf(t.spilled))
    ensures Settled(mix, keys, seedFactor, nBuckets, done + {b}, t'.factors, t'.idx, t'.owner, SetOf(t'.spilled))
    ensures NoRepeats(t'.spilled)
    ensures AllCrowded(mix, keys, seedTry, seedFactor, nBuckets, t'.owner, SetOf(t'.spilled))
    ensures Advances(mix, keys, seedTry, seedFactor, b, bucket, t, t')
  {
    hide BucketOf, SlotOf, AllCrowded, NoRoom, FirstRoom, Pointed, DisplacementFactor;
    if bucket == [] {
      SettleEmpty(mix, keys, seedFactor, nBuckets, done, t.factors, t.idx, t.owner, SetOf(t.spilled), b);
      return t.(factors := t.factors[b := 0]);
    }
    var placed, factor, positions := PlaceBucket(mix, keys, bucket, seedTry, seedFactor, t.owner);
    if placed {
      var idx, owner := Assign(bucket, positions, t.idx, t.owner);
      SettlePlaced(mix, keys, seedFactor, nBuckets, done, t.factors, t.idx, t.owner, SetOf(t.spilled),
                   b, bucket, factor, positions, idx, owner);
      AssignGrows(idx, owner, t.idx, t.owner, bucket, positions);
      StaysCrowded(mix, keys, seedTry, seedFactor, nBuckets, t.owner, owner, SetOf(t.spilled));
      t' := Trial(t.factors[b := factor], idx, owner, t.spilled);
      ghost var d: nat :| d <= 0x10_0000 && FirstRoom(mix, keys, bucket, seedTry, seedFactor, t.owner, d)
                          && factor == DisplacementFactor(seedTry, d);
      assert Places(mix, keys, seedTry, seedFactor, b, bucket, t, t', d, positions);
    } else {
      var idx := Spill(mix, keys, seedFactor, bucket, t.idx);
      SettleSpilled(mix, keys, seedFactor, nBuckets, done, t.factors, t.idx, t.owner, SetOf(t.spilled), b, bucket, idx);
      SpillsJoin(mix, keys, seedFactor, nBuckets, done, t.spilled, b, bucket);
      SpilledCrowded(mix, keys, seedTry, seedFactor, nBuckets, t.owner, SetOf(t.spilled), b, bucket);
      t' := Trial(t.factors[b := 0], idx, t.owner, t.spilled + bucket);
    }
  }

  lemma SpillsJoin(mix: nat -> nat, keys: seq<nat>, seedFactor: nat, nBuckets: nat, done: set<nat>,
                   spilled: seq<nat>, b: nat, bucket: seq<nat>)
    requires NoRepeats(spilled) && b !in done && Lists(mix, keys, seedFactor, nBuckets, b, bucket)
    requires forall i :: i in SetOf(spilled) ==> i < |keys| && BucketOf(mix, keys[i], seedFactor, nBuckets) in done
    ensures NoRepeats(spilled + bucket) && SetOf(spilled + bucket) == SetOf(spilled) + SetOf(bucket)
  {
    hide BucketOf;
    assert forall j :: 0 <= j < |spilled| ==> spilled[j] in SetOf(spilled);
  }

  lemma NoneCrowded(mix: nat -> nat, keys: seq<nat>, seedTry: nat, seedFactor: nat, nBuckets: nat, owner: seq<int>)
    ensures SetOf([]) == {} && AllCrowded(mix, keys, seedTry, seedFactor, nBuckets, owner, {})
  {
  }

  /** Every spill was needed: in the finished table no displacement would place a spilled bucket. */
  ghost predicate NeedsSpill(mix: nat -> nat, keys: seq<nat>, sol: Solution, owner: seq<int>) {
    AllCrowded(mix, keys, sol.seed, sol.seedFactor, sol.nBuckets, owner, SetOf(sol.spilled))
  }

  ghost predicate SpillsOnlyCrowded(mix: nat -> nat, keys: seq<nat>, sol: Solution) {
    exists owner: seq<int> :: Owned(sol.idx, owner, SetOf(sol.spilled)) && NeedsSpill(mix, keys, sol, owner)
  }

  ghost function Blank(n: nat, nBuckets: nat): Trial {
    Trial(seq(nBuckets, _ => 0), seq(n, _ => U32 - 1), seq(n, _ => NO_KEY), [])
  }

  /** The buckets of one seed, their order, and the vectors before each of them and after the last. */
  ghost predicate Runs(mix: nat -> nat, keys: seq<nat>, seedTry: nat, seedFactor: nat, buckets: seq<seq<nat>>, order: seq<nat>, trail: seq<Trial>) {
    && Bucketed(mix, keys, seedFactor, buckets, |keys|) && Ordered(buckets, order, |buckets|)
    && 0 < |trail| <= |order| + 1 && trail[0] == Blank(|keys|, |buckets|)
    && forall k :: 0 <= k < |trail| - 1 ==> Advances(mix, keys, seedTry, seedFactor, order[k], buckets[order[k]], trail[k], trail[k + 1])
  }

  /** What a seed comes to: the buckets settled one by one, the larger ones first. */
  ghost predicate Outcome(mix: nat -> nat, keys: seq<nat>, seedTry: nat, nBuckets: nat, sol: Solution) {
    var seedFactor := Mul64(seedTry, GOLDEN_RATIO);
    exists buckets: seq<seq<nat>>, order: seq<nat>, trail: seq<Trial> ::
      Runs(mix, keys, seedTry, seedFactor, buckets, order, trail) && Yields(nBuckets, seedTry, buckets, trail, sol)
  }

  ghost predicate Yields(nBuckets: nat, seedTry: nat, buckets: seq<seq<nat>>, trail: seq<Trial>, sol: Solution) {
    && |buckets| == nBuckets && |trail| == nBuckets + 1
    && var last := trail[nBuckets];
       sol == Solution(nBuckets, last.factors, seedTry, Mul64(seedTry, GOLDEN_RATIO), last.idx, last.spilled)
  }

  /** One seed: buckets filled, ordered, and settled largest first. */
  method TrySeed(mix: nat -> nat, keys: seq<nat>, seedTry: nat, nBuckets: nat) returns (sol: Solution, owner: seq<int>)
    requires nBuckets > 0
    ensures Outcome(mix, keys, seedTry, nBuckets, sol)
    ensures sol.nBuckets == nBuckets && sol.seed == seedTry && sol.seedFactor == Mul64(seedTry, GOLDEN_RATIO)
    ensures Solved(mix, keys, sol) && SpilledFromZero(mix, keys, sol)
    ensures Owned(sol.idx, owner, SetOf(sol.spilled)) && NeedsSpill(mix, keys, sol, owner)
  {
    hide BucketOf, SlotOf, AllCrowded, Advances, Mul64, Bucketed, Ordered;
    var seedFactor := Mul64(seedTry, GOLDEN_RATIO);
    var buckets := FillBuckets(mix, keys, seedFactor, nBuckets);
    var order := OrderBuckets(buckets);
    var t := Trial(seq(nBuckets, _ => 0), seq(|keys|, _ => U32 - 1), seq(|keys|, _ => NO_KEY), []);
    ghost var done: set<nat>, trail := {}, [t];
    NoneCrowded(mix, keys, seedTry, seedFactor, nBuckets, t.owner);
    for k := 0 to nBuckets
      invariant done == SetOf(order[..k]) && NoRepeats(t.spilled)
      invariant Settled(mix, keys, seedFactor, nBuckets, done, t.factors, t.idx, t.owner, SetOf(t.spilled))
      invariant AllCrowded(mix, keys, seedTry, seedFactor, nBuckets, t.owner, SetOf(t.spilled))
      invariant |trail| == k + 1 && trail[k] == t && Runs(mix, keys, seedTry, seedFactor, buckets, order, trail)
    {
      NextBucket(mix, keys, seedFactor, buckets, order, k);
      t := SettleBucket(mix, keys, seedTry, seedFactor, nBuckets, order[k], buckets[order[k]], t, done);
      done, trail := done + {order[k]}, trail + [t];
    }
    assert order[..nBuckets] == order;
    sol, owner := Solution(nBuckets, t.factors, seedTry, seedFactor, t.idx, t.spilled), t.owner;
    SettledIsSolved(mix, keys, sol, owner, done);
    assert Yields(nBuckets, seedTry, buckets, trail, sol);
  }

  lemma NextBucket(mix: nat -> nat, keys: seq<nat>, seedFactor: nat, buckets: seq<seq<nat>>, order: seq<nat>, k: nat)
    requires Bucketed(mix, keys, seedFactor, buckets, |keys|) && Ordered(buckets, order, |buckets|) && k < |order|
    ensures order[k] < |buckets| && order[k] !in SetOf(order[..k])
    ensures Lists(mix, keys, seedFactor, |buckets|, order[k], buckets[order[k]])
    ensures SetOf(order[..k + 1]) == SetOf(order[..k]) + {order[k]}
  {
    hide FastMod;
    assert forall i :: 0 <= i < k ==> Precedes(buckets, order[i], order[k]);
    assert order[..k + 1] == order[..k] + [order[k]];
  }

  // ---------- A seed has one outcome ----------

  /** Two listings of the same elements, sorted by an asymmetric order, are equal. */
  lemma SortedIsOne(less: (nat, nat) -> bool, a: seq<nat>, b: seq<nat>)
    requires forall x, y :: less(x, y) ==> !less(y, x)
    requires forall i, j :: 0 <= i < j < |a| ==> less(a[i], a[j])
    requires forall i, j :: 0 <= i < j < |b| ==> less(b[i], b[j])
    requires forall x :: x in a <==> x in b
    ensures a == b
  {
    var k := 0;
    while k < |a| || k < |b|
      invariant k <= |a| && k <= |b| && forall i :: 0 <= i < k ==> a[i] == b[i]
      decreases |a| - k
    {
      if k < |a| { Found(less, a, b, k); }
      if k < |b| { Found(less, b, a, k); }
      k := k + 1;
    }
  }

  /** Where two sorted listings agree so far, the next element of one stands at or behind that place in the other. */
  lemma Found(less: (nat, nat) -> bool, a: seq<nat>, b: seq<nat>, k: nat)
    requires forall x, y :: less(x, y) ==> !less(y, x)
    requires forall i, j :: 0 <= i < j < |a| ==> less(a[i], a[j])
    requires forall i, j :: 0 <= i < j < |b| ==> less(b[i], b[j])
    requires forall x :: x in a ==> x in b
    requires k < |a| && k <= |b| && forall i :: 0 <= i < k ==> a[i] == b[i]
    ensures k < |b| && (b[k] == a[k] || less(b[k], a[k]))
  {
    assert a[k] in b;
    var m :| 0 <= m < |b| && b[m] == a[k];
    assert forall i :: 0 <= i < k ==> less(a[i], a[k]);
    assert forall i :: 0 <= i < k ==> b[i] != a[k];
  }

  lemma BucketsAreOne(mix: nat -> nat, keys: seq<nat>, seedFactor: nat, x: seq<seq<nat>>, y: seq<seq<nat>>)
    requires Bucketed(mix, keys, seedFactor, x, |keys|) && Bucketed(mix, keys, seedFactor, y, |keys|) && |x| == |y|
    ensures x == y
  {
    hide BucketOf;
    forall b | 0 <= b < |x|
      ensures x[b] == y[b]
    {
      SameKeys(mix, keys, seedFactor, x, y, b);
      SameKeys(mix, keys, seedFactor, y, x, b);
      SortedIsOne((i, j) => i < j, x[b], y[b]);
    }
  }

  lemma SameKeys(mix: nat -> nat, keys: seq<nat>, seedFactor: nat, x: seq<seq<nat>>, y: seq<seq<nat>>, b: nat)
    requires Bucketed(mix, keys, seedFactor, x, |keys|) && Bucketed(mix, keys, seedFactor, y, |keys|) && |x| == |y| && b < |x|
    ensures forall i :: i in x[b] ==> i in y[b]
  {
    hide BucketOf;
    forall i | i in x[b]
      ensures i in y[b]
    {
      var j :| 0 <= j < |x[b]| && x[b][j] == i;
    }
  }

  lemma OrdersAreOne(buckets: seq<seq<nat>>, x: seq<nat>, y: seq<nat>)
    requires Ordered(buckets, x, |buckets|) && Ordered(buckets, y, |buckets|)
    ensures x == y
  {
    var less := (a: nat, b: nat) => Precedes(buckets, a, b);
    assert forall i, j :: 0 <= i < j < |x| ==> less(x[i], x[j]);
    assert forall i, j :: 0 <= i < j < |y| ==> less(y[i], y[j]);
    SortedIsOne(less, x, y);
  }

  lemma OrderInRange(buckets: seq<seq<nat>>, order: seq<nat>, k: nat)
    requires Ordered(buckets, order, |buckets|) && k < |buckets|
    ensures |order| == |buckets| && order[k] < |buckets|
  {
  }

  lemma AssignedIsOne(x: Trial, y: Trial, t: Trial, bucket: seq<nat>, positions: seq<nat>)
    requires Assigned(x.idx, x.owner, t.idx, t.owner, bucket, positions)
    requires Assigned(y.idx, y.owner, t.idx, t.owner, bucket, positions)
    ensures x.idx == y.idx && x.owner == y.owner
  {
    forall i | 0 <= i < |x.idx|
      ensures x.idx[i] == y.idx[i]
    {
      if i in bucket { var j :| 0 <= j < |bucket| && bucket[j] == i; }
    }
    forall p | 0 <= p < |x.owner|
      ensures x.owner[p] == y.owner[p]
    {
      if p in positions {
        var j :| 0 <= j < |positions| && positions[j] == p;
        assert x.owner[positions[j]] == bucket[j] == y.owner[positions[j]];
      }
    }
  }

  lemma PointedIsOne(mix: nat -> nat, keys: seq<nat>, seedFactor: nat, bucket: seq<nat>, idx0: seq<nat>, x: seq<nat>, y: seq<nat>)
    requires Pointed(mix, keys, seedFactor, bucket, idx0, x) && Pointed(mix, keys, seedFactor, bucket, idx0, y)
    ensures x == y
  {
    hide SlotOf;
    forall i | 0 <= i < |x|
      ensures x[i] == y[i]
    {
      if i in bucket { var j :| 0 <= j < |bucket| && bucket[j] == i; }
    }
  }

  lemma PlacesIsOne(mix: nat -> nat, keys: seq<nat>, seedTry: nat, seedFactor: nat, b: nat, bucket: seq<nat>,
                    t: Trial, x: Trial, d: nat, ps: seq<nat>, y: Trial, e: nat, qs: seq<nat>)
    requires InTable(keys, bucket, t) && b < |t.factors|
    requires Places(mix, keys, seedTry, seedFactor, b, bucket, t, x, d, ps) && Places(mix, keys, seedTry, seedFactor, b, bucket, t, y, e, qs)
    ensures x == y
  {
    hide SlotOf, HasRoom, Assigned, DisplacementFactor;
    assert d == e;
    assert ps == qs;
    AssignedIsOne(x, y, t, bucket, ps);
  }

  lemma AdvancesIsOne(mix: nat -> nat, keys: seq<nat>, seedTry: nat, seedFactor: nat, b: nat, bucket: seq<nat>, t: Trial, x: Trial, y: Trial)
    requires Advances(mix, keys, seedTry, seedFactor, b, bucket, t, x) && Advances(mix, keys, seedTry, seedFactor, b, bucket, t, y)
    ensures x == y
  {
    hide SlotOf, HasRoom, Assigned, DisplacementFactor, Fits, Pointed;
    if bucket != [] {
      if Spills(mix, keys, seedTry, seedFactor, b, bucket, t, x) && Spills(mix, keys, seedTry, seedFactor, b, bucket, t, y) {
        PointedIsOne(mix, keys, seedFactor, bucket, t.idx, x.idx, y.idx);
      } else {
        var d: nat, ps :| Places(mix, keys, seedTry, seedFactor, b, bucket, t, x, d, ps);
        var e: nat, qs :| Places(mix, keys, seedTry, seedFactor, b, bucket, t, y, e, qs);
        PlacesIsOne(mix, keys, seedTry, seedFactor, b, bucket, t, x, d, ps, y, e, qs);
      }
    }
  }

  /** Two outcomes of one seed are one. */
  lemma OutcomeIsOne(mix: nat -> nat, keys: seq<nat>, seedTry: nat, nBuckets: nat, x: Solution, y: Solution)
    requires Outcome(mix, keys, seedTry, nBuckets, x) && Outcome(mix, keys, seedTry, nBuckets, y)
    ensures x == y
  {
    hide Bucketed, Ordered, Advances, Mul64;
    var seedFactor := Mul64(seedTry, GOLDEN_RATIO);
    var buckets: seq<seq<nat>>, order: seq<nat>, trail: seq<Trial> :|
      Runs(mix, keys, seedTry, seedFactor, buckets, order, trail) && Yields(nBuckets, seedTry, buckets, trail, x);
    var buckets': seq<seq<nat>>, order': seq<nat>, trail': seq<Trial> :|
      Runs(mix, keys, seedTry, seedFactor, buckets', order', trail') && Yields(nBuckets, seedTry, buckets', trail', y);
    BucketsAreOne(mix, keys, seedFactor, buckets, buckets');
    OrdersAreOne(buckets, order, order');
    for k := 0 to nBuckets
      invariant trail[k] == trail'[k]
    {
      OrderInRange(buckets, order, k);
      AdvancesIsOne(mix, keys, seedTry, seedFactor, order[k], buckets[order[k]], trail[k], trail[k + 1], trail'[k + 1]);
    }
  }

  // ---------- The solvers ----------

  function BucketCount(n: nat): (b: nat)
    ensures b > 0
  {
    if (n + LAMBDA - 1) / LAMBDA > 1 then (n + LAMBDA - 1) / LAMBDA else 1
  }

  const EMPTY_SOLUTION := Solution(1, [0], 0, 0, [], [])

  /** `sol` is the first of the fewest spills among the tries, which stop at a spill-free one. */
  ghost predicate Best(tried: seq<Solution>, sol: Solution) {
    && sol.seed < |tried| <= 32 && tried[sol.seed] == sol
    && (forall j :: 0 <= j < |tried| ==> |sol.spilled| <= |tried[j].spilled|)
    && (forall j :: 0 <= j < sol.seed ==> |sol.spilled| < |tried[j].spilled|)
    && (if sol.spilled == [] then sol.seed == |tried| - 1 else |tried| == 32)
  }

  /** Try `j` is what seed `j` comes to. */
  ghost predicate Tries(mix: nat -> nat, keys: seq<nat>, tried: seq<Solution>) {
    forall j :: 0 <= j < |tried| ==> Outcome(mix, keys, j, BucketCount(|keys|), tried[j])
  }

  /** Of what the seeds come to, the first without spills, else the first with the fewest. */
  ghost predicate Chosen(mix: nat -> nat, keys: seq<nat>, sol: Solution) {
    exists tried: seq<Solution> :: Tries(mix, keys, tried) && Best(tried, sol)
  }

  /**
    The host's solver: the first seed without spills, else the first with the fewest. It always
    has a solution, so its final error is never reached.
    */
  method ChdSolve(mix: nat -> nat, keys: seq<nat>) returns (r: Option<Solution>)
    ensures r.Some? && Solved(mix, keys, r.value) && SpilledFromZero(mix, keys, r.value)
    ensures r.value.nBuckets == BucketCount(|keys|)
    ensures keys != [] ==> Chosen(mix, keys, r.value) && SpillsOnlyCrowded(mix, keys, r.value)
  {
    hide BucketOf, SlotOf, NeedsSpill, Owned, Outcome;
    if |keys| == 0 { return Some(EMPTY_SOLUTION); }
    ghost var tried: seq<Solution> := [];
    var best: Option<Solution> := None;
    for seedTry := 0 to MAX_SEED_RETRIES
      invariant |tried| == seedTry && (seedTry > 0 ==> best.Some?)
      invariant Tries(mix, keys, tried) && forall j :: 0 <= j < |tried| ==> tried[j].spilled != []
      invariant best.Some? ==>
        && Solved(mix, keys, best.value) && SpilledFromZero(mix, keys, best.value)
        && best.value.nBuckets == BucketCount(|keys|) && SpillsOnlyCrowded(mix, keys, best.value)
        && best.value.seed < |tried| && tried[best.value.seed] == best.value
        && (forall j :: 0 <= j < |tried| ==> |best.value.spilled| <= |tried[j].spilled|)
        && (forall j :: 0 <= j < best.value.seed ==> |best.value.spilled| < |tried[j].spilled|)
    {
      var sol, owner := TrySeed(mix, keys, seedTry, BucketCount(|keys|));
      assert SpillsOnlyCrowded(mix, keys, sol);
      tried := tried + [sol];
      if sol.spilled == [] {
        assert Best(tried, sol);
        return Some(sol);
      }
      if best.None? || |sol.spilled| < |best.value.spilled| { best := Some(sol); }
    }
    assert Best(tried, best.value);
    r := best;
  }

  // ---------- A spilled key whose slot another key owns ----------

  /** A mixer, not the source's, under which all keys but one share every slot. */
  function Skewed(z: nat): nat { if z == 0 then 0 else U32 - 1 }

  const FIVE_KEYS: seq<nat> := [0, 1, 2, 3, 4]

  lemma SkewedSlots(key: nat, seedFactor: nat, factor: nat)
    ensures BucketOf(Skewed, key, seedFactor, 2) == if Add64(key, seedFactor) == 0 then 0 else 1
    ensures SlotOf(Skewed, key, seedFactor, factor, 5) == if Add64(Add64(key, seedFactor), factor) == 0 then 0 else 4
  {
    assert FastMod(U32 - 1, 2) == 1 && FastMod(U32 - 1, 5) == 4;
    assert FastMod(0, 2) == 0 && FastMod(0, 5) == 0;
  }

  /** Of two small keys at most one is shifted to zero. */
  lemma OneZero(i: nat, j: nat, seedFactor: nat, factor: nat)
    requires i < j < 5
    ensures Add64(i, seedFactor) != 0 || Add64(j, seedFactor) != 0
    ensures Add64(Add64(i, seedFactor), factor) != 0 || Add64(Add64(j, seedFactor), factor) != 0
  {
    AddTwice(i, seedFactor, factor);
    AddTwice(j, seedFactor, factor);
    NotBothZero(i, j, seedFactor);
    NotBothZero(i, j, seedFactor + factor);
  }

  lemma AddTwice(x: nat, y: nat, z: nat)
    ensures Add64(Add64(x, y), z) == (x + (y + z)) % U64
  {
  }

  lemma NotBothZero(i: nat, j: nat, z: nat)
    requires i < j < 5
    ensures (i + z) % U64 != 0 || (j + z) % U64 != 0
  {
  }

  /** Under that mixer no factor has room for three keys. */
  lemma SkewedNoRoom(bucket: seq<nat>, seedFactor: nat, factor: nat, owner: seq<int>)
    requires |bucket| >= 3 && AscendingKeys(bucket) && (forall i :: 0 <= i < |bucket| ==> bucket[i] < 5) && |owner| == 5
    ensures !HasRoom(Skewed, FIVE_KEYS, bucket, seedFactor, factor, owner)
  {
    hide SlotOf, BucketOf, Add64;
    var x, y, z := bucket[0], bucket[1], bucket[2];
    assert FIVE_KEYS[x] == x && FIVE_KEYS[y] == y && FIVE_KEYS[z] == z;
    SkewedSlots(x, seedFactor, factor);
    SkewedSlots(y, seedFactor, factor);
    SkewedSlots(z, seedFactor, factor);
    OneZero(x, y, seedFactor, factor);
    OneZero(x, z, seedFactor, factor);
    OneZero(y, z, seedFactor, factor);
  }

  lemma SkewedSpills(seedTry: nat, seedFactor: nat, b: nat, bucket: seq<nat>, t: Trial, t': Trial)
    requires Advances(Skewed, FIVE_KEYS, seedTry, seedFactor, b, bucket, t, t') && |bucket| >= 3 && AscendingKeys(bucket)
    ensures Spills(Skewed, FIVE_KEYS, seedTry, seedFactor, b, bucket, t, t')
  {
    hide SlotOf, HasRoom, Assigned, DisplacementFactor, Fits, Pointed;
    forall d: nat, ps | Places(Skewed, FIVE_KEYS, seedTry, seedFactor, b, bucket, t, t', d, ps)
      ensures false
    {
      SkewedNoRoom(bucket, seedFactor, DisplacementFactor(seedTry, d), t.owner);
    }
  }

  /** Whatever the seed, four keys share the second bucket, which comes first and spills. */
  lemma SkewedBuckets(seedFactor: nat, buckets: seq<seq<nat>>, order: seq<nat>)
    requires Bucketed(Skewed, FIVE_KEYS, seedFactor, buckets, 5) && |buckets| == 2 && Ordered(buckets, order, 2)
    ensures |buckets[1]| >= 4 && AscendingKeys(buckets[1]) && order == [1, 0]
    ensures seedFactor == 0 ==> buckets == [[0], [1, 2, 3, 4]]
  {
    hide BucketOf, Add64, SlotOf;
    SkewedHomes(seedFactor, buckets);
    AtLeastFour(buckets[0], buckets[1]);
    if seedFactor == 0 { SkewedAtZero(buckets); }
    SecondFirst(buckets, order);
  }

  lemma SecondFirst(buckets: seq<seq<nat>>, order: seq<nat>)
    requires |buckets| == 2 && Ordered(buckets, order, 2) && |buckets[0]| < |buckets[1]|
    ensures order == [1, 0]
  {
    assert Precedes(buckets, order[0], order[1]);
  }

  /** The second bucket holds every key but one that is shifted to zero. */
  lemma SkewedHomes(seedFactor: nat, buckets: seq<seq<nat>>)
    requires Bucketed(Skewed, FIVE_KEYS, seedFactor, buckets, 5) && |buckets| == 2
    ensures forall i: nat :: i < 5 ==> i in buckets[0] || i in buckets[1]
    ensures |buckets[0]| <= 1 && (forall b :: 0 <= b < 2 ==> AscendingKeys(buckets[b]))
    ensures forall b, j :: 0 <= b < 2 && 0 <= j < |buckets[b]| ==> buckets[b][j] < 5
  {
    hide BucketOf, Add64, SlotOf;
    forall i: nat | i < 5
      ensures i in buckets[0] || i in buckets[1]
    {
      SkewedSlots(FIVE_KEYS[i], seedFactor, 0);
    }
    if |buckets[0]| > 1 {
      var x, y := buckets[0][0], buckets[0][1];
      assert FIVE_KEYS[x] == x && FIVE_KEYS[y] == y;
      SkewedSlots(x, seedFactor, 0);
      SkewedSlots(y, seedFactor, 0);
      OneZero(x, y, seedFactor, 0);
    }
  }

  lemma AtLeastFour(a: seq<nat>, b: seq<nat>)
    requires |a| <= 1 && forall i: nat :: i < 5 ==> i in a || i in b
    ensures |b| >= 4
  {
    var all: set<nat> := {0, 1, 2, 3, 4};
    assert all <= SetOf(a) + SetOf(b);
    SmallSet(a);
    SmallSet(b);
    Fewer(all, SetOf(a) + SetOf(b));
  }

  lemma {:induction false} SmallSet(s: seq<nat>)
    ensures |SetOf(s)| <= |s|
  {
    if s != [] {
      SmallSet(s[1..]);
      assert SetOf(s) == {s[0]} + SetOf(s[1..]);
    }
  }

  lemma {:induction false} Fewer(a: set<nat>, b: set<nat>)
    requires a <= b
    ensures |a| <= |b|
  {
    if a != {} {
      var x :| x in a;
      Fewer(a - {x}, b - {x});
    }
  }

  lemma SkewedAtZero(buckets: seq<seq<nat>>)
    requires Bucketed(Skewed, FIVE_KEYS, 0, buckets, 5) && |buckets| == 2
    ensures buckets == [[0], [1, 2, 3, 4]]
  {
    hide Bucketed, BucketOf;
    ZeroBuckets();
    BucketsAreOne(Skewed, FIVE_KEYS, 0, buckets, [[0], [1, 2, 3, 4]]);
  }

  lemma ZeroBuckets()
    ensures Bucketed(Skewed, FIVE_KEYS, 0, [[0], [1, 2, 3, 4]], 5)
  {
    hide BucketOf;
    ZeroHome(0);
    ZeroHome(1);
    ZeroHome(2);
    ZeroHome(3);
    ZeroHome(4);
  }

  lemma ZeroHome(i: nat)
    requires i < 5
    ensures BucketOf(Skewed, FIVE_KEYS[i], 0, 2) == if i == 0 then 0 else 1
  {
    hide FastMod, BucketOf, SlotOf;
    SkewedSlots(FIVE_KEYS[i], 0, 0);
  }

  /** Every seed spills four keys or more. */
  lemma SkewedSpillsFour(seedTry: nat, sol: Solution)
    requires Outcome(Skewed, FIVE_KEYS, seedTry, 2, sol)
    ensures |sol.spilled| >= 4
  {
    hide Bucketed, Ordered, Advances, Mul64, Fits, Assigned, FirstRoom, NoRoom, Pointed;
    var seedFactor := Mul64(seedTry, GOLDEN_RATIO);
    var buckets: seq<seq<nat>>, order: seq<nat>, trail: seq<Trial> :|
      Runs(Skewed, FIVE_KEYS, seedTry, seedFactor, buckets, order, trail) && Yields(2, seedTry, buckets, trail, sol);
    SkewedBuckets(seedFactor, buckets, order);
    assert Advances(Skewed, FIVE_KEYS, seedTry, seedFactor, order[0], buckets[order[0]], trail[0], trail[1]);
    assert Advances(Skewed, FIVE_KEYS, seedTry, seedFactor, order[1], buckets[order[1]], trail[1], trail[2]);
    SkewedSpills(seedTry, seedFactor, 1, buckets[1], trail[0], trail[1]);
    SpillsStay(Skewed, FIVE_KEYS, seedTry, seedFactor, 0, buckets[0], trail[1], trail[2]);
  }

  lemma SpillsStay(mix: nat -> nat, keys: seq<nat>, seedTry: nat, seedFactor: nat, b: nat, bucket: seq<nat>, t: Trial, t': Trial)
    requires Advances(mix, keys, seedTry, seedFactor, b, bucket, t, t')
    ensures t.spilled <= t'.spilled
  {
    hide Fits, Assigned, FirstRoom, NoRoom, Pointed;
  }

  function FirstFactor(): (f: nat)
    ensures 0 < f < U64 && f == DisplacementFactor(0, 0)
  {
    Mul64(GOLDEN_RATIO, GOLDEN_RATIO)
  }

  function SkewedSolution(): Solution {
    Solution(2, [FirstFactor(), 0], 0, 0, [4, 4, 4, 4, 4], [1, 2, 3, 4])
  }

  /** Seed zero spills four keys and then places the fifth, at the first displacement. */
  lemma SkewedOutcome(sol: Solution)
    requires Outcome(Skewed, FIVE_KEYS, 0, 2, sol)
    ensures sol == SkewedSolution()
  {
    hide Bucketed, Ordered, Advances, Fits, Assigned, FirstRoom, NoRoom, Pointed, FirstFactor;
    var buckets: seq<seq<nat>>, order: seq<nat>, trail: seq<Trial> :|
      Runs(Skewed, FIVE_KEYS, 0, 0, buckets, order, trail) && Yields(2, 0, buckets, trail, sol);
    SkewedBuckets(0, buckets, order);
    assert Advances(Skewed, FIVE_KEYS, 0, 0, order[0], buckets[order[0]], trail[0], trail[1]);
    assert Advances(Skewed, FIVE_KEYS, 0, 0, order[1], buckets[order[1]], trail[1], trail[2]);
    SkewedSpills(0, 0, 1, buckets[1], trail[0], trail[1]);
    SkewedIndex(trail[0].idx, trail[1].idx);
    LonePlaced(trail[1], trail[2]);
  }

  lemma SkewedIndex(before: seq<nat>, idx: seq<nat>)
    requires |before| == 5 && Pointed(Skewed, FIVE_KEYS, 0, [1, 2, 3, 4], before, idx)
    ensures |idx| == 5 && forall i :: 1 <= i < 5 ==> idx[i] == 4
  {
    var bucket: seq<nat> := [1, 2, 3, 4];
    forall i | 1 <= i < 5
      ensures idx[i] == 4
    {
      assert bucket[i - 1] == i;
      SkewedSlots(FIVE_KEYS[i], 0, 0);
    }
  }

  lemma LonePlaced(t: Trial, t': Trial)
    requires Advances(Skewed, FIVE_KEYS, 0, 0, 0, [0], t, t')
    requires |t.factors| == 2 && |t.idx| == 5 && (forall p :: 0 <= p < |t.owner| ==> t.owner[p] == NO_KEY)
    ensures t'.factors == t.factors[0 := FirstFactor()] && t'.idx == t.idx[0 := 4] && t'.spilled == t.spilled
  {
    hide SlotOf, DisplacementFactor, FirstFactor;
    var bucket: seq<nat> := [0];
    var f := FirstFactor();
    SkewedSlots(FIVE_KEYS[0], 0, f);
    assert HasRoom(Skewed, FIVE_KEYS, bucket, 0, f, t.owner);
    assert Add64(Add64(0, 0), f) == f;
    forall d: nat, ps | Places(Skewed, FIVE_KEYS, 0, 0, 0, bucket, t, t', d, ps)
      ensures d == 0 && ps == [4]
    {
      hide HasRoom;
    }
    assert !Spills(Skewed, FIVE_KEYS, 0, 0, 0, bucket, t, t');
    var d: nat, ps :| Places(Skewed, FIVE_KEYS, 0, 0, 0, bucket, t, t', d, ps);
    assert t'.idx[bucket[0]] == ps[0];
    assert forall i :: 1 <= i < 5 ==> i !in bucket;
  }

  /**
    The host's solver may leave a spilled key's slot to another key. Under the skewed mixer, which
    is not the source's, it chooses a solution where four keys spill, and the fifth, placed by a
    displacement factor, owns the slot they probe.
    */
  lemma SpilledSlotsMayBeOwned(sol: Solution)
    requires Chosen(Skewed, FIVE_KEYS, sol)
    ensures sol == SkewedSolution() && !SidecarClear(FIVE_KEYS, sol)
  {
    hide Outcome, FirstFactor;
    var tried: seq<Solution> :| Tries(Skewed, FIVE_KEYS, tried) && Best(tried, sol);
    assert BucketCount(5) == 2;
    SkewedOutcome(tried[0]);
    SkewedSpillsFour(sol.seed, sol);
    assert sol == tried[0];
    assert sol.spilled[0] == 1 && sol.idx[1] == sol.idx[0];
  }

  // ---------- The C++ builder's co-spill ----------

  ghost function OwnedSlots(owner: seq<int>): set<nat> {
    set p: nat | p < |owner| && owner[p] != NO_KEY
  }

  /** A spilled slot's owner joins the spill, and its slot is free for good. */
  lemma CoSpillStep(idx: seq<nat>, owner: seq<int>, spilled: seq<nat>, pos: nat)
    requires Owned(idx, owner, SetOf(spilled)) && NoRepeats(spilled)
    requires pos < |owner| && owner[pos] != NO_KEY
    ensures Owned(idx, owner[pos := NO_KEY], SetOf(spilled + [owner[pos]])) && NoRepeats(spilled + [owner[pos]])
    ensures |OwnedSlots(owner[pos := NO_KEY])| == |OwnedSlots(owner)| - 1
  {
    var owner', spilled' := owner[pos := NO_KEY], spilled + [owner[pos]];
    assert forall j :: 0 <= j < |spilled| ==> spilled[j] in SetOf(spilled);
    assert SetOf(spilled') == SetOf(spilled) + {owner[pos]};
    assert OwnedSlots(owner') == OwnedSlots(owner) - {pos};
    assert pos in OwnedSlots(owner);
    forall i | 0 <= i < |idx| && i !in SetOf(spilled')
      ensures owner'[idx[i]] == i
    {
      assert owner[idx[i]] == i;
    }
  }

  /** The slots the first `upto` spilled keys probe are nobody's. */
  ghost predicate Freed(idx: seq<nat>, owner: seq<int>, spilled: seq<nat>, upto: nat) {
    upto <= |spilled| && forall j :: 0 <= j < upto ==>
      spilled[j] < |idx| && idx[spilled[j]] < |owner| && owner[idx[spilled[j]]] == NO_KEY
  }

  /** Also spills the owner of every slot a spilled key probes, those it adds included. */
  method CoSpill(idx: seq<nat>, owner0: seq<int>, spilled0: seq<nat>) returns (owner: seq<int>, spilled: seq<nat>)
    requires Owned(idx, owner0, SetOf(spilled0)) && NoRepeats(spilled0)
    requires forall j :: 0 <= j < |spilled0| ==> spilled0[j] < |idx|
    ensures Owned(idx, owner, SetOf(spilled)) && NoRepeats(spilled) && spilled0 <= spilled
    ensures Freed(idx, owner, spilled, |spilled|) && SharersOf(idx, spilled0, spilled)
  {
    hide Owned, NoRepeats, Freed, OwnedSlots, SetOf, Shares;
    owner, spilled := owner0, spilled0;
    assert Freed(idx, owner, spilled, 0) by { NoneFreed(idx, owner, spilled); }
    AllShare(idx, spilled0);
    var si := 0;
    while si < |spilled|
      invariant 0 <= si <= |spilled| && Owned(idx, owner, SetOf(spilled)) && NoRepeats(spilled)
      invariant spilled0 <= spilled && forall j :: 0 <= j < |spilled| ==> spilled[j] < |idx|
      invariant Freed(idx, owner, spilled, si)
      invariant forall j :: 0 <= j < |spilled| ==> Shares(idx, spilled0, spilled[j])
      decreases |OwnedSlots(owner)| + |spilled| - si
    {
      OwnedIndex(idx, owner, SetOf(spilled), spilled[si]);
      var pos := idx[spilled[si]];
      FreedStep(idx, owner, spilled, si);
      if owner[pos] != NO_KEY {
        CoSpillStep(idx, owner, spilled, pos);
        OwnerShares(idx, owner, SetOf(spilled), spilled0, spilled[si]);
        owner, spilled := owner[pos := NO_KEY], spilled + [owner[pos]];
      }
      si := si + 1;
    }
    FreedIsShared(idx, owner, spilled0, spilled);
  }

  /** Key `i` probes the slot of one of the spilled keys. */
  ghost predicate Shares(idx: seq<nat>, spilled: seq<nat>, i: nat) {
    i < |idx| && exists j :: 0 <= j < |spilled| && spilled[j] < |idx| && idx[spilled[j]] == idx[i]
  }

  /** The keys that probe the slot of a spilled key, the spilled ones first. */
  ghost predicate SharersOf(idx: seq<nat>, spilled0: seq<nat>, spilled: seq<nat>) {
    spilled0 <= spilled && forall i: nat :: i in spilled <==> Shares(idx, spilled0, i)
  }

  lemma AllShare(idx: seq<nat>, spilled: seq<nat>)
    requires forall j :: 0 <= j < |spilled| ==> spilled[j] < |idx|
    ensures forall j :: 0 <= j < |spilled| ==> Shares(idx, spilled, spilled[j])
  {
  }

  lemma OwnerShares(idx: seq<nat>, owner: seq<int>, out: set<nat>, spilled0: seq<nat>, i: nat)
    requires Owned(idx, owner, out) && i < |idx| && Shares(idx, spilled0, i) && owner[idx[i]] != NO_KEY
    ensures 0 <= owner[idx[i]] < |idx| && Shares(idx, spilled0, owner[idx[i]])
  {
  }

  lemma FreedIsShared(idx: seq<nat>, owner: seq<int>, spilled0: seq<nat>, spilled: seq<nat>)
    requires Owned(idx, owner, SetOf(spilled)) && Freed(idx, owner, spilled, |spilled|) && spilled0 <= spilled
    requires forall j :: 0 <= j < |spilled| ==> Shares(idx, spilled0, spilled[j])
    ensures SharersOf(idx, spilled0, spilled)
  {
    forall i: nat | Shares(idx, spilled0, i)
      ensures i in spilled
    {
      var j :| 0 <= j < |spilled0| && spilled0[j] < |idx| && idx[spilled0[j]] == idx[i];
      assert spilled[j] == spilled0[j] && owner[idx[spilled[j]]] == NO_KEY;
    }
  }

  lemma NoneFreed(idx: seq<nat>, owner: seq<int>, spilled: seq<nat>)
    ensures Freed(idx, owner, spilled, 0)
  {
  }

  lemma OwnedIndex(idx: seq<nat>, owner: seq<int>, out: set<nat>, i: nat)
    requires Owned(idx, owner, out) && i < |idx|
    ensures idx[i] < |owner|
    ensures owner[idx[i]] != NO_KEY ==> 0 <= owner[idx[i]] < |idx|
  {
  }

  /** Freeing the slot a spilled key probes, or finding it free. */
  lemma FreedStep(idx: seq<nat>, owner: seq<int>, spilled: seq<nat>, si: nat)
    requires Freed(idx, owner, spilled, si) && si < |spilled| && spilled[si] < |idx| && idx[spilled[si]] < |owner|
    ensures owner[idx[spilled[si]]] == NO_KEY ==> Freed(idx, owner, spilled, si + 1)
    ensures forall x: nat :: Freed(idx, owner[idx[spilled[si]] := NO_KEY], spilled + [x], si + 1)
  {
  }

  lemma OwnedIsClear(mix: nat -> nat, keys: seq<nat>, sol: Solution, sol': Solution, owner: seq<int>)
    requires Solved(mix, keys, sol) && sol' == sol.(spilled := sol'.spilled)
    requires Owned(sol.idx, owner, SetOf(sol'.spilled)) && NoRepeats(sol'.spilled)
    requires Freed(sol.idx, owner, sol'.spilled, |sol'.spilled|)
    ensures Solved(mix, keys, sol') && SidecarClear(keys, sol')
  {
    hide BucketOf, SlotOf;
    forall i, j | 0 <= i < j < |keys| && i !in sol'.spilled && j !in sol'.spilled
      ensures sol.idx[i] != sol.idx[j]
    {
      assert owner[sol.idx[i]] == i && owner[sol.idx[j]] == j;
    }
    forall i, j | i in sol'.spilled && 0 <= j < |keys| && j !in sol'.spilled
      ensures sol.idx[i] != sol.idx[j]
    {
      assert owner[sol.idx[j]] == j;
    }
  }

  /** What a seed comes to after the co-spill. */
  ghost predicate CoOutcome(mix: nat -> nat, keys: seq<nat>, seedTry: nat, nBuckets: nat, sol: Solution) {
    exists first: Solution :: Outcome(mix, keys, seedTry, nBuckets, first) && CoSpills(first, sol)
  }

  ghost predicate CoSpills(first: Solution, sol: Solution) {
    sol == first.(spilled := sol.spilled) && NoRepeats(sol.spilled) && SharersOf(first.idx, first.spilled, sol.spilled)
  }

  ghost predicate ChosenCoSpilled(mix: nat -> nat, keys: seq<nat>, sol: Solution) {
    exists tried: seq<Solution> :: CoTries(mix, keys, tried) && Best(tried, sol)
  }

  ghost predicate CoTries(mix: nat -> nat, keys: seq<nat>, tried: seq<Solution>) {
    forall j :: 0 <= j < |tried| ==> CoOutcome(mix, keys, j, BucketCount(|keys|), tried[j])
  }

  /** The C++ solver: as the host's, with the co-spill after each try. */
  method ChdSolveCoSpilling(mix: nat -> nat, keys: seq<nat>) returns (r: Option<Solution>)
    ensures r.Some? && Solved(mix, keys, r.value) && SidecarClear(keys, r.value)
    ensures r.value.nBuckets == BucketCount(|keys|)
    ensures keys != [] ==> ChosenCoSpilled(mix, keys, r.value)
  {
    hide BucketOf, SlotOf, CoOutcome, Solved, NoRepeats;
    if |keys| == 0 {
      EmptySolved(mix, keys);
      return Some(EMPTY_SOLUTION);
    }
    var best: Option<Solution> := None;
    ghost var tried: seq<Solution> := [];
    for seedTry := 0 to MAX_SEED_RETRIES
      invariant |tried| == seedTry && (seedTry > 0 ==> best.Some?)
      invariant CoTries(mix, keys, tried) && forall j :: 0 <= j < |tried| ==> tried[j].spilled != []
      invariant best.Some? ==>
        && Solved(mix, keys, best.value) && SidecarFree(keys, best.value)
        && best.value.nBuckets == BucketCount(|keys|)
        && best.value.seed < |tried| && tried[best.value.seed] == best.value
        && (forall j :: 0 <= j < |tried| ==> |best.value.spilled| <= |tried[j].spilled|)
        && (forall j :: 0 <= j < best.value.seed ==> |best.value.spilled| < |tried[j].spilled|)
    {
      var sol := TryCoSpilled(mix, keys, seedTry, BucketCount(|keys|));
      tried := tried + [sol];
      if sol.spilled == [] {
        assert Best(tried, sol);
        return Some(sol);
      }
      if best.None? || |sol.spilled| < |best.value.spilled| { best := Some(sol); }
    }
    assert Best(tried, best.value);
    r := best;
  }

  lemma EmptySolved(mix: nat -> nat, keys: seq<nat>)
    requires keys == []
    ensures Solved(mix, keys, EMPTY_SOLUTION)
  {
  }

  ghost predicate SidecarFree(keys: seq<nat>, sol: Solution) {
    && |sol.idx| == |keys| && (forall i :: i in sol.spilled ==> i < |keys|)
    && SidecarClear(keys, sol)
  }

  /** One seed of the C++ solver. */
  method TryCoSpilled(mix: nat -> nat, keys: seq<nat>, seedTry: nat, nBuckets: nat) returns (sol: Solution)
    requires nBuckets > 0
    ensures CoOutcome(mix, keys, seedTry, nBuckets, sol) && sol.seed == seedTry && sol.nBuckets == nBuckets
    ensures Solved(mix, keys, sol) && SidecarFree(keys, sol)
  {
    hide BucketOf, SlotOf, Outcome, Owned, Freed;
    var first, owner0 := TrySeed(mix, keys, seedTry, nBuckets);
    assert forall j :: 0 <= j < |first.spilled| ==> first.spilled[j] in first.spilled;
    var owner, spilled := CoSpill(first.idx, owner0, first.spilled);
    sol := first.(spilled := spilled);
    OwnedIsClear(mix, keys, first, sol, owner);
    assert CoSpills(first, sol);
  }
}
