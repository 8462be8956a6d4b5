/**
  The open-addressed key -> value index behind the HashState backend
  (zilk_core/core/common_zz/hash_index.hpp): linear probing with wraparound, growth by
  doubling, an overwriting insert and a first-wins insert.

  Everything holds for every hash function; the index is proved to behave as a plain map.
  */
module HashIndex {
  import opened Basics

  const MIN_CAPACITY: nat := 8
  const MAX_CAPACITY: nat := 0x8000_0000
  const MAX_ENTRIES: nat := 0x4000_0000

  // ---------- Power-of-two capacities ----------

  predicate IsPow2(n: nat) {
    n == 1 || (n > 0 && n % 2 == 0 && IsPow2(n / 2))
  }

  /** Bitwise and of two numbers. */
  function And(a: nat, b: nat): (r: nat)
    ensures r <= b
  {
    if a == 0 || b == 0 then 0 else 2 * And(a / 2, b / 2) + (a % 2) * (b % 2)
  }

  /** One step of the mask: the lowest bit, and the rest of both numbers. */
  lemma AndStep(h: nat, half: nat)
    requires half > 0
    ensures And(h, 2 * half - 1) == 2 * And(h / 2, half - 1) + h % 2
  {
    assert (2 * half - 1) / 2 == half - 1 && (2 * half - 1) % 2 == 1;
    assert (h % 2) * 1 == h % 2;
  }

  lemma AndNothing(h: nat)
    ensures And(h, 0) == 0
  {
  }

  /** The mask of `index_of` equals the modulo, because capacities are powers of two. */
  lemma {:induction false} MaskIsModulo(h: nat, capacity: nat)
    requires IsPow2(capacity)
    ensures And(h, capacity - 1) == h % capacity
    decreases capacity
  {
    hide And;
    if capacity == 1 {
      AndNothing(h);
    } else {
      var half := Half(capacity);
      MaskIsModulo(h / 2, half);
      AndStep(h, half);
      HalveModulo(h, half);
    }
  }

  lemma Half(capacity: nat) returns (half: nat)
    requires IsPow2(capacity) && capacity != 1
    ensures half > 0 && capacity == 2 * half && IsPow2(half)
  {
    half := capacity / 2;
  }

  lemma HalveModulo(h: nat, half: nat)
    requires half > 0
    ensures h % (2 * half) == 2 * ((h / 2) % half) + h % 2
  {
    var g := h / 2;
    var q, r := g / half, g % half;
    Halved(h, half, g, q, r);
    QuotientRemainder(h, 2 * half, q, 2 * r + h % 2);
  }

  lemma Halved(h: nat, half: nat, g: nat, q: nat, r: nat)
    requires half > 0 && g == h / 2 && q == g / half && r == g % half
    ensures h == (2 * r + h % 2) + (2 * half) * q && 2 * r + h % 2 < 2 * half
  {
    assert h == 2 * g + h % 2;
    assert g == half * q + r;
    assert (2 * half) * q == 2 * (half * q);
  }

  /** The least power of two at or above `n`, as `std::bit_ceil`. */
  method BitCeil(n: nat) returns (p: nat)
    requires n > 0
    ensures IsPow2(p) && n <= p < 2 * n
  {
    p := 1;
    while p < n
      invariant IsPow2(p) && p < 2 * n
    {
      p := 2 * p;
    }
  }

  /** The least power of two from 8 on that keeps `entries` at load one half, clamped to 2^31. */
  ghost predicate Sized(entries: nat, capacity: nat) {
    && IsPow2(capacity) && 8 <= capacity <= 0x8000_0000
    && (if entries <= 0x4000_0000 then 2 * entries <= capacity else capacity == 0x8000_0000)
    && (8 < capacity ==> capacity < 4 * entries)
  }

  /** There is one such capacity. */
  lemma SizedIsOne(entries: nat, c: nat, d: nat)
    requires Sized(entries, c) && Sized(entries, d)
    ensures c == d
  {
    hide IsPow2;
    if c < 2 * d { Pow2Below(c, d); }
    if d < 2 * c { Pow2Below(d, c); }
  }

  method CapacityFor(entries: nat) returns (capacity: nat)
    ensures Sized(entries, capacity)
  {
    hide IsPow2;
    var want := BitCeil(if MIN_CAPACITY > 2 * entries then MIN_CAPACITY else 2 * entries);
    Pow2OfMax();
    if 2 * entries <= MIN_CAPACITY { Pow2Below(want, MIN_CAPACITY); }
    if want < MAX_CAPACITY {
      capacity := want;
    } else {
      capacity := MAX_CAPACITY;
      if entries <= MAX_ENTRIES { Pow2Below(want, MAX_CAPACITY); }
    }
  }

  lemma Pow2OfMax()
    ensures IsPow2(MAX_CAPACITY) && IsPow2(MIN_CAPACITY)
  {
    assert IsPow2(0x8);
    assert IsPow2(0x80) by { assert IsPow2(0x40) && IsPow2(0x20) && IsPow2(0x10); }
    assert IsPow2(0x800) by { assert IsPow2(0x400) && IsPow2(0x200) && IsPow2(0x100); }
    assert IsPow2(0x8000) by { assert IsPow2(0x4000) && IsPow2(0x2000) && IsPow2(0x1000); }
    assert IsPow2(0x8_0000) by { assert IsPow2(0x4_0000) && IsPow2(0x2_0000) && IsPow2(0x1_0000); }
    assert IsPow2(0x80_0000) by { assert IsPow2(0x40_0000) && IsPow2(0x20_0000) && IsPow2(0x10_0000); }
    assert IsPow2(0x800_0000) by { assert IsPow2(0x400_0000) && IsPow2(0x200_0000) && IsPow2(0x100_0000); }
    assert IsPow2(0x4000_0000) && IsPow2(0x2000_0000) by { assert IsPow2(0x1000_0000); }
  }

  /** Powers of two are spaced: one below 2q is at most q. */
  lemma {:induction false} Pow2Below(p: nat, q: nat)
    requires IsPow2(p) && IsPow2(q) && p < 2 * q
    ensures p <= q
  {
    if p > 1 && q > 1 { Pow2Below(p / 2, q / 2); }
  }

  // ---------- Tables as values ----------

  datatype Bucket<K, V> = Bucket(key: K, value: V)

  /** The bucket after `i`, wrapping at the table end. */
  function Next(i: nat, n: nat): nat {
    if i + 1 >= n then 0 else i + 1
  }

  /** The bucket a linear probe from `home` inspects after `steps` steps. */
  function Probe(home: nat, steps: nat, n: nat): (i: nat) {
    if home + steps >= n then home + steps - n else home + steps
  }

  /** How many linear-probe steps lead from `home` to `i` in a table of `n` buckets. */
  function Distance(home: nat, i: nat, n: nat): (d: nat)
    requires home < n && i < n
    ensures d < n && Probe(home, d, n) == i
  {
    if i >= home then i - home else i + n - home
  }

  /** The home bucket of a key, also its probe start: the hash masked to the table. */
  function Home<K>(hash: K -> nat, key: K, n: nat): (h: nat)
    requires n > 0
    ensures h < n
  {
    And(hash(key), n - 1)
  }

  ghost predicate Full<K, V>(bs: seq<Bucket<K, V>>, empty: V, home: nat, steps: nat)
    requires home < |bs| && steps <= |bs|
  {
    forall t :: 0 <= t < steps ==> bs[Probe(home, t, |bs|)].value != empty
  }

  /**
    The table `bs` holds exactly the map `m`, entry `k` in bucket `at[k]`: no occupied bucket
    is outside `m`, and no probe chain from a key's home bucket to its bucket has a gap.
    */
  ghost predicate Holds<K, V>(bs: seq<Bucket<K, V>>, empty: V, hash: K -> nat,
                                          m: map<K, V>, at: map<K, nat>)
  {
    && |bs| > 0
    && at.Keys == m.Keys
    && (forall k :: k in m ==> at[k] < |bs| && bs[at[k]] == Bucket(k, m[k]) && m[k] != empty)
    && (forall i :: 0 <= i < |bs| && bs[i].value != empty ==> bs[i].key in m && at[bs[i].key] == i)
    && (forall k :: k in m ==>
          Full(bs, empty, Home(hash, k, |bs|), Distance(Home(hash, k, |bs|), at[k], |bs|)))
  }

  /** A probe that has met only other keys and stops at an empty bucket proves the key absent. */
  lemma EmptyBucketEndsProbe<K, V>(bs: seq<Bucket<K, V>>, empty: V, hash: K -> nat,
                                   m: map<K, V>, at: map<K, nat>, key: K, steps: nat)
    requires Holds(bs, empty, hash, m, at)
    requires steps < |bs|
    requires forall t :: 0 <= t < steps ==> bs[Probe(Home(hash, key, |bs|), t, |bs|)].key != key
    requires bs[Probe(Home(hash, key, |bs|), steps, |bs|)].value == empty
    ensures key !in m
  {
    assert key in m ==> Full(bs, empty, Home(hash, key, |bs|), Distance(Home(hash, key, |bs|), at[key], |bs|));
  }

  lemma EmptyHolds<K, V>(bs: seq<Bucket<K, V>>, empty: V, hash: K -> nat)
    requires |bs| > 0 && forall i :: 0 <= i < |bs| ==> bs[i].value == empty
    ensures Holds(bs, empty, hash, map[], map[])
  {
  }

  /** An occupied bucket is where its key is. */
  lemma HitIsAt<K, V>(bs: seq<Bucket<K, V>>, empty: V, hash: K -> nat, m: map<K, V>, at: map<K, nat>, i: nat)
    requires Holds(bs, empty, hash, m, at) && i < |bs| && bs[i].value != empty
    ensures bs[i].key in m && bs[i].key in at && at[bs[i].key] == i
  {
  }

  /** Claiming the empty bucket a probe ended at adds the key to the map. */
  lemma ClaimAdds<K, V>(bs: seq<Bucket<K, V>>, empty: V, hash: K -> nat,
                        m: map<K, V>, at: map<K, nat>, key: K, value: V, steps: nat)
    requires Holds(bs, empty, hash, m, at)
    requires steps < |bs| && value != empty && key !in m
    requires Full(bs, empty, Home(hash, key, |bs|), steps)
    requires bs[Probe(Home(hash, key, |bs|), steps, |bs|)].value == empty
    ensures var i := Probe(Home(hash, key, |bs|), steps, |bs|);
            Holds(bs[i := Bucket(key, value)], empty, hash, m[key := value], at[key := i])
  {
    var i := Probe(Home(hash, key, |bs|), steps, |bs|);
    var bs', at', m' := bs[i := Bucket(key, value)], at[key := i], m[key := value];
    assert Distance(Home(hash, key, |bs|), i, |bs|) == steps;
    forall k | k in m'
      ensures Full(bs', empty, Home(hash, k, |bs'|), Distance(Home(hash, k, |bs'|), at'[k], |bs'|))
    {
      if k != key {
        assert Full(bs, empty, Home(hash, k, |bs|), Distance(Home(hash, k, |bs|), at[k], |bs|));
      }
    }
  }

  /** Overwriting the value of a present key changes the map there and nowhere else. */
  lemma OverwriteUpdates<K, V>(bs: seq<Bucket<K, V>>, empty: V, hash: K -> nat,
                               m: map<K, V>, at: map<K, nat>, i: nat, value: V)
    requires Holds(bs, empty, hash, m, at)
    requires i < |bs| && value != empty && bs[i].value != empty
    ensures Holds(bs[i := Bucket(bs[i].key, value)], empty, hash, m[bs[i].key := value], at)
  {
    var key := bs[i].key;
    var bs' := bs[i := Bucket(key, value)];
    forall k | k in m
      ensures Full(bs', empty, Home(hash, k, |bs'|), Distance(Home(hash, k, |bs'|), at[k], |bs'|))
    {
      assert Full(bs, empty, Home(hash, k, |bs|), Distance(Home(hash, k, |bs|), at[k], |bs|));
    }
    assert m[key := value].Keys == m.Keys;
  }

  /** A table with fewer entries than buckets has an empty bucket on every probe sequence. */
  lemma EmptyBucketAhead<K, V>(bs: seq<Bucket<K, V>>, empty: V, hash: K -> nat,
                               m: map<K, V>, at: map<K, nat>, home: nat) returns (steps: nat)
    requires Holds(bs, empty, hash, m, at)
    requires |m| < |bs| && home < |bs|
    ensures steps < |bs| && bs[Probe(home, steps, |bs|)].value == empty
  {
    var all := Below(|bs|);
    var used := set k | k in m :: at[k];
    ImageSize(m.Keys, at);
    if all <= used { KeySubsetSize(all, used); }
    var i :| i in all && i !in used;
    steps := Distance(home, i, |bs|);
    assert Probe(home, steps, |bs|) == i;
  }

  /** The entries of the first `j` buckets. */
  ghost function Prefix<K, V>(m: map<K, V>, at: map<K, nat>, j: nat): map<K, V>
    requires at.Keys == m.Keys
  {
    map k | k in m && at[k] < j :: m[k]
  }

  lemma PrefixStep<K, V>(bs: seq<Bucket<K, V>>, empty: V, hash: K -> nat,
                         m: map<K, V>, at: map<K, nat>, j: nat)
    requires Holds(bs, empty, hash, m, at) && j < |bs|
    ensures bs[j].value == empty ==> Prefix(m, at, j + 1) == Prefix(m, at, j)
    ensures bs[j].value != empty ==>
      && bs[j].key !in Prefix(m, at, j)
      && Prefix(m, at, j + 1) == Prefix(m, at, j)[bs[j].key := bs[j].value]
  {
    assert forall k :: k in m && at[k] == j ==> bs[j] == Bucket(k, m[k]);
  }

  ghost function Below(n: nat): (r: set<nat>)
    ensures |r| == n && forall i: nat :: i in r <==> i < n
  {
    if n == 0 then {} else Below(n - 1) + {n - 1}
  }

  lemma {:induction false} ImageSize<K>(ks: set<K>, at: map<K, nat>)
    requires ks <= at.Keys
    ensures |set k | k in ks :: at[k]| <= |ks|
  {
    if ks != {} {
      var k :| k in ks;
      ImageSize(ks - {k}, at);
      assert (set x | x in ks :: at[x]) == (set x | x in ks - {k} :: at[x]) + {at[k]};
    }
  }

  // ---------- The index ----------

  datatype InsertResult = Inserted | Existed | Rejected

  class Index<K(==), V(==)> {
    const hash: K -> nat          // mix64_body(Key8(key))
    const blank: Bucket<K, V>     // the value-initialised bucket; its value marks a free bucket
    var buckets: array<Bucket<K, V>>
    var capacity: nat
    var mask: nat
    var size: nat

    ghost var contents: map<K, V>
    ghost var at: map<K, nat>

    ghost predicate Valid()
      reads this, buckets
    {
      && capacity == buckets.Length && mask == capacity - 1
      && IsPow2(capacity) && MIN_CAPACITY <= capacity <= MAX_CAPACITY
      && size == |contents| && 2 * size <= capacity
      && Holds(buckets[..], blank.value, hash, contents, at)
    }

    constructor (hash: K -> nat, blank: Bucket<K, V>, expectedEntries: nat)
      ensures Valid() && fresh(buckets) && Sized(expectedEntries, capacity)
      ensures contents == map[] && this.hash == hash && this.blank == blank
    {
      this.hash, this.blank := hash, blank;
      var c := CapacityFor(expectedEntries);
      capacity, mask, size := c, c - 1, 0;
      buckets := new Bucket<K, V>[c](_ => blank);
      contents, at := map[], map[];
    }

    /** Home bucket of a key: its hash modulo the capacity. */
    function IndexOf(key: K): (i: nat)
      reads this
      requires mask + 1 == capacity && IsPow2(capacity)
      ensures i == hash(key) % capacity == Home(hash, key, capacity)
    {
      MaskIsModulo(hash(key), capacity);
      And(hash(key), mask)
    }

    /** An empty table is enlarged to the size for `expected`, and never made smaller. */
    method Reserve(expected: nat)
      requires Valid()
      modifies this
      ensures Valid() && contents == old(contents)
      ensures capacity == old(capacity) ==> buckets == old(buckets)
      ensures capacity != old(capacity) ==> fresh(buckets)
      ensures old(size) != 0 ==> capacity == old(capacity)
      ensures old(size) == 0 ==> exists want: nat :: Sized(expected, want) && capacity == if want > old(capacity) then want else old(capacity)
    {
      hide IsPow2, Holds;
      if size != 0 { return; }
      var want := CapacityFor(expected);
      if want <= capacity { return; }
      capacity, mask := want, want - 1;
      buckets := new Bucket<K, V>[want](_ => blank);
      at := map[];
      assert contents == map[];
      EmptyHolds(buckets[..], blank.value, hash);
    }

    /** The probe loop: the bucket of `key`, or the free bucket where its probe chain ends. */
    method Locate(key: K) returns (r: Located, ghost steps: nat)
      requires Valid()
      ensures !r.TableFull?
      ensures key in contents ==> r == Hit(at[key])
      ensures key !in contents ==>
        && r.Free? && r.i == Probe(Home(hash, key, capacity), steps, capacity)
        && steps < capacity && buckets[r.i].value == blank.value
        && Full(buckets[..], blank.value, Home(hash, key, capacity), steps)
    {
      hide IsPow2, Holds, And;
      r, steps := TableFull, 0;
      var i, probes := IndexOf(key), 0;
      ghost var home := i;
      ghost var last := EmptyBucketAhead(buckets[..], blank.value, hash, contents, at, home);
      while probes < capacity
        invariant probes <= last && i == Probe(home, probes, capacity)
        invariant Full(buckets[..], blank.value, home, probes)
        invariant forall t :: 0 <= t < probes ==> buckets[Probe(home, t, capacity)].key != key
        decreases last - probes
      {
        if buckets[i].value == blank.value {
          EmptyBucketEndsProbe(buckets[..], blank.value, hash, contents, at, key, probes);
          return Free(i), probes;
        }
        if buckets[i].key == key {
          HitIsAt(buckets[..], blank.value, hash, contents, at, i);
          return Hit(i), probes;
        }
        i, probes := Next(i, capacity), probes + 1;
      }
      assert false;
    }

    method Find(key: K) returns (r: Option<V>)
      requires Valid()
      ensures r == if key in contents then Some(contents[key]) else None
    {
      var l, _ := Locate(key);
      match l
      case Hit(i) => r := Some(buckets[i].value);
      case _ => r := None;
    }

    /** Claims the first free bucket of a key's probe chain in a table that holds `m`. */
    method Rehash(b: Bucket<K, V>, ghost m: map<K, V>, ghost where: map<K, nat>) returns (i: nat)
      requires capacity == buckets.Length && mask == capacity - 1 && |m| < capacity && IsPow2(capacity)
      requires Holds(buckets[..], blank.value, hash, m, where)
      requires b.key !in m && b.value != blank.value
      modifies buckets
      ensures Holds(buckets[..], blank.value, hash, m[b.key := b.value], where[b.key := i])
    {
      hide IsPow2, And, Holds;
      i := IndexOf(b.key);
      ghost var home, steps := i, 0;
      ghost var last := EmptyBucketAhead(buckets[..], blank.value, hash, m, where, home);
      while buckets[i].value != blank.value
        invariant steps <= last && i == Probe(home, steps, capacity)
        invariant Full(buckets[..], blank.value, home, steps)
        decreases last - steps
      {
        i, steps := Next(i, capacity), steps + 1;
      }
      ClaimAdds(buckets[..], blank.value, hash, m, where, b.key, b.value, steps);
      ghost var before := buckets[..];
      buckets[i] := b;
      assert buckets[..] == before[i := Bucket(b.key, b.value)];
    }

    /** Moves every entry of `before` into the empty table `buckets`. */
    method RehashAll(before: array<Bucket<K, V>>) returns (ghost moved: map<K, nat>)
      requires before != buckets && capacity == buckets.Length && mask == capacity - 1
      requires |contents| < capacity && IsPow2(capacity)
      requires Holds(before[..], blank.value, hash, contents, at)
      requires Holds(buckets[..], blank.value, hash, map[], map[])
      modifies buckets
      ensures Holds(buckets[..], blank.value, hash, contents, moved)
    {
      moved := map[];
      assert Prefix(contents, at, 0) == map[];
      for j := 0 to before.Length
        invariant before[..] == old(before[..])
        invariant Holds(buckets[..], blank.value, hash, Prefix(contents, at, j), moved)
      {
        PrefixStep(before[..], blank.value, hash, contents, at, j);
        if before[j].value != blank.value {
          KeySubsetSize(Prefix(contents, at, j).Keys, contents.Keys);
          ghost var i := Rehash(before[j], Prefix(contents, at, j), moved);
          moved := moved[before[j].key := i];
        }
      }
      assert Prefix(contents, at, before.Length) == contents by {
        assert forall k :: k in contents ==> at[k] < |before[..]|;
      }
    }

    /** Doubles the table and rehashes every entry; the map is unchanged. */
    method Grow()
      requires Valid()
      requires size < MAX_ENTRIES && 2 * (size + 1) > capacity
      modifies this
      ensures Valid() && fresh(buckets)
      ensures contents == old(contents) && size == old(size)
      ensures capacity == 2 * old(capacity)
    {
      hide IsPow2, Holds, And;
      var before := buckets;
      GrownFits(capacity, size);
      capacity := 2 * capacity;
      mask := capacity - 1;
      buckets := new Bucket<K, V>[capacity](_ => blank);
      EmptyHolds(buckets[..], blank.value, hash);
      at := RehashAll(before);
    }

    /** Places or overwrites; only the sentinel value is refused. */
    method Insert(key: K, value: V) returns (ok: bool)
      requires Valid() && (value != blank.value ==> size < MAX_ENTRIES)
      modifies this, buckets
      ensures Valid() && (buckets == old(buckets) || fresh(buckets))
      ensures ok <==> value != blank.value
      ensures contents == if ok then old(contents)[key := value] else old(contents)
    {
      hide IsPow2;
      if value == blank.value { return false; }
      if (size + 1) * 2 > capacity { Grow(); }
      var l, steps := Locate(key);
      match l {
        case Free(i) => Claim(key, value, i, steps); ok := true;
        case Hit(i) =>
          Overwrite(key, value, i);
          ok := true;
        case TableFull => ok := false;
      }
    }

    method Overwrite(key: K, value: V, i: nat)
      requires Valid() && key in contents && at[key] == i && value != blank.value
      modifies buckets, `contents
      ensures Valid() && contents == old(contents)[key := value]
    {
      hide IsPow2;
      OverwriteUpdates(buckets[..], blank.value, hash, contents, at, i, value);
      buckets[i] := Bucket(buckets[i].key, value);
      contents := contents[key := value];
    }

    /** First wins: a present key keeps its value. */
    method TryInsert(key: K, value: V) returns (r: InsertResult)
      requires Valid() && (value != blank.value ==> size < MAX_ENTRIES)
      modifies this, buckets
      ensures Valid() && (buckets == old(buckets) || fresh(buckets))
      ensures r == if value == blank.value then Rejected
                   else if key in old(contents) then Existed else Inserted
      ensures contents == if r == Inserted then old(contents)[key := value] else old(contents)
    {
      hide IsPow2;
      if value == blank.value { return Rejected; }
      if (size + 1) * 2 > capacity { Grow(); }
      var l, steps := Locate(key);
      match l {
        case Free(i) => Claim(key, value, i, steps); r := Inserted;
        case Hit(_) => r := Existed;
        case TableFull => r := Rejected;
      }
    }

    method Claim(key: K, value: V, i: nat, ghost steps: nat)
      requires Valid() && 2 * (size + 1) <= capacity && value != blank.value
      requires key !in contents && steps < capacity
      requires i == Probe(Home(hash, key, capacity), steps, capacity)
      requires buckets[i].value == blank.value
      requires Full(buckets[..], blank.value, Home(hash, key, capacity), steps)
      modifies this, buckets
      ensures Valid() && buckets == old(buckets)
      ensures contents == old(contents)[key := value]
    {
      ClaimAdds(buckets[..], blank.value, hash, contents, at, key, value, steps);
      buckets[i] := Bucket(key, value);
      size := size + 1;
      contents, at := contents[key := value], at[key := i];
    }

    method Clear()
      requires Valid()
      modifies this, buckets
      ensures Valid() && buckets == old(buckets)
      ensures contents == map[]
    {
      if size == 0 {
        assert contents == map[];
        return;
      }
      forall j | 0 <= j < buckets.Length { buckets[j] := blank; }
      size := 0;
      contents, at := map[], map[];
    }
  }

  datatype Located = Free(i: nat) | Hit(i: nat) | TableFull

  // ---------- Runs ----------

  datatype Op<K, V> = Reserve(expected: nat) | Insert(key: K, value: V) | TryInsert(key: K, value: V)
                    | Find(key: K) | Clear

  datatype Answer<V> = Done | Stored(ok: bool) | Tried(result: InsertResult) | Found(value: Option<V>)

  /** What a plain map answers to an operation, and the map after it. */
  function Step<K, V(==)>(op: Op<K, V>, empty: V, m: map<K, V>): (r: (map<K, V>, Answer<V>))
    ensures |r.0| <= |m| + 1
  {
    match op
    case Reserve(_) => (m, Done)
    case Insert(k, v) => if v == empty then (m, Stored(false)) else (m[k := v], Stored(true))
    case TryInsert(k, v) =>
      if v == empty then (m, Tried(Rejected))
      else if k in m then (m, Tried(Existed)) else (m[k := v], Tried(Inserted))
    case Find(k) => (m, Found(if k in m then Some(m[k]) else None))
    case Clear => (map[], Done)
  }

  /** The map and the answers after a whole run. */
  function Run<K, V(==)>(ops: seq<Op<K, V>>, empty: V): (r: (map<K, V>, seq<Answer<V>>))
    ensures |r.0| <= |ops|
  {
    if ops == [] then (map[], [])
    else
      var (m, answers) := Run(ops[..|ops| - 1], empty);
      var (m', a) := Step(ops[|ops| - 1], empty, m);
      (m', answers + [a])
  }

  /** Only these operations may grow the table. */
  predicate Writes<K, V(==)>(op: Op<K, V>, empty: V) {
    (op.Insert? || op.TryInsert?) && op.value != empty
  }

  /** Before every write of the run there are fewer than 2^30 entries. */
  ghost predicate StaysSmall<K, V>(ops: seq<Op<K, V>>, empty: V) {
    forall n {:trigger ops[..n]} :: 0 <= n < |ops| && Writes(ops[n], empty) ==> |Run(ops[..n], empty).0| < MAX_ENTRIES
  }

  /** One operation on the index does to its contents what it does to a plain map. */
  method Perform<K(==), V(==)>(index: Index<K, V>, op: Op<K, V>) returns (a: Answer<V>)
    requires index.Valid() && (Writes(op, index.blank.value) ==> |index.contents| < MAX_ENTRIES)
    modifies index, index.buckets
    ensures index.Valid() && (index.buckets == old(index.buckets) || fresh(index.buckets))
    ensures (index.contents, a) == Step(op, index.blank.value, old(index.contents))
  {
    hide Holds, IsPow2;
    match op {
      case Reserve(e) => index.Reserve(e); a := Done;
      case Insert(k, v) => var ok := index.Insert(k, v); a := Stored(ok);
      case TryInsert(k, v) => var r := index.TryInsert(k, v); a := Tried(r);
      case Find(k) => var r := index.Find(k); a := Found(r);
      case Clear => index.Clear(); a := Done;
    }
  }

  lemma RunOfNothing<K, V>(ops: seq<Op<K, V>>, empty: V)
    ensures Run(ops[..0], empty) == (map[], [])
  {
  }

  lemma RunOfMore<K, V>(ops: seq<Op<K, V>>, n: nat, empty: V)
    requires n < |ops|
    ensures var r, s := Run(ops[..n], empty), Step(ops[n], empty, Run(ops[..n], empty).0);
            Run(ops[..n + 1], empty) == (s.0, r.1 + [s.1])
  {
    hide Step;
    assert ops[..n + 1][..n] == ops[..n] && ops[..n + 1][n] == ops[n];
  }

  /** Every run of operations on the index gives the answers of a plain map. */
  method Execute<K(==), V(==)>(hash: K -> nat, blank: Bucket<K, V>, expected: nat, ops: seq<Op<K, V>>)
    returns (answers: seq<Answer<V>>)
    requires StaysSmall(ops, blank.value)
    ensures answers == Run(ops, blank.value).1
  {
    hide Step, Run;
    var index := new Index(hash, blank, expected);
    answers := [];
    RunOfNothing(ops, blank.value);
    for n := 0 to |ops|
      invariant index.Valid() && fresh(index) && fresh(index.buckets) && index.blank == blank
      invariant (index.contents, answers) == Run(ops[..n], blank.value)
    {
      RunOfMore(ops, n, blank.value);
      var a := Perform(index, ops[n]);
      answers := answers + [a];
    }
    assert ops[..|ops|] == ops;
  }

  lemma GrownFits(capacity: nat, size: nat)
    requires IsPow2(capacity) && MIN_CAPACITY <= capacity <= MAX_CAPACITY
    requires 2 * size <= capacity && size < MAX_ENTRIES
    ensures IsPow2(2 * capacity)
    ensures capacity < MAX_CAPACITY || 2 * (size + 1) <= capacity
    ensures capacity < MAX_CAPACITY ==> 2 * capacity <= MAX_CAPACITY
  {
    Pow2OfMax();
    if capacity < MAX_CAPACITY { Pow2Below(2 * capacity, MAX_CAPACITY); }
  }

  lemma {:induction false} KeySubsetSize<K>(a: set<K>, b: set<K>)
    requires a <= b
    ensures |a| <= |b|
  {
    if a != {} {
      var x :| x in a;
      KeySubsetSize(a - {x}, b - {x});
    }
  }
}
