/**
  The write gathering of the HashState root check (zilk_core/dev/check_root_hashstate.hpp): the
  overlay of a block turned into sorted leaf writes, folded over the pre-state. Tries are the maps
  they hold, by hashed key; the fold deletes a leaf only where there is one, and turns a deletion
  of a missing leaf into a spurious insertion.
  */
module Gather {
  import opened Basics
  import opened Rlp
  import opened Sorting

  /** A leaf to write, or to delete. */
  datatype Write<V> = Write(hash: nat, leaf: Option<V>)

  function Get<V>(m: map<nat, V>, h: nat): Option<V> {
    if h in m then Some(m[h]) else None
  }

  /** One write as the trie fold takes it. */
  function ApplyOne<V>(m: map<nat, V>, w: Write<V>, spurious: V): map<nat, V> {
    if w.leaf.Some? then m[w.hash := w.leaf.value]
    else if w.hash in m then m - {w.hash}
    else m[w.hash := spurious]
  }

  function Apply<V>(m: map<nat, V>, writes: seq<Write<V>>, spurious: V): map<nat, V> {
    if writes == [] then m
    else ApplyOne(Apply(m, writes[..|writes| - 1], spurious), writes[|writes| - 1], spurious)
  }

  ghost predicate Ascending<V>(writes: seq<Write<V>>) {
    forall i, j :: 0 <= i < j < |writes| ==> writes[i].hash < writes[j].hash
  }

  ghost predicate Distinct<V>(writes: seq<Write<V>>) {
    forall i, j :: 0 <= i < j < |writes| ==> writes[i].hash != writes[j].hash
  }

  /** Every deletion is of a leaf that is there. */
  ghost predicate Deletes<V>(m: map<nat, V>, writes: seq<Write<V>>) {
    forall i :: 0 <= i < |writes| && writes[i].leaf.None? ==> writes[i].hash in m
  }

  /** What a list of changes means, whatever its order. */
  ghost predicate Denotes<V(!new)>(m: map<nat, V>, changes: seq<Write<V>>, result: map<nat, V>) {
    && (forall i :: 0 <= i < |changes| ==> Get(result, changes[i].hash) == changes[i].leaf)
    && (forall h: nat :: (forall i :: 0 <= i < |changes| ==> changes[i].hash != h) ==> Get(result, h) == Get(m, h))
  }

  /** The fold gives what the writes mean: no write meets another, and no deletion misses. */
  lemma {:induction false} ApplyDenotes<V(!new)>(m: map<nat, V>, writes: seq<Write<V>>, spurious: V)
    requires Distinct(writes) && Deletes(m, writes)
    ensures Denotes(m, writes, Apply(m, writes, spurious))
  {
    if writes != [] {
      var n := |writes| - 1;
      var rest, last := writes[..n], writes[n];
      ApplyDenotes(m, rest, spurious);
      var before := Apply(m, rest, spurious);
      assert Get(before, last.hash) == Get(m, last.hash);
      var after := ApplyOne(before, last, spurious);
      forall h: nat
        ensures Get(after, h) == if h == last.hash then last.leaf else Get(before, h)
      {
      }
      forall h: nat | forall i :: 0 <= i < |writes| ==> writes[i].hash != h
        ensures Get(after, h) == Get(m, h)
      {
        assert writes[n].hash != h;
        assert forall i :: 0 <= i < |rest| ==> rest[i].hash == writes[i].hash;
      }
    }
  }

  /** Every write is one of the changes, and every change not among the writes would change nothing. */
  ghost predicate Covers<V(!new)>(m: map<nat, V>, changes: seq<Write<V>>, writes: seq<Write<V>>) {
    && (forall w :: w in writes ==> w in changes)
    && (forall c :: c in changes ==> c in writes || c.leaf == Get(m, c.hash))
  }

  /** Leaving out changes that change nothing leaves the meaning as it was. */
  lemma CoverDenotes<V(!new)>(m: map<nat, V>, changes: seq<Write<V>>, writes: seq<Write<V>>, result: map<nat, V>)
    requires Distinct(changes) && Covers(m, changes, writes) && Denotes(m, writes, result)
    ensures Denotes(m, changes, result)
  {
    forall i | 0 <= i < |changes|
      ensures Get(result, changes[i].hash) == changes[i].leaf
    {
      assert changes[i] in changes;
      if changes[i] in writes {
        var j :| 0 <= j < |writes| && writes[j] == changes[i];
      } else {
        forall j | 0 <= j < |writes|
          ensures writes[j].hash != changes[i].hash
        {
          assert writes[j] in writes;
          var k :| 0 <= k < |changes| && changes[k] == writes[j];
        }
      }
    }
    forall h: nat | forall i :: 0 <= i < |changes| ==> changes[i].hash != h
      ensures Get(result, h) == Get(m, h)
    {
      forall j | 0 <= j < |writes|
        ensures writes[j].hash != h
      {
        assert writes[j] in writes;
        var k :| 0 <= k < |changes| && changes[k] == writes[j];
      }
    }
  }

  /** Writes taken from distinct changes and sorted by hash are in strictly ascending order. */
  method SortWrites<V(!new)>(raw: seq<Write<V>>) returns (writes: seq<Write<V>>)
    requires Distinct(raw)
    ensures Ascending(writes) && multiset(writes) == multiset(raw)
  {
    var key := (w: Write<V>) => w.hash as int;
    writes := SortBy(raw, key);
    StrictOrder(raw, writes);
  }

  lemma StrictOrder<V>(raw: seq<Write<V>>, writes: seq<Write<V>>)
    requires Distinct(raw) && multiset(writes) == multiset(raw)
    requires forall i, j :: 0 <= i < j < |writes| ==> writes[i].hash <= writes[j].hash
    ensures Ascending(writes)
  {
    forall i, j | 0 <= i < j < |writes|
      ensures writes[i].hash != writes[j].hash
    {
      SameHashSameWrite(raw, writes, i, j);
      CountOnce(raw, writes[i]);
      CountTwice(writes, i, j);
    }
  }

  lemma SameHashSameWrite<V>(raw: seq<Write<V>>, writes: seq<Write<V>>, i: nat, j: nat)
    requires Distinct(raw) && multiset(writes) == multiset(raw) && i < |writes| && j < |writes|
    ensures writes[i].hash == writes[j].hash ==> writes[i] == writes[j]
  {
    SameMembers(writes, raw, writes[i]);
    SameMembers(writes, raw, writes[j]);
    var a :| 0 <= a < |raw| && raw[a] == writes[i];
    var b :| 0 <= b < |raw| && raw[b] == writes[j];
  }

  lemma {:induction false} CountOnce<V>(raw: seq<Write<V>>, w: Write<V>)
    requires Distinct(raw)
    ensures multiset(raw)[w] <= 1
  {
    if raw != [] {
      var n := |raw| - 1;
      assert raw == raw[..n] + [raw[n]];
      CountOnce(raw[..n], w);
      assert raw[n] !in raw[..n];
    }
  }

  lemma CountTwice<V>(s: seq<Write<V>>, i: nat, j: nat)
    requires i < j < |s|
    ensures s[i] == s[j] ==> multiset(s)[s[i]] >= 2
  {
    assert s == s[..j] + [s[j]] + s[j + 1..];
    assert s[i] in s[..j];
  }

  // ---------- Storage ----------

  datatype Slot = Slot(key: nat, value: nat)

  /** A stored word: zero is no leaf. */
  function Word(value: nat): Option<nat> { if value == 0 then None else Some(value) }

  ghost function SlotChanges(slots: seq<Slot>, keccak: nat -> nat): (changes: seq<Write<nat>>)
    ensures |changes| == |slots|
    ensures forall i :: 0 <= i < |slots| ==> changes[i] == Write(keccak(slots[i].key), Word(slots[i].value))
  {
    seq(|slots|, i requires 0 <= i < |slots| => Write(keccak(slots[i].key), Word(slots[i].value)))
  }

  /** The part of the changes gathered so far: none that misses its leaf, none dropped that matters. */
  ghost predicate Gathered<V(!new)>(m: map<nat, V>, changes: seq<Write<V>>, writes: seq<Write<V>>) {
    Covers(m, changes, writes) && Distinct(writes) && Deletes(m, writes)
  }

  lemma GatherOne<V(!new)>(m: map<nat, V>, changes: seq<Write<V>>, writes: seq<Write<V>>, c: Write<V>)
    requires Gathered(m, changes, writes) && Distinct(changes + [c])
    ensures c.leaf == Get(m, c.hash) ==> Gathered(m, changes + [c], writes)
    ensures (c.leaf.None? ==> c.hash in m) ==> Gathered(m, changes + [c], writes + [c])
  {
    forall i | 0 <= i < |writes|
      ensures writes[i].hash != c.hash
    {
      assert writes[i] in writes;
      var k :| 0 <= k < |changes| && changes[k] == writes[i];
      assert (changes + [c])[k].hash != (changes + [c])[|changes|].hash;
    }
  }

  /** A zero write is left out unless it deletes a slot the storage has. */
  method GatherSlots(slots: seq<Slot>, wiped: bool, built: map<nat, nat>, keccak: nat -> nat) returns (writes: seq<Write<nat>>)
    requires Distinct(SlotChanges(slots, keccak))
    ensures var base := if wiped then map[] else built;
            Ascending(writes) && Gathered(base, SlotChanges(slots, keccak), writes)
  {
    hide Gathered, Distinct, Ascending;
    var raw: seq<Write<nat>> := [];
    ghost var base := if wiped then map[] else built;
    ghost var changes := SlotChanges(slots, keccak);
    assert Gathered(base, changes[..0], raw) by { NothingGathered(base); }
    for i := 0 to |slots|
      invariant Gathered(base, changes[..i], raw)
    {
      var h := keccak(slots[i].key);
      assert changes[..i + 1] == changes[..i] + [changes[i]];
      DistinctPrefix(changes, i + 1);
      GatherOne(base, changes[..i], raw, changes[i]);
      if slots[i].value == 0 && (wiped || h !in built) { continue; }
      raw := raw + [Write(h, Word(slots[i].value))];
    }
    assert changes[..|slots|] == changes;
    RawIsDistinct(base, changes, raw);
    writes := SortWrites(raw);
    SortedGathered(base, changes, raw, writes);
  }

  lemma NothingGathered<V(!new)>(m: map<nat, V>)
    ensures Gathered<V>(m, [], [])
  {
  }

  lemma DistinctPrefix<V>(changes: seq<Write<V>>, n: nat)
    requires Distinct(changes) && n <= |changes|
    ensures Distinct(changes[..n])
  {
  }

  lemma RawIsDistinct<V(!new)>(m: map<nat, V>, changes: seq<Write<V>>, raw: seq<Write<V>>)
    requires Gathered(m, changes, raw)
    ensures Distinct(raw)
  {
  }

  lemma SortedGathered<V(!new)>(m: map<nat, V>, changes: seq<Write<V>>, raw: seq<Write<V>>, writes: seq<Write<V>>)
    requires Gathered(m, changes, raw) && multiset(writes) == multiset(raw) && Ascending(writes)
    ensures Gathered(m, changes, writes)
  {
    forall w
      ensures w in writes <==> w in raw
    {
      SameMembers(writes, raw, w);
    }
    forall i | 0 <= i < |writes| && writes[i].leaf.None?
      ensures writes[i].hash in m
    {
      assert writes[i] in raw;
      var j :| 0 <= j < |raw| && raw[j] == writes[i];
    }
  }

  /** Folding what was gathered gives what the changes mean. */
  lemma GatheredDenotes<V(!new)>(m: map<nat, V>, changes: seq<Write<V>>, writes: seq<Write<V>>, spurious: V)
    requires Distinct(changes) && Gathered(m, changes, writes)
    ensures Denotes(m, changes, Apply(m, writes, spurious))
  {
    ApplyDenotes(m, writes, spurious);
    CoverDenotes(m, changes, writes, Apply(m, writes, spurious));
  }

  // ---------- The overlay's own meaning ----------

  /** Changes made one after another: a leaf set, or no leaf. */
  function Overlaid<V>(m: map<nat, V>, changes: seq<Write<V>>): map<nat, V> {
    if changes == [] then m
    else
      var n := |changes| - 1;
      var before := Overlaid(m, changes[..n]);
      if changes[n].leaf.Some? then before[changes[n].hash := changes[n].leaf.value] else before - {changes[n].hash}
  }

  lemma {:induction false} OverlaidDenotes<V(!new)>(m: map<nat, V>, changes: seq<Write<V>>)
    requires Distinct(changes)
    ensures Denotes(m, changes, Overlaid(m, changes))
  {
    if changes != [] {
      var n := |changes| - 1;
      var rest, last := changes[..n], changes[n];
      OverlaidDenotes(m, rest);
      var before, after := Overlaid(m, rest), Overlaid(m, changes);
      forall h: nat
        ensures Get(after, h) == if h == last.hash then last.leaf else Get(before, h)
      {
      }
      forall h: nat | forall i :: 0 <= i < |changes| ==> changes[i].hash != h
        ensures Get(after, h) == Get(m, h)
      {
        assert changes[n].hash != h;
        assert forall i :: 0 <= i < |rest| ==> rest[i].hash == changes[i].hash;
      }
    }
  }

  /** A meaning is one map. */
  lemma DenotesOne<V(!new)>(m: map<nat, V>, changes: seq<Write<V>>, x: map<nat, V>, y: map<nat, V>)
    requires Denotes(m, changes, x) && Denotes(m, changes, y)
    ensures x == y
  {
    forall h: nat
      ensures Get(x, h) == Get(y, h)
    {
      if i :| 0 <= i < |changes| && changes[i].hash == h {
      }
    }
    assert forall h: nat :: h in x <==> Get(x, h).Some?;
    assert forall h: nat :: h in y <==> Get(y, h).Some?;
    assert forall h: nat :: h in x ==> Get(x, h) == Some(x[h]) && Get(y, h) == Some(y[h]);
  }

  /** Folding what was gathered from changes is making the changes. */
  lemma GatheredIsOverlaid<V(!new)>(m: map<nat, V>, changes: seq<Write<V>>, writes: seq<Write<V>>, spurious: V)
    requires Distinct(changes) && Gathered(m, changes, writes)
    ensures Apply(m, writes, spurious) == Overlaid(m, changes)
  {
    hide Gathered, Denotes, Distinct, Apply, Overlaid;
    GatheredDenotes(m, changes, writes, spurious);
    OverlaidDenotes(m, changes);
    DenotesOne(m, changes, Apply(m, writes, spurious), Overlaid(m, changes));
  }

  // ---------- Accounts ----------

  /** An account's own fields; the code is known by its hash. */
  datatype Fields = Fields(nonce: nat, balance: nat, code: nat)

  /** An account leaf: its own fields, and the storage its root binds. */
  datatype Leaf = Leaf(data: Fields, storage: map<nat, nat>)

  /**
    An overlay record: what the block left of an account, the storage its frozen root binds, its
    slot writes, and whether its storage was wiped.
    */
  datatype Entry = Entry(addr: nat, deleted: bool, modified: bool, data: Fields, seed: map<nat, nat>, slots: seq<Slot>, wiped: bool)

  function BuiltStorage(pre: map<nat, Leaf>, h: nat): map<nat, nat> {
    if h in pre then pre[h].storage else map[]
  }

  /** What the state keeps of its records: a frozen root is the pre-state's, and a record left alone is its pre-state leaf. */
  ghost predicate Kept(pre: map<nat, Leaf>, keccak: nat -> nat, e: Entry) {
    && Distinct(SlotChanges(e.slots, keccak))
    && (!e.deleted && !e.wiped ==> e.seed == BuiltStorage(pre, keccak(e.addr)))
    && (!e.deleted && !e.modified && keccak(e.addr) in pre ==>
          !e.wiped && e.slots == [] && pre[keccak(e.addr)] == Leaf(e.data, e.seed))
  }

  /** Where an account's storage starts: empty once wiped. */
  function Base(e: Entry): map<nat, nat> { if e.wiped then map[] else e.seed }

  /** The change a record stands for: no leaf, or its fields with its slot writes over its storage. */
  ghost function ChangeOf(e: Entry, keccak: nat -> nat): Write<Leaf> {
    Write(keccak(e.addr), if e.deleted then None else Some(Leaf(e.data, Overlaid(Base(e), SlotChanges(e.slots, keccak)))))
  }

  ghost function ChangesOf(overlay: seq<Entry>, keccak: nat -> nat): (changes: seq<Write<Leaf>>)
    ensures |changes| == |overlay| && forall i :: 0 <= i < |overlay| ==> changes[i] == ChangeOf(overlay[i], keccak)
  {
    seq(|overlay|, i requires 0 <= i < |overlay| => ChangeOf(overlay[i], keccak))
  }

  /** A live record's write: its slot writes gathered and folded over its base. */
  method GatherLive(pre: map<nat, Leaf>, e: Entry, keccak: nat -> nat, spurious: nat) returns (w: Write<Leaf>)
    requires Kept(pre, keccak, e) && !e.deleted
    ensures w == ChangeOf(e, keccak)
  {
    hide Gathered, Distinct, Apply, Overlaid, Ascending;
    var h := keccak(e.addr);
    var updates := GatherSlots(e.slots, e.wiped, BuiltStorage(pre, h), keccak);
    GatheredIsOverlaid(Base(e), SlotChanges(e.slots, keccak), updates, spurious);
    w := Write(h, Some(Leaf(e.data, Apply(Base(e), updates, spurious))));
  }

  /**
    The gather overload, whatever order the overlay is walked in: the sorted writes, folded over
    the pre-state, give the state the overlay stands for, and every deletion among them is of a
    leaf the pre-state has.
    */
  method GatherWrites(pre: map<nat, Leaf>, overlay: seq<Entry>, keccak: nat -> nat, spurious: nat, spuriousLeaf: Leaf)
    returns (writes: seq<Write<Leaf>>)
    requires forall i :: 0 <= i < |overlay| ==> Kept(pre, keccak, overlay[i])
    requires forall i, j :: 0 <= i < j < |overlay| ==> keccak(overlay[i].addr) != keccak(overlay[j].addr)
    ensures Ascending(writes) && Deletes(pre, writes)
    ensures Apply(pre, writes, spuriousLeaf) == Overlaid(pre, ChangesOf(overlay, keccak))
  {
    hide Gathered, Ascending, Apply, Overlaid, Kept;
    var raw: seq<Write<Leaf>> := [];
    ghost var changes := ChangesOf(overlay, keccak);
    assert Distinct(changes);
    NothingGathered(pre);
    assert changes[..0] == [];
    for i := 0 to |overlay|
      invariant Gathered(pre, changes[..i], raw)
    {
      var e := overlay[i];
      var h := keccak(e.addr);
      assert changes[..i + 1] == changes[..i] + [changes[i]];
      DistinctPrefix(changes, i + 1);
      GatherOne(pre, changes[..i], raw, changes[i]);
      if e.deleted {
        if h in pre { raw := raw + [Write(h, None)]; }
        continue;
      }
      if !e.modified && h in pre {
        LeftAlone(pre, e, keccak);
        continue;
      }
      var w := GatherLive(pre, e, keccak, spurious);
      raw := raw + [w];
    }
    assert changes[..|overlay|] == changes;
    RawIsDistinct(pre, changes, raw);
    writes := SortWrites(raw);
    SortedGathered(pre, changes, raw, writes);
    GatheredIsOverlaid(pre, changes, writes, spuriousLeaf);
    GatheredDeletes(pre, changes, writes);
  }

  lemma LeftAlone(pre: map<nat, Leaf>, e: Entry, keccak: nat -> nat)
    requires Kept(pre, keccak, e) && !e.deleted && !e.modified && keccak(e.addr) in pre
    ensures ChangeOf(e, keccak).leaf == Get(pre, keccak(e.addr))
  {
    assert SlotChanges(e.slots, keccak) == [];
  }

  lemma GatheredDeletes<V(!new)>(m: map<nat, V>, changes: seq<Write<V>>, writes: seq<Write<V>>)
    requires Gathered(m, changes, writes)
    ensures Deletes(m, writes)
  {
  }
}
