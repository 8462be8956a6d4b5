/**
  The write overlay of HashState (zilk_core/core/state_zz/hash_state.cpp) over its built cache:
  the operations that change it, what reads give, and the writes gathered from it at the end of a
  block. Over every run of operations the gathered writes, folded over the pre-state, give the
  accounts and slots the operations say.
  */
module Overlay {
  import opened Basics
  import opened Gather

  /** The hash of no code. */
  const EMPTY_CODE: nat := 0xC5D2_4601_86F7_233C_927E_7DB2_DCC7_03C0_E500_B653_CA82_273B_7BFA_D804_5D85_A470

  const NO_FIELDS := Fields(0, 0, EMPTY_CODE)

  datatype Record = Record(deleted: bool, modified: bool, fields: Fields, seed: map<nat, nat>)

  /** What the overlay holds for one address. */
  datatype Cell = Cell(rec: Option<Record>, slots: map<nat, nat>, wiped: bool)

  // ---------- Reads ----------

  function ReadFields(pre: map<nat, Leaf>, h: nat, c: Cell): Option<Fields> {
    if c.rec.Some? then if c.rec.value.deleted then None else Some(c.rec.value.fields)
    else if h in pre then Some(pre[h].data) else None
  }

  function ValueAt(storage: map<nat, nat>, h: nat): nat {
    if h in storage then storage[h] else 0
  }

  function ReadSlot(pre: map<nat, Leaf>, h: nat, c: Cell, key: nat, keyHash: nat): nat {
    if key in c.slots then c.slots[key]
    else if c.wiped then 0
    else ValueAt(BuiltStorage(pre, h), keyHash)
  }

  // ---------- What every operation keeps ----------

  /**
    A deleted account has no slot writes, and none of the pre-state's slots; a live one that was
    not wiped has the pre-state's storage; one left alone is its pre-state leaf. Without a record
    there are no slot writes, nor is a pre-state account wiped.
    */
  ghost predicate Coherent(pre: map<nat, Leaf>, h: nat, c: Cell) {
    match c.rec
    case None => c.slots == map[] && (h in pre ==> !c.wiped)
    case Some(r) =>
      && (r.deleted ==> c.slots == map[] && (h in pre ==> c.wiped))
      && (!r.deleted && !c.wiped ==> r.seed == BuiltStorage(pre, h))
      && (!r.deleted && !r.modified && h in pre ==> !c.wiped && c.slots == map[] && pre[h] == Leaf(r.fields, r.seed))
  }

  /** No storage of the state holds a zero. */
  ghost predicate Lean(pre: map<nat, Leaf>) {
    forall h, s :: h in pre && s in pre[h].storage ==> pre[h].storage[s] != 0
  }

  /** A slot of a storage without zeros has a leaf exactly if it is not zero. */
  ghost predicate HoldsSlot(lean: bool, storage: map<nat, nat>, h: nat, v: nat) {
    ValueAt(storage, h) == v && (lean ==> (h in storage <==> v != 0))
  }

  /** No two addresses, and no two slot keys, have one hash. */
  ghost predicate Injective(keccak: nat -> nat) {
    forall a, b :: keccak(a) == keccak(b) ==> a == b
  }

  // ---------- The state ----------

  class HashState {
    const keccak: nat -> nat
    const pre: map<nat, Leaf>
    var accounts: map<nat, Record>
    var slots: map<nat, map<nat, nat>>
    var wiped: set<nat>

    ghost function At(a: nat): Cell
      reads this
    {
      Cell(if a in accounts then Some(accounts[a]) else None, if a in slots then slots[a] else map[], a in wiped)
    }

    ghost predicate Valid()
      reads this
    {
      forall a: nat :: Coherent(pre, keccak(a), At(a))
    }

    function Account(a: nat): (f: Option<Fields>)
      reads this
      ensures f == ReadFields(pre, keccak(a), At(a))
    {
      if a in accounts then if accounts[a].deleted then None else Some(accounts[a].fields)
      else if keccak(a) in pre then Some(pre[keccak(a)].data) else None
    }

    function Storage(a: nat, key: nat): (v: nat)
      reads this
      ensures v == ReadSlot(pre, keccak(a), At(a), key, keccak(key))
    {
      if a in slots && key in slots[a] then slots[a][key]
      else if a in wiped then 0
      else ValueAt(BuiltStorage(pre, keccak(a)), keccak(key))
    }

    constructor (keccak: nat -> nat, pre: map<nat, Leaf>)
      ensures Valid() && this.keccak == keccak && this.pre == pre && accounts == map[] && slots == map[] && wiped == {}
    {
      this.keccak, this.pre := keccak, pre;
      accounts, slots, wiped := map[], map[], {};
    }

    /** Every address but this one is as it was. */
    twostate predicate Elsewhere(a: nat)
      reads this
    {
      forall b: nat :: b != a ==> At(b) == old(At(b))
    }

    /** `find_or_create_account`: a record for the address, copied from the pre-state or marked absent. */
    method FindOrCreate(a: nat)
      requires Valid()
      modifies `accounts
      ensures Valid() && a in accounts && Elsewhere(a)
      ensures Account(a) == old(Account(a)) && forall k: nat :: Storage(a, k) == old(Storage(a, k))
    {
      if a in accounts { return; }
      var h := keccak(a);
      assert Coherent(pre, h, At(a));
      if h in pre {
        accounts := accounts[a := Record(false, false, pre[h].data, pre[h].storage)];
      } else {
        accounts := accounts[a := Record(true, false, NO_FIELDS, map[])];
      }
      AllCoherent(a);
    }

    /** With one address coherent and the others as they were, the state is valid. */
    twostate lemma AllCoherent(a: nat)
      requires old(Valid()) && Elsewhere(a) && Coherent(pre, keccak(a), At(a))
      ensures Valid()
    {
      forall b: nat
        ensures Coherent(pre, keccak(b), At(b))
      {
        assert b != a ==> At(b) == old(At(b));
      }
    }

    /** `revive_if_deleted`: a deleted record starts over, empty and wiped. */
    method Revive(a: nat)
      requires Valid() && a in accounts
      modifies this
      ensures Valid() && a in accounts && !accounts[a].deleted && Elsewhere(a)
      ensures Account(a) == Some(old(FieldsOf(Account(a))))
      ensures forall k: nat :: Storage(a, k) == old(Storage(a, k))
    {
      if !accounts[a].deleted { return; }
      assert Coherent(pre, keccak(a), At(a));
      accounts := accounts[a := Record(false, true, NO_FIELDS, map[])];
      slots, wiped := slots - {a}, wiped + {a};
      AllCoherent(a);
    }

    /** The live record every write starts from: reads of the address are as they were, or of an empty account. */
    method Open(a: nat)
      requires Valid()
      modifies this
      ensures Valid() && a in accounts && !accounts[a].deleted && Elsewhere(a)
      ensures Account(a) == Some(old(FieldsOf(Account(a))))
      ensures forall k: nat :: Storage(a, k) == old(Storage(a, k))
    {
      hide Valid;
      FindOrCreate(a);
      Revive(a);
    }

    /** New fields for a live record, marked modified only where they differ. */
    method Set(a: nat, fields: Fields)
      requires Valid() && a in accounts && !accounts[a].deleted
      modifies `accounts
      ensures Valid() && Elsewhere(a) && a in accounts && !accounts[a].deleted
      ensures Account(a) == Some(fields) && forall k: nat :: Storage(a, k) == old(Storage(a, k))
    {
      var r := accounts[a];
      assert Coherent(pre, keccak(a), At(a));
      if r.fields != fields { accounts := accounts[a := r.(fields := fields, modified := true)]; }
      AllCoherent(a);
    }

    method SetBalance(a: nat, v: nat)
      requires Valid()
      modifies this
      ensures Valid() && Elsewhere(a) && forall k: nat :: Storage(a, k) == old(Storage(a, k))
      ensures Account(a) == Some(old(FieldsOf(Account(a))).(balance := v))
    {
      hide Valid;
      Open(a);
      Set(a, accounts[a].fields.(balance := v));
    }

    method SetNonce(a: nat, v: nat)
      requires Valid()
      modifies this
      ensures Valid() && Elsewhere(a) && forall k: nat :: Storage(a, k) == old(Storage(a, k))
      ensures Account(a) == Some(old(FieldsOf(Account(a))).(nonce := v))
    {
      hide Valid;
      Open(a);
      Set(a, accounts[a].fields.(nonce := v));
    }

    method SetCode(a: nat, code: nat)
      requires Valid()
      modifies this
      ensures Valid() && Elsewhere(a) && forall k: nat :: Storage(a, k) == old(Storage(a, k))
      ensures Account(a) == Some(old(FieldsOf(Account(a))).(code := code))
    {
      hide Valid;
      Open(a);
      Set(a, accounts[a].fields.(code := code));
    }

    /** `set_account_from_diff` on a live record. */
    method SetFromDiff(a: nat, nonce: nat, balance: nat)
      requires Valid()
      modifies this
      ensures Valid() && Elsewhere(a) && forall k: nat :: Storage(a, k) == old(Storage(a, k))
      ensures Account(a) == Some(old(FieldsOf(Account(a))).(nonce := nonce, balance := balance))
    {
      hide Valid;
      Open(a);
      Set(a, accounts[a].fields.(nonce := nonce, balance := balance));
    }

    /** `set_storage_slot`: the write stays in the overlay, a zero too. */
    method SetSlot(a: nat, key: nat, value: nat)
      requires Valid()
      modifies this
      ensures Valid() && Elsewhere(a)
      ensures Account(a) == Some(old(FieldsOf(Account(a))))
      ensures forall k: nat :: Storage(a, k) == if k == key then value else old(Storage(a, k))
    {
      Open(a);
      assert Coherent(pre, keccak(a), At(a));
      accounts := accounts[a := accounts[a].(modified := true)];
      slots := slots[a := (if a in slots then slots[a] else map[])[key := value]];
      AllCoherent(a);
    }

    /** `apply_code_diff`: new code, and with it, unless it is empty or a delegation, empty storage. */
    method ApplyCode(a: nat, code: nat, creates: bool)
      requires Valid()
      modifies this
      ensures Valid() && Elsewhere(a)
      ensures Account(a) == Some(old(FieldsOf(Account(a))).(code := code))
      ensures forall k: nat :: Storage(a, k) == if creates then 0 else old(Storage(a, k))
    {
      Open(a);
      assert Coherent(pre, keccak(a), At(a));
      if creates { slots, wiped := slots - {a}, wiped + {a}; }
      accounts := accounts[a := accounts[a].(fields := accounts[a].fields.(code := code), modified := true)];
      AllCoherent(a);
    }

    /** `destruct`. */
    method Destruct(a: nat)
      requires Valid()
      modifies this
      ensures Valid() && Elsewhere(a)
      ensures Account(a) == None && forall k: nat :: Storage(a, k) == 0
    {
      var h := keccak(a);
      assert Coherent(pre, h, At(a));
      if a in accounts {
        accounts := accounts[a := accounts[a].(deleted := true)];
      } else if h in pre {
        accounts := accounts[a := Record(true, false, pre[h].data, pre[h].storage)];
      }
      slots, wiped := slots - {a}, wiped + {a};
      AllCoherent(a);
    }

    /** One of `destruct_dead_among`. */
    method DestructDead(a: nat)
      requires Valid()
      modifies this
      ensures Valid() && Elsewhere(a)
      ensures old(Bare(Account(a))) ==> Account(a) == None && forall k: nat :: Storage(a, k) == 0
      ensures !old(Bare(Account(a))) ==> At(a) == old(At(a))
    {
      hide Valid;
      if Dead(Account(a)) { Destruct(a); }
    }

    // ---------- The gathering ----------

    /** The records of the overlay, in some order. */
    ghost predicate ListsRecords(list: seq<Entry>, left: set<nat>)
      reads this
    {
      && (forall i, j :: 0 <= i < j < |list| ==> list[i].addr != list[j].addr)
      && (forall i :: 0 <= i < |list| ==> list[i].addr !in left && IsEntry(At(list[i].addr), list[i].addr, list[i]))
      && (forall a :: a in accounts && a !in left ==> exists i :: 0 <= i < |list| && list[i].addr == a)
    }

    method ListRecords() returns (list: seq<Entry>)
      ensures ListsRecords(list, {})
    {
      list := [];
      var left := accounts.Keys;
      while left != {}
        invariant left <= accounts.Keys && ListsRecords(list, left)
        decreases |left|
      {
        var a :| a in left;
        var r := accounts[a];
        var s := ListSlots(if a in slots then slots[a] else map[]);
        list, left := OneMore(list, left, a, Entry(a, r.deleted, r.modified, r.fields, r.seed, s, a in wiped)), left - {a};
      }
    }

    function OneMore(list: seq<Entry>, ghost left: set<nat>, a: nat, e: Entry): (r: seq<Entry>)
      reads this
      requires ListsRecords(list, left) && a in left && IsEntry(At(a), a, e)
      ensures r == list + [e] && ListsRecords(r, left - {a})
    {
      assert (list + [e])[|list|] == e;
      assert forall i :: 0 <= i < |list| ==> (list + [e])[i] == list[i];
      list + [e]
    }

    /**
      The gather overload on this state: the writes are in order, every deletion among them is of
      a leaf the pre-state has, and folded over the pre-state they give, for every address and
      every slot, what the state reads.
      */
    method Commit(spurious: nat, spuriousLeaf: Leaf) returns (writes: seq<Write<Leaf>>)
      requires Valid() && Injective(keccak)
      ensures Ascending(writes) && Deletes(pre, writes)
      ensures forall a: nat :: Commits(Apply(pre, writes, spuriousLeaf), a)
    {
      hide Valid, Kept, Ascending, Apply, Overlaid, ListsRecords, Distinct;
      var list := ListRecords();
      RecordsAreKept(list);
      writes := GatherWrites(pre, list, keccak, spurious, spuriousLeaf);
      forall a: nat
        ensures Commits(Apply(pre, writes, spuriousLeaf), a)
      {
        CommitsAt(Apply(pre, writes, spuriousLeaf), list, a);
      }
    }

    /** The committed leaf of an address says what its reads say. */
    ghost predicate Commits(result: map<nat, Leaf>, a: nat)
      reads this
    {
      match Account(a)
      case None => keccak(a) !in result
      case Some(fields) =>
        && keccak(a) in result && result[keccak(a)].data == fields
        && forall k: nat :: HoldsSlot(Lean(pre), result[keccak(a)].storage, keccak(k), Storage(a, k))
    }

    lemma RecordsAreKept(list: seq<Entry>)
      requires Valid() && Injective(keccak) && ListsRecords(list, {})
      ensures forall i :: 0 <= i < |list| ==> Kept(pre, keccak, list[i])
      ensures forall i, j :: 0 <= i < j < |list| ==> keccak(list[i].addr) != keccak(list[j].addr)
    {
      hide Kept, Coherent, ListsSlots;
      forall i | 0 <= i < |list|
        ensures Kept(pre, keccak, list[i])
      {
        assert Coherent(pre, keccak(list[i].addr), At(list[i].addr));
        EntryIsKept(pre, keccak, At(list[i].addr), list[i].addr, list[i]);
      }
    }

    lemma CommitsAt(result: map<nat, Leaf>, list: seq<Entry>, a: nat)
      requires Valid() && Injective(keccak) && ListsRecords(list, {})
      requires result == Overlaid(pre, ChangesOf(list, keccak))
      ensures Commits(result, a)
    {
      hide Kept, Coherent, Overlaid, ListsSlots;
      var changes := ChangesOf(list, keccak);
      RecordsAreKept(list);
      OverlaidDenotes(pre, changes);
      assert Coherent(pre, keccak(a), At(a));
      if a in accounts {
        var i :| 0 <= i < |list| && list[i].addr == a;
        assert Get(result, changes[i].hash) == changes[i].leaf;
        if !accounts[a].deleted {
          forall k: nat
            ensures HoldsSlot(Lean(pre), result[keccak(a)].storage, keccak(k), Storage(a, k))
          {
            EntryStorage(pre, keccak, At(a), a, list[i], k);
          }
        }
      } else {
        forall i | 0 <= i < |changes|
          ensures changes[i].hash != keccak(a)
        {
          assert list[i].addr in accounts;
        }
        assert Get(result, keccak(a)) == Get(pre, keccak(a));
        if keccak(a) in pre { Untouched(a); }
      }
    }

    /** Without a record an address reads as the pre-state. */
    lemma Untouched(a: nat)
      requires Valid() && a !in accounts && keccak(a) in pre
      ensures forall k: nat :: HoldsSlot(Lean(pre), pre[keccak(a)].storage, keccak(k), Storage(a, k))
    {
      assert Coherent(pre, keccak(a), At(a));
    }

    // ---------- Runs ----------

    /** The reads agree with what a list of operations leaves. */
    ghost predicate Follows(ops: seq<Op>)
      reads this
    {
      forall a: nat :: FollowsAt(ops, a)
    }

    ghost predicate FollowsAt(ops: seq<Op>, a: nat)
      reads this
    {
      && Account(a) == AccountAfter(pre, keccak, ops, a)
      && forall k: nat :: Storage(a, k) == StorageAfter(pre, keccak, ops, a, k)
    }

    /** The operation did to its address what it should, and nothing elsewhere. */
    twostate predicate Stepped(op: Op)
      reads this
    {
      && Elsewhere(op.a)
      && Account(op.a) == AccountStep(op, old(Account(op.a)))
      && forall k: nat :: Storage(op.a, k) == StorageStep(op, old(Account(op.a)), k, old(Storage(op.a, k)))
    }

    method Perform(op: Op)
      requires Valid()
      modifies this
      ensures Valid() && Stepped(op)
    {
      hide Valid;
      match op {
        case SetBalance(a, v) => SetBalance(a, v);
        case SetNonce(a, v) => SetNonce(a, v);
        case SetCode(a, code) => SetCode(a, code);
        case FromDiff(a, nonce, balance) => SetFromDiff(a, nonce, balance);
        case SetSlot(a, key, value) => SetSlot(a, key, value);
        case ApplyCode(a, code, creates) => ApplyCode(a, code, creates);
        case Destruct(a) => Destruct(a);
        case DestructDead(a) => DestructDead(a);
      }
    }

    method PerformNext(ops: seq<Op>, n: nat)
      requires Valid() && n < |ops| && Follows(ops[..n])
      modifies this
      ensures Valid() && Follows(ops[..n + 1])
    {
      hide Valid, AccountStep, StorageStep, AccountAfter, StorageAfter;
      Perform(ops[n]);
      var more := ops[..n + 1];
      forall a: nat
        ensures FollowsAt(more, a)
      {
        AfterMore(pre, keccak, ops, n, a);
        assert old(FollowsAt(ops[..n], a));
        assert a != ops[n].a ==> At(a) == old(At(a));
        forall k: nat
          ensures Storage(a, k) == StorageAfter(pre, keccak, more, a, k)
        {
          assert old(Storage(a, k)) == StorageAfter(pre, keccak, ops[..n], a, k);
        }
      }
    }

    /** Every run of operations leaves a valid state whose reads are what the operations say. */
    method Execute(ops: seq<Op>)
      requires Valid() && accounts == map[] && slots == map[] && wiped == {}
      modifies this
      ensures Valid() && Follows(ops)
    {
      hide Valid, Follows;
      StartFollows(ops);
      for n := 0 to |ops|
        invariant Valid() && Follows(ops[..n])
      {
        PerformNext(ops, n);
      }
      assert ops[..|ops|] == ops;
    }

    lemma StartFollows(ops: seq<Op>)
      requires accounts == map[] && slots == map[] && wiped == {}
      ensures Follows(ops[..0])
    {
    }
  }

  // ---------- The gathered writes ----------

  /** The slots of a map, in some order. */
  ghost predicate ListsSlots(m: map<nat, nat>, list: seq<Slot>) {
    && (forall i, j :: 0 <= i < j < |list| ==> list[i].key != list[j].key)
    && (forall i :: 0 <= i < |list| ==> list[i].key in m && list[i].value == m[list[i].key])
    && (forall k :: k in m ==> Slot(k, m[k]) in list)
  }

  method ListSlots(m: map<nat, nat>) returns (list: seq<Slot>)
    ensures ListsSlots(m, list)
  {
    list := [];
    var left := m.Keys;
    while left != {}
      invariant left <= m.Keys
      invariant forall i, j :: 0 <= i < j < |list| ==> list[i].key != list[j].key
      invariant forall i :: 0 <= i < |list| ==> list[i].key in m && list[i].key !in left && list[i].value == m[list[i].key]
      invariant forall k :: k in m && k !in left ==> Slot(k, m[k]) in list
      decreases |left|
    {
      var k :| k in left;
      list, left := list + [Slot(k, m[k])], left - {k};
    }
  }

  /** The record of an address as the gathering takes it. */
  ghost predicate IsEntry(c: Cell, a: nat, e: Entry) {
    && c.rec.Some? && e == Entry(a, c.rec.value.deleted, c.rec.value.modified, c.rec.value.fields, c.rec.value.seed, e.slots, c.wiped)
    && ListsSlots(c.slots, e.slots)
  }

  lemma SlotsDistinct(m: map<nat, nat>, list: seq<Slot>, keccak: nat -> nat)
    requires ListsSlots(m, list) && Injective(keccak)
    ensures Distinct(SlotChanges(list, keccak))
  {
  }

  lemma EntryIsKept(pre: map<nat, Leaf>, keccak: nat -> nat, c: Cell, a: nat, e: Entry)
    requires Injective(keccak) && Coherent(pre, keccak(a), c) && IsEntry(c, a, e)
    ensures Kept(pre, keccak, e)
  {
    hide Distinct;
    SlotsDistinct(c.slots, e.slots, keccak);
    if e.slots != [] { assert e.slots[0].key in c.slots; }
  }

  /** The storage a live record stands for reads as the overlay does. */
  lemma EntryStorage(pre: map<nat, Leaf>, keccak: nat -> nat, c: Cell, a: nat, e: Entry, k: nat)
    requires Injective(keccak) && Coherent(pre, keccak(a), c) && IsEntry(c, a, e) && !e.deleted
    ensures HoldsSlot(Lean(pre), Overlaid(Base(e), SlotChanges(e.slots, keccak)), keccak(k), ReadSlot(pre, keccak(a), c, k, keccak(k)))
  {
    hide Overlaid, Distinct;
    var changes := SlotChanges(e.slots, keccak);
    var storage := Overlaid(Base(e), changes);
    SlotsDistinct(c.slots, e.slots, keccak);
    OverlaidDenotes(Base(e), changes);
    if k in c.slots {
      var i :| 0 <= i < |e.slots| && e.slots[i] == Slot(k, c.slots[k]);
      assert Get(storage, changes[i].hash) == changes[i].leaf;
    } else {
      assert forall i :: 0 <= i < |changes| ==> changes[i].hash != keccak(k);
      assert Get(storage, keccak(k)) == Get(Base(e), keccak(k));
    }
  }

  /**
    From a pre-state through any run of operations to the committed state: every account and every
    slot of it is what the operations make of the pre-state.
    */
  method RunAndCommit(keccak: nat -> nat, pre: map<nat, Leaf>, ops: seq<Op>, spurious: nat, spuriousLeaf: Leaf)
    returns (writes: seq<Write<Leaf>>)
    requires Injective(keccak)
    ensures Ascending(writes) && Deletes(pre, writes)
    ensures forall a: nat :: Committed(Apply(pre, writes, spuriousLeaf), pre, keccak, ops, a)
    ensures forall a: nat :: OnlyCleared(ops, a) && keccak(a) in pre && !Unused(pre[keccak(a)].data) ==>
      keccak(a) in Apply(pre, writes, spuriousLeaf) && Apply(pre, writes, spuriousLeaf)[keccak(a)].data == pre[keccak(a)].data
  {
    hide OnlyCleared, Unused, Apply, Ascending, AccountAfter, StorageAfter;
    var state := new HashState(keccak, pre);
    state.Execute(ops);
    writes := state.Commit(spurious, spuriousLeaf);
    forall a: nat
      ensures Committed(Apply(pre, writes, spuriousLeaf), pre, keccak, ops, a)
    {
      assert state.FollowsAt(ops, a) && state.Commits(Apply(pre, writes, spuriousLeaf), a);
    }
    forall a: nat | OnlyCleared(ops, a) && keccak(a) in pre && !Unused(pre[keccak(a)].data)
      ensures keccak(a) in Apply(pre, writes, spuriousLeaf) && Apply(pre, writes, spuriousLeaf)[keccak(a)].data == pre[keccak(a)].data
    {
      ClearedOnlyIfUnused(pre, keccak, ops, a);
      assert Committed(Apply(pre, writes, spuriousLeaf), pre, keccak, ops, a);
    }
  }

  /** The leaf of an address is what the operations make of it. */
  ghost predicate Committed(result: map<nat, Leaf>, pre: map<nat, Leaf>, keccak: nat -> nat, ops: seq<Op>, a: nat) {
    match AccountAfter(pre, keccak, ops, a)
    case None => keccak(a) !in result
    case Some(fields) =>
      && keccak(a) in result && result[keccak(a)].data == fields
      && forall k: nat :: HoldsSlot(Lean(pre), result[keccak(a)].storage, keccak(k), StorageAfter(pre, keccak, ops, a, k))
  }

  /** An absent account starts with nonce and balance zero, and no code. */
  ghost function FieldsOf(f: Option<Fields>): Fields {
    if f.Some? then f.value else Fields(0, 0, EMPTY_CODE)
  }

  predicate Dead(f: Option<Fields>) {
    f.None? || f.value == NO_FIELDS
  }

  /** Absent, or with nonce and balance zero, and no code. */
  ghost predicate Bare(f: Option<Fields>) {
    f.None? || (f.value.nonce == 0 && f.value.balance == 0 && f.value.code == EMPTY_CODE)
  }

  datatype Op =
    | SetBalance(a: nat, v: nat)
    | SetNonce(a: nat, v: nat)
    | SetCode(a: nat, code: nat)
    | FromDiff(a: nat, nonce: nat, balance: nat)
    | SetSlot(a: nat, key: nat, value: nat)
    | ApplyCode(a: nat, code: nat, creates: bool)
    | Destruct(a: nat)
    | DestructDead(a: nat)

  /** What an operation makes of its account. */
  ghost function AccountStep(op: Op, f: Option<Fields>): Option<Fields> {
    match op
    case SetBalance(_, v) => Some(FieldsOf(f).(balance := v))
    case SetNonce(_, v) => Some(FieldsOf(f).(nonce := v))
    case SetCode(_, code) => Some(FieldsOf(f).(code := code))
    case FromDiff(_, nonce, balance) => Some(FieldsOf(f).(nonce := nonce, balance := balance))
    case SetSlot(_, _, _) => Some(FieldsOf(f))
    case ApplyCode(_, code, _) => Some(FieldsOf(f).(code := code))
    case Destruct(_) => None
    case DestructDead(_) => if Bare(f) then None else f
  }

  /** What an operation makes of a slot of its account. */
  ghost function StorageStep(op: Op, f: Option<Fields>, k: nat, v: nat): nat {
    match op
    case SetSlot(_, key, value) => if k == key then value else v
    case ApplyCode(_, _, creates) => if creates then 0 else v
    case Destruct(_) => 0
    case DestructDead(_) => if Bare(f) then 0 else v
    case _ => v
  }

  /** An account after a list of operations on a pre-state. */
  ghost function AccountAfter(pre: map<nat, Leaf>, keccak: nat -> nat, ops: seq<Op>, a: nat): Option<Fields> {
    if ops == [] then if keccak(a) in pre then Some(pre[keccak(a)].data) else None
    else
      var n := |ops| - 1;
      var f := AccountAfter(pre, keccak, ops[..n], a);
      if ops[n].a == a then AccountStep(ops[n], f) else f
  }

  /** A slot after a list of operations on a pre-state. */
  ghost function StorageAfter(pre: map<nat, Leaf>, keccak: nat -> nat, ops: seq<Op>, a: nat, k: nat): nat {
    if ops == [] then ValueAt(BuiltStorage(pre, keccak(a)), keccak(k))
    else
      var n := |ops| - 1;
      var v := StorageAfter(pre, keccak, ops[..n], a, k);
      if ops[n].a == a then StorageStep(ops[n], AccountAfter(pre, keccak, ops[..n], a), k, v) else v
  }

  lemma AfterMore(pre: map<nat, Leaf>, keccak: nat -> nat, ops: seq<Op>, n: nat, a: nat)
    requires n < |ops|
    ensures AccountAfter(pre, keccak, ops[..n + 1], a) ==
            var f := AccountAfter(pre, keccak, ops[..n], a);
            if ops[n].a == a then AccountStep(ops[n], f) else f
    ensures forall k: nat ::
      StorageAfter(pre, keccak, ops[..n + 1], a, k) ==
      if ops[n].a == a
      then StorageStep(ops[n], AccountAfter(pre, keccak, ops[..n], a), k, StorageAfter(pre, keccak, ops[..n], a, k))
      else StorageAfter(pre, keccak, ops[..n], a, k)
  {
    hide AccountStep, StorageStep;
    var more := ops[..n + 1];
    assert more[..n] == ops[..n] && more[n] == ops[n];
  }

  // ---------- What runs keep and remove ----------

  /** Only clearings of dead accounts touch the address. */
  ghost predicate OnlyCleared(ops: seq<Op>, a: nat) {
    forall i :: 0 <= i < |ops| && ops[i].a == a ==> ops[i].DestructDead?
  }

  ghost predicate Touched(ops: seq<Op>, a: nat) { exists i :: 0 <= i < |ops| && ops[i].a == a }

  /** Nonce and balance zero, and the hash of the empty string for its code. */
  ghost predicate Unused(f: Fields) {
    f.nonce == 0 && f.balance == 0 && f.code == 0xC5D2_4601_86F7_233C_927E_7DB2_DCC7_03C0_E500_B653_CA82_273B_7BFA_D804_5D85_A470
  }

  /**
    Over every run that only clears dead accounts at an address: its account goes exactly if it has
    no nonce, no balance and no code, and otherwise stays as it was, with its storage.
    */
  lemma {:induction false} ClearedOnlyIfUnused(pre: map<nat, Leaf>, keccak: nat -> nat, ops: seq<Op>, a: nat)
    requires OnlyCleared(ops, a) && keccak(a) in pre
    ensures var d := pre[keccak(a)].data;
            && AccountAfter(pre, keccak, ops, a) == (if Touched(ops, a) && Unused(d) then None else Some(d))
            && (!Unused(d) ==> forall k: nat :: StorageAfter(pre, keccak, ops, a, k) == ValueAt(pre[keccak(a)].storage, keccak(k)))
  {
    if ops != [] {
      var n := |ops| - 1;
      ClearedOnlyIfUnused(pre, keccak, ops[..n], a);
      assert ops[..n + 1] == ops;
      AfterMore(pre, keccak, ops, n, a);
      assert Touched(ops, a) <==> Touched(ops[..n], a) || ops[n].a == a;
    }
  }

  /** After any run, an operation leaves its address without an account exactly if it destructs it, or clears it unused or absent. */
  lemma RemovedOnlyBy(pre: map<nat, Leaf>, keccak: nat -> nat, ops: seq<Op>, op: Op)
    ensures AccountAfter(pre, keccak, ops + [op], op.a).None? <==>
            var f := AccountAfter(pre, keccak, ops, op.a);
            op.Destruct? || (op.DestructDead? && (f.None? || Unused(f.value)))
  {
    assert (ops + [op])[..|ops|] == ops;
    AfterMore(pre, keccak, ops + [op], |ops|, op.a);
    assert (ops + [op])[..|ops| + 1] == ops + [op];
  }

  /** After any run, a write to an absent account starts from nonce zero, balance zero and no code. */
  lemma StartsUnused(pre: map<nat, Leaf>, keccak: nat -> nat, ops: seq<Op>, op: Op)
    requires AccountAfter(pre, keccak, ops, op.a).None? && !op.Destruct? && !op.DestructDead?
    ensures var f := AccountAfter(pre, keccak, ops + [op], op.a);
            && f.Some?
            && (op.SetBalance? ==> f.value.balance == op.v && Unused(f.value.(balance := 0)))
            && (op.SetNonce? ==> f.value.nonce == op.v && Unused(f.value.(nonce := 0)))
            && (op.FromDiff? ==> f.value.nonce == op.nonce && f.value.balance == op.balance && Unused(f.value.(nonce := 0, balance := 0)))
            && (op.SetCode? || op.ApplyCode? ==> f.value == Fields(0, 0, op.code))
            && (op.SetSlot? ==> Unused(f.value))
  {
    assert (ops + [op])[..|ops|] == ops;
    AfterMore(pre, keccak, ops + [op], |ops|, op.a);
    assert (ops + [op])[..|ops| + 1] == ops + [op];
  }
}
