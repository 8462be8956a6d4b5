/**
  Reading the minimal perfect hash blob: the host's `mphf_addr_lookup`
  (prover/stateless_validator/src/mfbd.rs) and the guest's `MphfMap::find`
  (zilk_core/core/common_zz/mphf_map.hpp), over the bytes of the blob. The specification is the
  list of entries the blob was built from.
  */
module MphfStore {
  import opened Basics
  import opened Bytes
  import opened Chd

  const ADDRESS: nat := 20
  const HEADER: nat := 56
  const SIDE_ENTRY: nat := 16

  // ---------- Entries ----------

  datatype Entry = Entry(key: nat, body: seq<byte>)

  /** The first seven bytes of an address and its last, as a little-endian number. */
  function AddrKey8(addr: seq<byte>): nat
    requires |addr| == ADDRESS
  {
    FromLe(addr[..7] + [addr[19]])
  }

  /** Two addresses share a short key exactly if they agree on the first seven bytes and the last. */
  lemma ShortKeys(a: seq<byte>, b: seq<byte>)
    requires |a| == 20 == |b|
    ensures AddrKey8(a) == AddrKey8(b) <==> a[..7] == b[..7] && a[19] == b[19]
  {
    hide FromLe, Le;
    var x, y := a[..7] + [a[19]], b[..7] + [b[19]];
    LeInverts(x);
    LeInverts(y);
    assert x[..7] == a[..7] && y[..7] == b[..7] && x[7] == a[19] && y[7] == b[19];
  }

  predicate IsAccount(e: Entry) {
    |e.body| >= ADDRESS && e.key == AddrKey8(e.body[..ADDRESS])
  }

  /** Account bodies, each under the short key of its address, with distinct addresses. */
  ghost predicate Accounts(entries: seq<Entry>) {
    && (forall i :: 0 <= i < |entries| ==> IsAccount(entries[i]))
    && (forall i, j :: 0 <= i < j < |entries| ==> entries[i].body[..ADDRESS] != entries[j].body[..ADDRESS])
  }

  // ---------- What a blob holds ----------

  datatype Side = Side(key: nat, offset: nat)

  /**
    The contents of a blob: the solution over the distinct short keys, the body placed for each
    key (empty when its entries went to the sidecar), the slot table, the sidecar, and the bodies
    by data offset.
    */
  datatype Store = Store(
    sol: Solution, keys: seq<nat>, placed: seq<seq<byte>>, slots: seq<nat>, side: seq<Side>,
    bodies: map<nat, seq<byte>>, magic: nat, dataSize: nat)

  ghost predicate Placed(st: Store, i: nat, p: nat) {
    i < |st.keys| && |st.placed| == |st.keys| == |st.sol.idx| && st.placed[i] != [] && st.sol.idx[i] == p
  }

  ghost predicate InSidecar(st: Store, e: Entry, c: nat) {
    c < |st.side| && st.side[c].offset in st.bodies && e == Entry(st.side[c].key, st.bodies[st.side[c].offset])
  }

  ghost predicate Sorted(side: seq<Side>) {
    forall i, j :: 0 <= i < j < |side| ==> side[i].key <= side[j].key
  }

  /** The store holds exactly the entries, each in its slot or in the sidecar. */
  ghost predicate Sound(mix: nat -> nat, entries: seq<Entry>, st: Store) {
    && Solved(mix, st.keys, st.sol) && |st.placed| == |st.slots| == |st.keys|
    && (forall i, j :: 0 <= i < j < |st.keys| ==> st.keys[i] != st.keys[j])
    && (forall i :: 0 <= i < |st.keys| && i in st.sol.spilled ==> st.placed[i] == [])
    && (forall i :: 0 <= i < |st.keys| && st.placed[i] != [] ==>
          && Entry(st.keys[i], st.placed[i]) in entries
          && st.slots[st.sol.idx[i]] != 0 && st.slots[st.sol.idx[i]] in st.bodies
          && st.bodies[st.slots[st.sol.idx[i]]] == st.placed[i])
    && (forall p :: 0 <= p < |st.slots| && st.slots[p] != 0 ==> exists i: nat :: Placed(st, i, p))
    && (forall c :: 0 <= c < |st.side| ==>
          && st.side[c].offset != 0 && st.side[c].offset in st.bodies
          && Entry(st.side[c].key, st.bodies[st.side[c].offset]) in entries)
    && (forall e :: e in entries ==> exists i: nat :: Holds(st, e, i))
    && Sorted(st.side)
  }

  /** Key number `i` is the entry's, and the entry is placed there or listed in the sidecar. */
  ghost predicate Holds(st: Store, e: Entry, i: nat) {
    && i < |st.keys| && |st.placed| == |st.keys| && st.keys[i] == e.key
    && (st.placed[i] == e.body || (st.placed[i] == [] && exists c: nat :: InSidecar(st, e, c)))
  }

  // ---------- The bytes ----------

  ghost function SlotTable(st: Store): nat { HEADER + 8 * |st.sol.factors| }
  ghost function SideTable(st: Store): nat { SlotTable(st) + Align8(4 * |st.slots|) }
  ghost function Data(st: Store): nat { SideTable(st) + SIDE_ENTRY * |st.side| }

  /** A body at a data position, after its length. */
  ghost predicate BodyAt(blob: seq<byte>, at: nat, body: seq<byte>) {
    at + 8 + |body| <= |blob| && Slice(blob, at, 8) == Le(|body|, 8) && Slice(blob, at + 8, |body|) == body
  }

  /** The twelve header fields, the format's version 3 among them. */
  ghost predicate HeaderAt(blob: seq<byte>, st: Store) {
    && FieldAt(blob, 0, st.magic, 4) && FieldAt(blob, 4, 3, 4) && FieldAt(blob, 16, st.sol.seed, 8) && FieldAt(blob, 52, st.dataSize, 4)
    && FieldAt(blob, 8, |st.keys|, 4) && FieldAt(blob, 12, st.sol.nBuckets, 4)
    && FieldAt(blob, 24, st.sol.seedFactor, 8)
    && FieldAt(blob, 32, SideTable(st), 4) && FieldAt(blob, 36, SIDE_ENTRY * |st.side|, 4)
    && FieldAt(blob, 40, 56, 4) && FieldAt(blob, 44, SlotTable(st), 4) && FieldAt(blob, 48, Data(st), 4)
  }

  ghost predicate FactorsAt(blob: seq<byte>, st: Store, upto: nat) {
    upto <= |st.sol.factors| && forall b :: 0 <= b < upto ==>
      st.sol.factors[b] < U64 && FieldAt(blob, HEADER + 8 * b, st.sol.factors[b], 8)
  }

  ghost predicate SlotsAt(blob: seq<byte>, st: Store) {
    forall p :: 0 <= p < |st.slots| ==> st.slots[p] < U32 && FieldAt(blob, SlotTable(st) + 4 * p, st.slots[p], 4)
  }

  ghost predicate SidesAt(blob: seq<byte>, st: Store, upto: nat) {
    upto <= |st.side| && forall c :: 0 <= c < upto ==>
      && st.side[c].key < U64 && FieldAt(blob, SideTable(st) + SIDE_ENTRY * c, st.side[c].key, 8)
      && st.side[c].offset < U32 && FieldAt(blob, SideTable(st) + SIDE_ENTRY * c + 8, st.side[c].offset, 8)
  }

  ghost predicate BodiesAt(blob: seq<byte>, st: Store) {
    forall off :: off in st.bodies ==> BodyAt(blob, Data(st) + off, st.bodies[off])
  }

  ghost predicate Represents(blob: seq<byte>, st: Store) {
    && |blob| < U32 && st.sol.seedFactor < U64 && st.sol.nBuckets == |st.sol.factors|
    && |st.slots| == |st.keys| && Data(st) <= |blob|
    && HeaderAt(blob, st) && FactorsAt(blob, st, |st.sol.factors|) && SlotsAt(blob, st)
    && SidesAt(blob, st, |st.side|) && BodiesAt(blob, st)
  }

  datatype Header = Header(nKeys: nat, nBuckets: nat, seedFactor: nat, sides: nat, sideCount: nat,
                           displacements: nat, slots: nat, data: nat)

  method ReadHeader(blob: seq<byte>, ghost st: Store) returns (h: Header)
    requires Represents(blob, st)
    ensures h == Header(|st.keys|, st.sol.nBuckets, st.sol.seedFactor, SideTable(st), |st.side|,
                        HEADER, SlotTable(st), Data(st))
  {
    ReadsField4(blob, 8, |st.keys|);
    ReadsField4(blob, 12, st.sol.nBuckets);
    ReadsField8(blob, 24, st.sol.seedFactor);
    ReadsField4(blob, 32, SideTable(st));
    ReadsField4(blob, 36, SIDE_ENTRY * |st.side|);
    ReadsField4(blob, 40, HEADER);
    ReadsField4(blob, 44, SlotTable(st));
    ReadsField4(blob, 48, Data(st));
    h := Header(ReadU32(blob, 8), ReadU32(blob, 12), ReadU64(blob, 24), ReadU32(blob, 32),
                ReadU32(blob, 36) / SIDE_ENTRY, ReadU32(blob, 40), ReadU32(blob, 44), ReadU32(blob, 48));
  }

  // ---------- Lookups ----------

  lemma AddressInBody(blob: seq<byte>, at: nat, body: seq<byte>)
    requires BodyAt(blob, at, body) && |body| >= ADDRESS
    ensures Slice(blob, at + 8, ADDRESS) == body[..ADDRESS]
  {
    assert Slice(blob, at + 8, |body|)[..ADDRESS] == Slice(blob, at + 8, ADDRESS);
  }

  /** The two-step probe: the bucket's factor, then the slot it leads to. */
  method ProbeSlot(mix: nat -> nat, blob: seq<byte>, h: Header, key8: nat, ghost st: Store) returns (v: nat)
    requires Represents(blob, st) && Solved(mix, st.keys, st.sol) && st.keys != []
    requires h == Header(|st.keys|, st.sol.nBuckets, st.sol.seedFactor, SideTable(st), |st.side|,
                         HEADER, SlotTable(st), Data(st))
    ensures v == st.slots[IndexOf(mix, st.sol, key8, |st.keys|)]
  {
    hide BucketOf, SlotOf, Represents, ReadU32, ReadU64;
    Sections(blob, st);
    var b := BucketOf(mix, key8, h.seedFactor, h.nBuckets);
    FactorReads(blob, st, b);
    var df := ReadU64(blob, h.displacements + 8 * b);
    var idx := SlotOf(mix, key8, h.seedFactor, df, h.nKeys);
    SlotReads(blob, st, idx);
    v := ReadU32(blob, h.slots + 4 * idx);
  }

  lemma Sections(blob: seq<byte>, st: Store)
    requires Represents(blob, st)
    ensures st.sol.nBuckets == |st.sol.factors| && |st.slots| == |st.keys| && Data(st) <= |blob|
  {
    hide HeaderAt, FactorsAt, SlotsAt, SidesAt, BodiesAt;
  }

  lemma FactorReads(blob: seq<byte>, st: Store, b: nat)
    requires Represents(blob, st) && b < |st.sol.factors|
    ensures HEADER + 8 * b + 8 <= |blob| && ReadU64(blob, HEADER + 8 * b) == st.sol.factors[b]
  {
    hide HeaderAt, SlotsAt, SidesAt, BodiesAt, Le, FromLe;
    ReadsField8(blob, HEADER + 8 * b, st.sol.factors[b]);
  }

  lemma SlotReads(blob: seq<byte>, st: Store, p: nat)
    requires Represents(blob, st) && p < |st.slots|
    ensures SlotTable(st) + 4 * p + 4 <= |blob| && ReadU32(blob, SlotTable(st) + 4 * p) == st.slots[p]
  {
    hide HeaderAt, FactorsAt, SidesAt, BodiesAt, Le, FromLe;
    ReadsField4(blob, SlotTable(st) + 4 * p, st.slots[p]);
  }

  method ReadSide(blob: seq<byte>, h: Header, c: nat, ghost st: Store) returns (key: nat, offset: nat)
    requires Represents(blob, st) && c < |st.side| && h.sides == SideTable(st)
    ensures key == st.side[c].key && offset == st.side[c].offset
  {
    ReadsField8(blob, SideTable(st) + SIDE_ENTRY * c, st.side[c].key);
    ReadsField8(blob, SideTable(st) + SIDE_ENTRY * c + 8, st.side[c].offset);
    key, offset := ReadU64(blob, h.sides + SIDE_ENTRY * c), ReadU64(blob, h.sides + SIDE_ENTRY * c + 8);
  }

  /** Binary search by short key: the first sidecar entry not below `key8`. */
  method LowerBound(blob: seq<byte>, h: Header, key8: nat, ghost st: Store) returns (lo: nat)
    requires Represents(blob, st) && Sorted(st.side) && h.sides == SideTable(st) && h.sideCount == |st.side|
    ensures lo <= |st.side|
    ensures forall c :: 0 <= c < lo ==> st.side[c].key < key8
    ensures forall c :: lo <= c < |st.side| ==> st.side[c].key >= key8
  {
    lo := 0;
    var hi := h.sideCount;
    while lo < hi
      invariant 0 <= lo <= hi <= |st.side|
      invariant forall c :: 0 <= c < lo ==> st.side[c].key < key8
      invariant forall c :: hi <= c < |st.side| ==> st.side[c].key >= key8
    {
      var mid := (lo + hi) / 2;
      var key, _ := ReadSide(blob, h, mid, st);
      if key < key8 { lo := mid + 1; } else { hi := mid; }
    }
  }

  ghost predicate SideMatch(st: Store, c: nat, key8: nat, addr: seq<byte>) {
    && c < |st.side| && st.side[c].key == key8 && st.side[c].offset in st.bodies
    && |st.bodies[st.side[c].offset]| >= ADDRESS && st.bodies[st.side[c].offset][..ADDRESS] == addr
  }

  ghost predicate BodiesLong(st: Store) {
    && (forall c :: 0 <= c < |st.side| ==> st.side[c].offset in st.bodies && |st.bodies[st.side[c].offset]| >= ADDRESS)
    && (forall p :: 0 <= p < |st.slots| && st.slots[p] != 0 ==> st.slots[p] in st.bodies && |st.bodies[st.slots[p]]| >= ADDRESS)
  }

  /** A sidecar entry's body, compared with an address. */
  method SideMatches(blob: seq<byte>, h: Header, c: nat, key8: nat, addr: seq<byte>, ghost st: Store) returns (key: nat, offset: nat)
    requires Represents(blob, st) && BodiesLong(st) && c < |st.side| && h.sides == SideTable(st) && h.data == Data(st)
    ensures key == st.side[c].key && (offset == 0 || offset == st.side[c].offset)
    ensures st.side[c].offset != 0 ==> (offset != 0 <==> SideMatch(st, c, key8, addr))
  {
    hide Slice;
    key, offset := ReadSide(blob, h, c, st);
    AddressInBody(blob, Data(st) + offset, st.bodies[offset]);
    if key != key8 || Slice(blob, h.data + offset + 8, ADDRESS) != addr { offset := 0; }
  }

  /** The equal-key run, scanned for the address; zero when it is not there. */
  method SearchSide(blob: seq<byte>, h: Header, key8: nat, addr: seq<byte>, ghost st: Store) returns (off: nat, ghost at: nat)
    requires Represents(blob, st) && Sorted(st.side) && BodiesLong(st) && |addr| == ADDRESS
    requires forall c :: 0 <= c < |st.side| ==> st.side[c].offset != 0
    requires h.sides == SideTable(st) && h.sideCount == |st.side| && h.data == Data(st)
    ensures off != 0 ==> at < |st.side| && SideMatch(st, at, key8, addr) && st.side[at].offset == off
    ensures off == 0 ==> forall c: nat :: !SideMatch(st, c, key8, addr)
  {
    hide Represents, BodiesLong, SideMatch;
    off, at := 0, 0;
    var i := LowerBound(blob, h, key8, st);
    var key := key8;
    forall c: nat | c < i
      ensures !SideMatch(st, c, key8, addr)
    {
      MatchIsUnder(st, c, key8, addr);
    }
    while i < h.sideCount && key == key8 && off == 0
      invariant i <= |st.side|
      invariant forall c: nat :: c < i && off == 0 ==> !SideMatch(st, c, key8, addr)
      invariant off != 0 ==> at < |st.side| && SideMatch(st, at, key8, addr) && st.side[at].offset == off
      invariant key != key8 ==> i > 0 && st.side[i - 1].key > key8 && off == 0
      invariant forall c :: i <= c < |st.side| ==> st.side[c].key >= key8
    {
      key, off := SideMatches(blob, h, i, key8, addr, st);
      MatchIsUnder(st, i, key8, addr);
      at := i;
      i := i + 1;
    }
    forall c: nat
      ensures off == 0 ==> !SideMatch(st, c, key8, addr)
    {
      MatchIsUnder(st, c, key8, addr);
    }
  }

  lemma MatchIsUnder(st: Store, c: nat, key8: nat, addr: seq<byte>)
    ensures SideMatch(st, c, key8, addr) ==> c < |st.side| && st.side[c].key == key8
  {
  }

  /** What a lookup owes its caller: the body of the entry with that address, or nothing. */
  ghost predicate Answers(entries: seq<Entry>, st: Store, addr: seq<byte>, off: nat) {
    && (forall i :: 0 <= i < |entries| && |entries[i].body| >= ADDRESS && entries[i].body[..ADDRESS] == addr ==>
          off != 0 && off in st.bodies && st.bodies[off] == entries[i].body)
    && (off != 0 ==> exists i :: 0 <= i < |entries| && |entries[i].body| >= ADDRESS && entries[i].body[..ADDRESS] == addr)
  }

  /** Distinct addresses: an entry is known by its address. */
  lemma SameAddress(entries: seq<Entry>, e: Entry, f: Entry)
    requires Accounts(entries) && e in entries && f in entries && e.body[..ADDRESS] == f.body[..ADDRESS]
    ensures e == f
  {
    var i :| 0 <= i < |entries| && entries[i] == e;
    var j :| 0 <= j < |entries| && entries[j] == f;
  }

  lemma SoundBodiesLong(mix: nat -> nat, entries: seq<Entry>, st: Store)
    requires Accounts(entries) && Sound(mix, entries, st)
    ensures BodiesLong(st)
  {
    hide FastMod;
    forall e | e in entries
      ensures |e.body| >= ADDRESS
    {
      var i :| 0 <= i < |entries| && entries[i] == e;
      assert IsAccount(entries[i]);
    }
    forall p | 0 <= p < |st.slots| && st.slots[p] != 0
      ensures st.slots[p] in st.bodies && |st.bodies[st.slots[p]]| >= ADDRESS
    {
      var i: nat :| Placed(st, i, p);
      assert Entry(st.keys[i], st.placed[i]) in entries;
    }
  }

  /** A slot match is the entry with that address; a mismatch rules the slot's entry out. */
  lemma SlotAnswers(mix: nat -> nat, entries: seq<Entry>, st: Store, p: nat, addr: seq<byte>)
    requires Accounts(entries) && Sound(mix, entries, st) && BodiesLong(st)
    requires p < |st.slots| && st.slots[p] != 0 && st.bodies[st.slots[p]][..ADDRESS] == addr
    ensures Answers(entries, st, addr, st.slots[p])
  {
    hide FastMod;
    var j: nat :| Placed(st, j, p);
    var found := Entry(st.keys[j], st.placed[j]);
    assert found in entries;
    AnsweredBy(entries, st, addr, st.slots[p], found);
  }

  lemma AnsweredBy(entries: seq<Entry>, st: Store, addr: seq<byte>, off: nat, found: Entry)
    requires Accounts(entries) && found in entries && |found.body| >= ADDRESS && found.body[..ADDRESS] == addr
    requires off != 0 && off in st.bodies && st.bodies[off] == found.body
    ensures Answers(entries, st, addr, off)
  {
    forall i | 0 <= i < |entries| && |entries[i].body| >= ADDRESS && entries[i].body[..ADDRESS] == addr
      ensures st.bodies[off] == entries[i].body
    {
      SameAddress(entries, entries[i], found);
    }
  }

  /** A sidecar match is the entry with that address. */
  lemma SideAnswers(mix: nat -> nat, entries: seq<Entry>, st: Store, c: nat, addr: seq<byte>)
    requires |addr| == ADDRESS && Accounts(entries) && Sound(mix, entries, st)
    requires SideMatch(st, c, AddrKey8(addr), addr)
    ensures Answers(entries, st, addr, st.side[c].offset)
  {
    hide FastMod;
    AnsweredBy(entries, st, addr, st.side[c].offset, Entry(st.side[c].key, st.bodies[st.side[c].offset]));
  }

  /** An entry is either placed in the slot its key probes or matches in the sidecar. */
  lemma EntryIsSomewhere(mix: nat -> nat, entries: seq<Entry>, st: Store, e: Entry) returns (i: nat, c: nat)
    requires Accounts(entries) && Sound(mix, entries, st) && e in entries && IsAccount(e)
    ensures i < |st.keys| && st.keys[i] == e.key && st.sol.idx[i] == IndexOf(mix, st.sol, e.key, |st.keys|)
    ensures st.placed[i] == e.body || (st.placed[i] == [] && SideMatch(st, c, e.key, e.body[..ADDRESS]))
  {
    hide FastMod;
    c := 0;
    i :| Holds(st, e, i);
    if st.placed[i] != e.body {
      c :| InSidecar(st, e, c);
    }
  }

  /** The body of an occupied slot, compared with an address. */
  method SlotMatches(blob: seq<byte>, h: Header, v: nat, addr: seq<byte>, ghost st: Store, ghost p: nat) returns (same: bool)
    requires Represents(blob, st) && BodiesLong(st) && h.data == Data(st)
    requires p < |st.slots| && v == st.slots[p] && v != 0
    ensures same <==> st.bodies[st.slots[p]][..ADDRESS] == addr
  {
    AddressInBody(blob, Data(st) + v, st.bodies[v]);
    same := Slice(blob, h.data + v + 8, ADDRESS) == addr;
  }

  /** With no match in its slot and none in the sidecar, an address is no entry's. */
  lemma NobodysAddress(mix: nat -> nat, entries: seq<Entry>, st: Store, addr: seq<byte>)
    requires |addr| == ADDRESS && Accounts(entries) && Sound(mix, entries, st) && BodiesLong(st)
    requires st.keys != [] ==>
      var p := IndexOf(mix, st.sol, AddrKey8(addr), |st.keys|);
      st.slots[p] == 0 || st.bodies[st.slots[p]][..ADDRESS] != addr
    requires forall c: nat :: !SideMatch(st, c, AddrKey8(addr), addr)
    ensures Answers(entries, st, addr, 0)
  {
    hide FastMod;
    forall i | 0 <= i < |entries| && |entries[i].body| >= ADDRESS
      ensures entries[i].body[..ADDRESS] != addr
    {
      assert IsAccount(entries[i]);
      var k, c := EntryIsSomewhere(mix, entries, st, entries[i]);
    }
  }

  /**
    The host's lookup: the data offset of the entry with that address, zero if there is none,
    whatever short keys collided and whatever keys the solver spilled.
    */
  method AddrLookup(mix: nat -> nat, blob: seq<byte>, addr: seq<byte>, ghost entries: seq<Entry>, ghost st: Store) returns (off: nat)
    requires |addr| == ADDRESS && Accounts(entries)
    requires Represents(blob, st) && Sound(mix, entries, st)
    ensures Answers(entries, st, addr, off)
  {
    hide Answers, BodiesLong, Represents, SideMatch, IndexOf;
    SoundBodiesLong(mix, entries, st);
    var h := ReadHeader(blob, st);
    var key8 := AddrKey8(addr);
    if h.nKeys == 0 {
      EmptyStore(mix, entries, st, addr);
      return 0;
    }
    var v := ProbeSlot(mix, blob, h, key8, st);
    ghost var p := IndexOf(mix, st.sol, key8, |st.keys|);
    if v != 0 {
      var same := SlotMatches(blob, h, v, addr, st, p);
      if same {
        SlotAnswers(mix, entries, st, p, addr);
        return v;
      }
    }
    ghost var at;
    off, at := SearchSide(blob, h, key8, addr, st);
    if off != 0 {
      SideAnswers(mix, entries, st, at, addr);
    } else {
      NobodysAddress(mix, entries, st, addr);
    }
  }

  lemma EmptyStore(mix: nat -> nat, entries: seq<Entry>, st: Store, addr: seq<byte>)
    requires Sound(mix, entries, st) && st.keys == []
    ensures entries == [] && Answers(entries, st, addr, 0)
  {
    hide FastMod;
    if |entries| > 0 { SomeElement(entries); }
  }

  lemma SomeElement(entries: seq<Entry>)
    requires |entries| > 0
    ensures exists e :: e in entries
  {
    assert entries[0] in entries;
  }

  // ---------- The guest's lookup ----------

  /** The key is in the sidecar, and another key's body fills the slot it probes. */
  ghost predicate Shadowed(st: Store, i: nat) {
    i < |st.keys| && |st.placed| == |st.keys| == |st.sol.idx| && st.placed[i] == [] && exists j: nat :: Placed(st, j, st.sol.idx[i])
  }

  /**
    The guest's lookup. An occupied slot that does not match is a definitive miss; only an empty
    slot leads to the sidecar.
    */
  method GuestFind(mix: nat -> nat, blob: seq<byte>, addr: seq<byte>, ghost entries: seq<Entry>, ghost st: Store) returns (r: Option<nat>)
    requires |addr| == ADDRESS && Accounts(entries)
    requires Represents(blob, st) && Sound(mix, entries, st)
    ensures r.Some? ==> r.value != 0 && Answers(entries, st, addr, r.value)
    ensures forall i, k: nat :: 0 <= i < |entries| && entries[i].body[..ADDRESS] == addr && k < |st.keys| && st.keys[k] == entries[i].key ==>
      (r.Some? <==> !Shadowed(st, k))
  {
    hide Answers, BodiesLong, Represents, SideMatch, IndexOf, Shadowed;
    SoundBodiesLong(mix, entries, st);
    var h := ReadHeader(blob, st);
    var key8 := AddrKey8(addr);
    if h.nKeys == 0 {
      return None;
    }
    var v := ProbeSlot(mix, blob, h, key8, st);
    ghost var p := IndexOf(mix, st.sol, key8, |st.keys|);
    if v != 0 {
      var same := SlotMatches(blob, h, v, addr, st, p);
      if same {
        SlotAnswers(mix, entries, st, p, addr);
        r := Some(v);
      } else {
        r := None;
      }
      forall i, k: nat | 0 <= i < |entries| && entries[i].body[..ADDRESS] == addr && k < |st.keys| && st.keys[k] == entries[i].key
        ensures same <==> !Shadowed(st, k)
      {
        OccupiedDecides(mix, entries, st, entries[i], k);
      }
      return;
    }
    var off, at := SearchSide(blob, h, key8, addr, st);
    if off != 0 {
      SideAnswers(mix, entries, st, at, addr);
      r := Some(off);
    } else {
      r := None;
    }
    forall i, k: nat | 0 <= i < |entries| && entries[i].body[..ADDRESS] == addr && k < |st.keys| && st.keys[k] == entries[i].key
      ensures off != 0 && !Shadowed(st, k)
    {
      FreeSlotDecides(mix, entries, st, entries[i], k);
    }
  }

  /** At an occupied slot, the entry's own body is there unless it is shadowed. */
  lemma OccupiedDecides(mix: nat -> nat, entries: seq<Entry>, st: Store, e: Entry, k: nat)
    requires Accounts(entries) && Sound(mix, entries, st) && BodiesLong(st) && e in entries && |e.body| >= ADDRESS
    requires k < |st.keys| && st.keys[k] == e.key && IsAccount(e)
    requires st.slots[st.sol.idx[k]] != 0
    ensures st.bodies[st.slots[st.sol.idx[k]]][..ADDRESS] == e.body[..ADDRESS] <==> !Shadowed(st, k)
  {
    hide FastMod;
    var i, c := EntryIsSomewhere(mix, entries, st, e);
    assert i == k;
    var j: nat :| Placed(st, j, st.sol.idx[k]);
    if st.placed[k] == [] {
      var other := Entry(st.keys[j], st.placed[j]);
      assert other in entries;
      if other.body[..ADDRESS] == e.body[..ADDRESS] {
        SameAddress(entries, other, e);
        assert false;
      }
    }
  }

  /** At a free slot, the entry is in the sidecar and not shadowed. */
  lemma FreeSlotDecides(mix: nat -> nat, entries: seq<Entry>, st: Store, e: Entry, k: nat)
    requires Accounts(entries) && Sound(mix, entries, st) && e in entries && |e.body| >= ADDRESS
    requires k < |st.keys| && st.keys[k] == e.key && IsAccount(e)
    requires st.slots[st.sol.idx[k]] == 0
    ensures !Shadowed(st, k)
    ensures exists c: nat :: SideMatch(st, c, e.key, e.body[..ADDRESS])
  {
    hide FastMod;
    var i, c := EntryIsSomewhere(mix, entries, st, e);
    assert i == k;
  }

  /** Only a key the solver spilled can be shadowed: colliding short keys alone never are. */
  lemma OnlySpilledAreShadowed(mix: nat -> nat, entries: seq<Entry>, st: Store, k: nat)
    requires Sound(mix, entries, st) && Shadowed(st, k)
    ensures k in st.sol.spilled
  {
    hide FastMod;
    var j: nat :| Placed(st, j, st.sol.idx[k]);
  }

  /** A co-spilled solution shadows nobody, so there the guest finds every entry. */
  lemma ClearSidecarShadowsNobody(mix: nat -> nat, entries: seq<Entry>, st: Store, k: nat)
    requires Sound(mix, entries, st) && SidecarClear(st.keys, st.sol)
    ensures !Shadowed(st, k)
  {
    hide FastMod;
    if Shadowed(st, k) {
      OnlySpilledAreShadowed(mix, entries, st, k);
    }
  }
}
