/**
  Building the minimal perfect hash blob: `build_mphf` of prover/stateless_validator/src/mfbd.rs
  (and `MphfBuilder` of zilk_core/core/common_zz/mphf_builder.cpp, which differs in its solver
  only), down to the bytes.
  */
module MphfBuild {
  import opened Basics
  import opened Bytes
  import opened Chd
  import opened MphfStore
  import opened Sorting

  // ---------- Sorting entries into slots and sidecar ----------

  function EntrySize(body: seq<byte>): nat { Align8(8 + |body|) }

  /** The bytes the bodies of some entries take, `extra` more for each; empty ones only where they are stored too. */
  function Weight(entries: seq<Entry>, extra: nat, empties: bool): nat {
    if entries == [] then 0
    else (if entries[0].body == [] && !empties then 0 else extra + EntrySize(entries[0].body))
         + Weight(entries[1..], extra, empties)
  }

  lemma {:induction false} WeightOfConcat(a: seq<Entry>, b: seq<Entry>, extra: nat, empties: bool)
    ensures Weight(a + b, extra, empties) == Weight(a, extra, empties) + Weight(b, extra, empties)
  {
    if a == [] {
      assert a + b == b;
    } else {
      assert (a + b)[1..] == a[1..] + b;
      WeightOfConcat(a[1..], b, extra, empties);
    }
  }

  lemma WeightOfOne(e: Entry, extra: nat, empties: bool)
    ensures Weight([e], extra, empties) == if e.body == [] && !empties then 0 else extra + EntrySize(e.body)
  {
    assert [e][1..] == [];
  }

  lemma WeightOfInsert(s: seq<Entry>, pos: nat, e: Entry, extra: nat, empties: bool)
    requires pos <= |s|
    ensures Weight(s[..pos] + [e] + s[pos..], extra, empties) == Weight(s, extra, empties) + Weight([e], extra, empties)
  {
    hide Weight;
    WeightOfConcat(s[..pos] + [e], s[pos..], extra, empties);
    WeightOfConcat(s[..pos], [e], extra, empties);
    assert s == s[..pos] + s[pos..];
    WeightOfConcat(s[..pos], s[pos..], extra, empties);
  }

  lemma WeightOfUpdate(s: seq<Entry>, pos: nat, e: Entry, extra: nat, empties: bool)
    requires pos < |s|
    ensures Weight(s[pos := e], extra, empties) + Weight([s[pos]], extra, empties)
            == Weight(s, extra, empties) + Weight([e], extra, empties)
  {
    hide Weight;
    var rest := s[..pos] + s[pos + 1..];
    assert s == rest[..pos] + [s[pos]] + rest[pos..];
    assert s[pos := e] == rest[..pos] + [e] + rest[pos..];
    WeightOfInsert(rest, pos, s[pos], extra, empties);
    WeightOfInsert(rest, pos, e, extra, empties);
  }

  ghost predicate StrictKeys(s: seq<Entry>) {
    forall i, j :: 0 <= i < j < |s| ==> s[i].key < s[j].key
  }

  /**
    Every entry is in `unique` or in the sidecar list; keys with more than one entry, and those
    spilled, keep an empty body in `unique`. No body but an empty one is lost, and none stored twice.
    */
  ghost predicate Gathered(entries: seq<Entry>, unique: seq<Entry>, side: seq<Entry>) {
    && StrictKeys(unique) && |unique| <= |entries|
    && (forall e :: e in entries ==> e in unique || e in side)
    && (forall e :: e in side ==> e in entries && Entry(e.key, []) in unique)
    && (forall e :: e in unique && e.body != [] ==> e in entries)
    && (forall x: nat {:trigger Weight(entries, x, true)} ::
          Weight(unique, x, false) + Weight(side, x, true) <= Weight(entries, x, true))
  }

  ghost predicate HasKey(entries: seq<Entry>, key: nat) {
    exists i :: 0 <= i < |entries| && entries[i].key == key
  }

  ghost predicate Repeats(entries: seq<Entry>, key: nat) {
    exists i, j :: 0 <= i < j < |entries| && entries[i].key == key == entries[j].key
  }

  /** Only repeated keys, and those in `out`, are in the sidecar list. */
  ghost predicate Accounted(entries: seq<Entry>, unique: seq<Entry>, side: seq<Entry>, out: set<nat>) {
    && (forall i :: 0 <= i < |unique| ==> HasKey(entries, unique[i].key))
    && (forall e :: e in side ==> Repeats(entries, e.key) || e.key in out)
  }

  lemma OneMoreEntry(entries: seq<Entry>, unique: seq<Entry>, side: seq<Entry>, out: set<nat>, e: Entry)
    requires Accounted(entries, unique, side, out)
    ensures Accounted(entries + [e], unique, side, out)
    ensures HasKey(entries, e.key) ==> Repeats(entries + [e], e.key)
    ensures HasKey(entries + [e], e.key)
  {
    var entries' := entries + [e];
    assert entries'[|entries|] == e;
    forall key | HasKey(entries, key)
      ensures HasKey(entries', key) && (key == e.key ==> Repeats(entries', key))
    {
      var i :| 0 <= i < |entries| && entries[i].key == key;
      assert entries'[i].key == key;
    }
    forall key | Repeats(entries, key)
      ensures Repeats(entries', key)
    {
      var i, j :| 0 <= i < j < |entries| && entries[i].key == key == entries[j].key;
      assert entries'[i].key == key == entries'[j].key;
    }
  }

  /** A key's body leaves for the sidecar. */
  lemma MoveOut(entries: seq<Entry>, unique: seq<Entry>, side: seq<Entry>, pos: nat)
    requires Gathered(entries, unique, side) && pos < |unique| && unique[pos].body != []
    ensures Gathered(entries, unique[pos := Entry(unique[pos].key, [])], side + [unique[pos]])
  {
    var e, emptied := unique[pos], Entry(unique[pos].key, []);
    var unique', side' := unique[pos := emptied], side + [e];
    assert unique'[pos] == emptied;
    forall f | f in entries
      ensures f in unique' || f in side'
    {
      if f in unique && f != e {
        var i :| 0 <= i < |unique| && unique[i] == f;
        assert unique'[i] == f;
      }
    }
    forall f | f in side'
      ensures f in entries && Entry(f.key, []) in unique'
    {
      if f in side {
        var i :| 0 <= i < |unique| && unique[i] == Entry(f.key, []);
        assert unique'[i] == Entry(f.key, []);
      }
    }
    forall x: nat
      ensures Weight(unique', x, false) + Weight(side', x, true) <= Weight(entries, x, true)
    {
      WeightOfUpdate(unique, pos, emptied, x, false);
      WeightOfOne(emptied, x, false);
      WeightOfOne(e, x, false);
      WeightOfOne(e, x, true);
      WeightOfConcat(side, [e], x, true);
    }
  }

  /** A further entry of a known key goes to the sidecar. */
  lemma AddRepeat(entries: seq<Entry>, unique: seq<Entry>, side: seq<Entry>, e: Entry)
    requires Gathered(entries, unique, side) && Entry(e.key, []) in unique
    ensures Gathered(entries + [e], unique, side + [e])
  {
    forall x: nat
      ensures Weight(unique, x, false) + Weight(side + [e], x, true) <= Weight(entries + [e], x, true)
    {
      WeightOfConcat(side, [e], x, true);
      WeightOfConcat(entries, [e], x, true);
    }
  }

  /** The first entry of a new key. */
  lemma AddNew(entries: seq<Entry>, unique: seq<Entry>, side: seq<Entry>, e: Entry, pos: nat)
    requires Gathered(entries, unique, side) && pos <= |unique|
    requires forall i :: 0 <= i < pos ==> unique[i].key < e.key
    requires forall i :: pos <= i < |unique| ==> e.key < unique[i].key
    ensures Gathered(entries + [e], unique[..pos] + [e] + unique[pos..], side)
  {
    var unique' := unique[..pos] + [e] + unique[pos..];
    assert unique'[pos] == e;
    forall f | f in unique
      ensures f in unique'
    {
      var i :| 0 <= i < |unique| && unique[i] == f;
      assert unique'[if i < pos then i else i + 1] == f;
    }
    forall x: nat
      ensures Weight(unique', x, false) + Weight(side, x, true) <= Weight(entries + [e], x, true)
    {
      WeightOfInsert(unique, pos, e, x, false);
      WeightOfConcat(entries, [e], x, true);
      WeightOfOne(e, x, false);
      WeightOfOne(e, x, true);
    }
  }

  /** Where a key is, or belongs, in the ordered map. */
  method Position(unique: seq<Entry>, key: nat) returns (pos: nat)
    requires StrictKeys(unique)
    ensures pos <= |unique|
    ensures forall i :: 0 <= i < pos ==> unique[i].key < key
    ensures forall i :: pos <= i < |unique| ==> key <= unique[i].key
  {
    pos := 0;
    while pos < |unique| && unique[pos].key < key
      invariant pos <= |unique|
      invariant forall i :: 0 <= i < pos ==> unique[i].key < key
    {
      pos := pos + 1;
    }
  }

  /** The first pass: distinct keys in ascending order, repeats to the sidecar. */
  method Gather(entries: seq<Entry>) returns (unique: seq<Entry>, side: seq<Entry>)
    ensures Gathered(entries, unique, side) && Accounted(entries, unique, side, {})
  {
    hide Gathered, Accounted;
    unique, side := [], [];
    NoneGathered();
    assert entries[..0] == [];
    for n := 0 to |entries|
      invariant Gathered(entries[..n], unique, side) && Accounted(entries[..n], unique, side, {})
    {
      assert entries[..n + 1] == entries[..n] + [entries[n]];
      unique, side := GatherEntry(entries[..n], unique, side, entries[n]);
    }
    assert entries[..|entries|] == entries;
  }

  /** One more entry: the first of its key, or a repeat. */
  method GatherEntry(ghost before: seq<Entry>, unique0: seq<Entry>, side0: seq<Entry>, e: Entry) returns (unique: seq<Entry>, side: seq<Entry>)
    requires Gathered(before, unique0, side0) && Accounted(before, unique0, side0, {})
    ensures Gathered(before + [e], unique, side) && Accounted(before + [e], unique, side, {})
  {
    hide Gathered, StrictKeys, Accounted, HasKey, Repeats;
    unique, side := unique0, side0;
    GatheredStrict(before, unique, side);
    OneMoreEntry(before, unique, side, {}, e);
    var pos := Position(unique, e.key);
    if pos < |unique| && unique[pos].key == e.key {
      RepeatAccounted(before, unique, side, pos, e);
      if unique[pos].body != [] {
        MoveOut(before, unique, side, pos);
        unique, side := unique[pos := Entry(e.key, [])], side + [unique[pos]];
      }
      assert unique[pos] == Entry(e.key, []);
      AddRepeat(before, unique, side, e);
      side := side + [e];
    } else {
      KeyIsNew(unique, e.key, pos);
      AddNew(before, unique, side, e, pos);
      NewAccounted(before + [e], unique, side, pos, e);
      unique := unique[..pos] + [e] + unique[pos..];
    }
  }

  lemma RepeatAccounted(before: seq<Entry>, unique: seq<Entry>, side: seq<Entry>, pos: nat, e: Entry)
    requires Accounted(before, unique, side, {}) && pos < |unique| && unique[pos].key == e.key
    ensures Accounted(before + [e], unique, side + [e], {})
    ensures Accounted(before + [e], unique[pos := Entry(e.key, [])], side + [unique[pos]] + [e], {})
  {
    hide HasKey, Repeats;
    OneMoreEntry(before, unique, side, {}, e);
    assert HasKey(before, unique[pos].key);
  }

  lemma NewAccounted(entries: seq<Entry>, unique: seq<Entry>, side: seq<Entry>, pos: nat, e: Entry)
    requires Accounted(entries, unique, side, {}) && HasKey(entries, e.key) && pos <= |unique|
    ensures Accounted(entries, unique[..pos] + [e] + unique[pos..], side, {})
  {
    hide HasKey, Repeats;
  }

  lemma NoneGathered()
    ensures Gathered([], [], []) && Accounted([], [], [], {})
  {
    forall x: nat
      ensures Weight([], x, false) + Weight([], x, true) <= Weight([], x, true)
    {
    }
  }

  lemma GatheredStrict(entries: seq<Entry>, unique: seq<Entry>, side: seq<Entry>)
    requires Gathered(entries, unique, side)
    ensures StrictKeys(unique)
  {
  }

  lemma KeyIsNew(unique: seq<Entry>, key: nat, pos: nat)
    requires StrictKeys(unique) && pos <= |unique|
    requires forall i :: pos <= i < |unique| ==> key <= unique[i].key
    requires pos < |unique| ==> unique[pos].key != key
    ensures forall i :: pos <= i < |unique| ==> key < unique[i].key
  {
  }

  function Keys(unique: seq<Entry>): (keys: seq<nat>)
    ensures |keys| == |unique| && forall i :: 0 <= i < |keys| ==> keys[i] == unique[i].key
  {
    seq(|unique|, i requires 0 <= i < |unique| => unique[i].key)
  }

  ghost function KeysAt(keys: seq<nat>, spilled: seq<nat>): set<nat> {
    set i | i in spilled && i < |keys| :: keys[i]
  }

  lemma SpilledKeyAt(keys: seq<nat>, spilled: seq<nat>, k: nat)
    requires k < |spilled| && spilled[k] < |keys|
    ensures keys[spilled[k]] in KeysAt(keys, spilled)
  {
    assert spilled[k] in spilled;
  }

  /** Spilled keys join the sidecar. */
  method RouteSpilled(entries: seq<Entry>, unique0: seq<Entry>, side0: seq<Entry>, spilled: seq<nat>)
    returns (unique: seq<Entry>, side: seq<Entry>)
    requires Gathered(entries, unique0, side0) && forall j :: 0 <= j < |spilled| ==> spilled[j] < |unique0|
    requires Accounted(entries, unique0, side0, {})
    ensures Gathered(entries, unique, side) && Keys(unique) == Keys(unique0)
    ensures Accounted(entries, unique, side, KeysAt(Keys(unique), spilled))
    ensures forall j :: 0 <= j < |spilled| ==> unique[spilled[j]].body == []
  {
    hide Gathered, Repeats, HasKey;
    unique, side := unique0, side0;
    ghost var out := KeysAt(Keys(unique0), spilled);
    for k := 0 to |spilled|
      invariant Gathered(entries, unique, side) && Keys(unique) == Keys(unique0)
      invariant |unique| == |unique0| && Accounted(entries, unique, side, out)
      invariant forall j :: 0 <= j < k ==> unique[spilled[j]].body == []
    {
      var i := spilled[k];
      if unique[i].body != [] {
        MoveOut(entries, unique, side, i);
        var emptied := unique[i := Entry(unique[i].key, [])];
        SpilledKeyAt(Keys(unique0), spilled, k);
        assert Keys(emptied) == Keys(unique);
        unique, side := emptied, side + [unique[i]];
      }
    }
  }

  // ---------- Writing the blob ----------

  /** A write at or past the end of a section leaves the section as it was. */
  lemma KeepsTables(blob: seq<byte>, at: nat, v: seq<byte>, st: Store, factors: nat)
    requires at + |v| <= |blob|
    ensures HeaderAt(blob, st) && HEADER <= at ==> HeaderAt(Put(blob, at, v), st)
    ensures FactorsAt(blob, st, factors) && HEADER + 8 * factors <= at ==> FactorsAt(Put(blob, at, v), st, factors)
    ensures SlotsAt(blob, st) && SlotTable(st) + 4 * |st.slots| <= at ==> SlotsAt(Put(blob, at, v), st)
    ensures SlotsAt(blob, st) && at + |v| <= SlotTable(st) ==> SlotsAt(Put(blob, at, v), st)
  {
    hide Put, Slice, Le;
    PutElsewhere(blob, at, v);
  }

  lemma KeepsSides(blob: seq<byte>, at: nat, v: seq<byte>, st: Store, upto: nat)
    requires at + |v| <= |blob| && SidesAt(blob, st, upto) && SideTable(st) + SIDE_ENTRY * upto <= at
    ensures SidesAt(Put(blob, at, v), st, upto)
  {
    hide Put, Slice, Le;
    PutElsewhere(blob, at, v);
  }

  /** A write before the data section, or past every body, leaves the bodies as they were. */
  lemma KeepsBodies(blob: seq<byte>, at: nat, v: seq<byte>, st: Store)
    requires at + |v| <= |blob| && BodiesAt(blob, st)
    requires at + |v| <= Data(st) || forall off :: off in st.bodies ==> Data(st) + off + 8 + |st.bodies[off]| <= at
    ensures BodiesAt(Put(blob, at, v), st)
  {
    hide Put, Slice, Le;
    PutElsewhere(blob, at, v);
  }

  /** A length and a body at a data position. */
  function PutBody(blob: seq<byte>, at: nat, body: seq<byte>): (r: seq<byte>)
    requires at + 8 + |body| <= |blob|
    ensures |r| == |blob|
  {
    Put(Put(blob, at, Le(|body|, 8)), at + 8, body)
  }

  lemma PutsBody(blob: seq<byte>, at: nat, body: seq<byte>)
    requires at + 8 + |body| <= |blob|
    ensures BodyAt(PutBody(blob, at, body), at, body)
  {
    hide Put, Slice, Le;
    var b := Put(blob, at, Le(|body|, 8));
    PutThere(blob, at, Le(|body|, 8));
    PutElsewhere(b, at + 8, body);
    PutThere(b, at + 8, body);
  }

  /** The header fields. */
  function HeaderFields(st: Store): (fields: seq<Field>)
    ensures Ascending(fields, HEADER)
  {
    var slots := HEADER + 8 * |st.sol.factors|;
    var sides := slots + Align8(4 * |st.slots|);
    [Field(0, st.magic, 4), Field(4, 3, 4), Field(8, |st.keys|, 4), Field(12, st.sol.nBuckets, 4),
     Field(16, st.sol.seed, 8), Field(24, st.sol.seedFactor, 8),
     Field(32, sides, 4), Field(36, SIDE_ENTRY * |st.side|, 4), Field(40, HEADER, 4), Field(44, slots, 4),
     Field(48, sides + SIDE_ENTRY * |st.side|, 4), Field(52, st.dataSize, 4)]
  }

  lemma PutsHeader(blob: seq<byte>, st: Store)
    requires |blob| >= HEADER
    ensures HeaderAt(PutFields(blob, HeaderFields(st)), st)
  {
    hide Put, Slice, Le, PutFields;
    var fields := HeaderFields(st);
    FieldsHold(blob, fields);
    assert fields[0].at == 0 && fields[1].at == 4 && fields[4].at == 16 && fields[11].at == 52;
    assert fields[2].at == 8 && fields[3].at == 12 && fields[5].at == 24;
    assert fields[6].at == 32 && fields[7].at == 36 && fields[8].at == 40 && fields[9].at == 44 && fields[10].at == 48;
  }

  /** The blob while bodies are being added, `cur` the next free data offset. */
  ghost predicate Writing(blob: seq<byte>, st: Store, cur: nat) {
    && |st.slots| == |st.keys| && 8 <= cur && Data(st) + cur <= |blob| < U32
    && HeaderAt(blob, st) && FactorsAt(blob, st, |st.sol.factors|) && SlotsAt(blob, st) && BodiesAt(blob, st)
    && (forall off :: off in st.bodies ==> 8 <= off && off + 8 + |st.bodies[off]| <= cur)
  }

  lemma AddBody(blob: seq<byte>, st: Store, cur: nat, body: seq<byte>)
    requires Writing(blob, st, cur) && Data(st) + cur + EntrySize(body) <= |blob|
    ensures Writing(PutBody(blob, Data(st) + cur, body), st.(bodies := st.bodies[cur := body]), cur + EntrySize(body))
    ensures cur !in st.bodies
  {
    hide Put, Slice, Le, HeaderAt, FactorsAt, SlotsAt, BodyAt;
    var at, st' := Data(st) + cur, st.(bodies := st.bodies[cur := body]);
    var b := Put(blob, at, Le(|body|, 8));
    var blob' := Put(b, at + 8, body);
    KeepsTables(blob, at, Le(|body|, 8), st, |st.sol.factors|);
    KeepsTables(b, at + 8, body, st, |st.sol.factors|);
    KeepsBodies(blob, at, Le(|body|, 8), st);
    KeepsBodies(b, at + 8, body, st);
    PutsBody(blob, at, body);
    SameTables(blob', st, st');
    assert Data(st') == Data(st);
    assert BodiesAt(blob', st');
  }

  /** The tables depend on the solution, the slots and the number of sidecar entries alone. */
  lemma SameTables(blob: seq<byte>, st: Store, st': Store)
    requires st'.sol == st.sol && st'.keys == st.keys && st'.magic == st.magic && st'.dataSize == st.dataSize && |st'.slots| == |st.slots| && |st'.side| == |st.side|
    ensures HeaderAt(blob, st) ==> HeaderAt(blob, st')
    ensures FactorsAt(blob, st, |st.sol.factors|) ==> FactorsAt(blob, st', |st'.sol.factors|)
    ensures st'.slots == st.slots && SlotsAt(blob, st) ==> SlotsAt(blob, st')
    ensures st'.bodies == st.bodies && BodiesAt(blob, st) ==> BodiesAt(blob, st')
  {
    hide FieldAt, BodyAt, Align8;
    assert SlotTable(st') == SlotTable(st) && SideTable(st') == SideTable(st) && Data(st') == Data(st);
  }

  lemma SetSlot(blob: seq<byte>, st: Store, cur: nat, p: nat, v: nat)
    requires Writing(blob, st, cur) && p < |st.slots| && v < U32
    ensures Writing(Put(blob, SlotTable(st) + 4 * p, Le(v, 4)), st.(slots := st.slots[p := v]), cur)
  {
    hide Put, Slice, Le, HeaderAt, FactorsAt, BodyAt;
    var at, st' := SlotTable(st) + 4 * p, st.(slots := st.slots[p := v]);
    var blob' := Put(blob, at, Le(v, 4));
    KeepsTables(blob, at, Le(v, 4), st, |st.sol.factors|);
    KeepsBodies(blob, at, Le(v, 4), st);
    PutsField(blob, at, v, 4);
    PutElsewhere(blob, at, Le(v, 4));
    SameTables(blob', st, st');
    assert SlotTable(st') == SlotTable(st);
    forall q | 0 <= q < |st'.slots|
      ensures st'.slots[q] < U32 && FieldAt(blob', SlotTable(st') + 4 * q, st'.slots[q], 4)
    {
      if q != p { assert FieldAt(blob, SlotTable(st) + 4 * q, st.slots[q], 4); }
    }
  }

  method WriteFactors(blob0: seq<byte>, st: Store) returns (blob: seq<byte>)
    requires HeaderAt(blob0, st) && SlotsAt(blob0, st) && SlotTable(st) <= |blob0|
    requires forall b :: 0 <= b < |st.sol.factors| ==> st.sol.factors[b] < U64
    ensures |blob| == |blob0|
    ensures HeaderAt(blob, st) && SlotsAt(blob, st) && FactorsAt(blob, st, |st.sol.factors|)
  {
    hide Put, Slice, Le, HeaderAt, SlotsAt;
    blob := blob0;
    for b := 0 to |st.sol.factors|
      invariant |blob| == |blob0|
      invariant HeaderAt(blob, st) && SlotsAt(blob, st) && FactorsAt(blob, st, b)
    {
      var at := HEADER + 8 * b;
      KeepsTables(blob, at, Le(st.sol.factors[b], 8), st, b);
      PutsField(blob, at, st.sol.factors[b], 8);
      blob := Put(blob, at, Le(st.sol.factors[b], 8));
    }
  }

  /** The slots of the first `i` keys: each placed body is found from its slot, and no other slot is used. */
  ghost predicate Filled(st: Store, i: nat) {
    && i <= |st.keys| && |st.placed| == |st.slots| == |st.keys| == |st.sol.idx|
    && (forall j :: 0 <= j < |st.keys| ==> st.sol.idx[j] < |st.keys|)
    && (forall j :: 0 <= j < i && st.placed[j] != [] ==>
          && st.slots[st.sol.idx[j]] != 0 && st.slots[st.sol.idx[j]] in st.bodies
          && st.bodies[st.slots[st.sol.idx[j]]] == st.placed[j])
    && (forall p :: 0 <= p < |st.slots| && st.slots[p] != 0 ==> exists j: nat :: j < i && Placed(st, j, p))
  }

  /** Placed bodies have slots of their own. */
  ghost predicate OwnSlots(st: Store) {
    && |st.placed| == |st.keys| == |st.sol.idx|
    && forall i, j :: 0 <= i < j < |st.keys| && st.placed[i] != [] && st.placed[j] != [] ==> st.sol.idx[i] != st.sol.idx[j]
  }

  lemma FillSlot(st: Store, i: nat, cur: nat)
    requires Filled(st, i) && OwnSlots(st) && i < |st.keys| && cur != 0 && cur !in st.bodies
    ensures st.placed[i] == [] ==> Filled(st, i + 1)
    ensures st.placed[i] != [] ==>
      Filled(st.(slots := st.slots[st.sol.idx[i] := cur], bodies := st.bodies[cur := st.placed[i]]), i + 1)
  {
    if st.placed[i] == [] {
      forall p | 0 <= p < |st.slots| && st.slots[p] != 0
        ensures exists j: nat :: j < i + 1 && Placed(st, j, p)
      {
        var j: nat :| j < i && Placed(st, j, p);
      }
    } else {
      var st' := st.(slots := st.slots[st.sol.idx[i] := cur], bodies := st.bodies[cur := st.placed[i]]);
      forall p | 0 <= p < |st'.slots| && st'.slots[p] != 0
        ensures exists j: nat :: j < i + 1 && Placed(st', j, p)
      {
        if p == st.sol.idx[i] {
          assert Placed(st', i, p);
        } else {
          var j: nat :| j < i && Placed(st, j, p);
          assert Placed(st', j, p);
        }
      }
    }
  }

  /** The data section and the slots of the placed bodies. */
  method WritePlaced(blob0: seq<byte>, st0: Store, unique: seq<Entry>, dataSize: nat)
    returns (blob: seq<byte>, cur: nat, ghost st: Store)
    requires Writing(blob0, st0, 8) && Filled(st0, 0) && OwnSlots(st0)
    requires |unique| == |st0.keys| && forall i :: 0 <= i < |unique| ==> unique[i].body == st0.placed[i]
    requires Data(st0) + dataSize <= |blob0| && 8 + Weight(unique, 0, false) <= dataSize
    ensures |blob| == |blob0| && st == st0.(slots := st.slots, bodies := st.bodies) && |st.slots| == |st0.slots|
    ensures Writing(blob, st, cur) && Filled(st, |st.keys|) && cur == 8 + Weight(unique, 0, false)
  {
    hide Put, Writing, Filled, PutBody, OwnSlots;
    blob, cur, st := blob0, 8, st0;
    var slots := HEADER + 8 * |st0.sol.factors|;
    var data := slots + Align8(4 * |st0.slots|) + SIDE_ENTRY * |st0.side|;
    for i := 0 to |unique|
      invariant |blob| == |blob0| && st == st0.(slots := st.slots, bodies := st.bodies) && |st.slots| == |st0.slots|
      invariant Writing(blob, st, cur) && Filled(st, i) && OwnSlots(st)
      invariant cur + Weight(unique[i..], 0, false) == 8 + Weight(unique, 0, false)
    {
      assert unique[i..][1..] == unique[i + 1..];
      var body := unique[i].body;
      NewOffset(blob, st, cur);
      FillSlot(st, i, cur);
      if body != [] {
        IdxBelow(st, i);
        SetSlot(blob, st, cur, st.sol.idx[i], cur);
        blob := Put(blob, slots + 4 * st0.sol.idx[i], Le(cur, 4));
        st := st.(slots := st.slots[st.sol.idx[i] := cur]);
        AddBody(blob, st, cur, body);
        blob := PutBody(blob, data + cur, body);
        st := st.(bodies := st.bodies[cur := body]);
        OwnSlotsSame(st0, st);
        cur := cur + EntrySize(body);
      }
    }
  }

  lemma NewOffset(blob: seq<byte>, st: Store, cur: nat)
    requires Writing(blob, st, cur)
    ensures cur !in st.bodies && 8 <= cur < U32
  {
  }

  lemma IdxBelow(st: Store, i: nat)
    requires Filled(st, i) && i < |st.keys|
    ensures |st.slots| == |st.sol.idx| == |st.keys| && st.sol.idx[i] < |st.slots|
  {
  }

  lemma OwnSlotsSame(st: Store, st': Store)
    requires OwnSlots(st) && st'.placed == st.placed && st'.keys == st.keys && st'.sol == st.sol
    ensures OwnSlots(st')
  {
  }

  /** Sidecar entry `j` points at the body of the `j`-th entry sent to the sidecar. */
  ghost predicate Points(st: Store, sides: seq<Side>, side: seq<Entry>) {
    && |sides| <= |side|
    && forall j :: 0 <= j < |sides| ==>
         && 0 < sides[j].offset < U32 && sides[j].offset in st.bodies
         && Entry(sides[j].key, st.bodies[sides[j].offset]) == side[j]
  }

  lemma AddPoint(st: Store, sides: seq<Side>, side: seq<Entry>, cur: nat, i: nat)
    requires Points(st, sides, side) && |sides| < |side| && 0 < cur < U32 && cur !in st.bodies && Filled(st, i)
    ensures var st' := st.(bodies := st.bodies[cur := side[|sides|].body]);
            Points(st', sides + [Side(side[|sides|].key, cur)], side) && Filled(st', i)
  {
    var st' := st.(bodies := st.bodies[cur := side[|sides|].body]);
    forall p | 0 <= p < |st'.slots| && st'.slots[p] != 0
      ensures exists j: nat :: j < i && Placed(st', j, p)
    {
      var j: nat :| j < i && Placed(st, j, p);
      assert Placed(st', j, p);
    }
  }

  /** The bodies of the sidecar entries, after the placed ones. */
  method WriteSideBodies(blob0: seq<byte>, cur0: nat, ghost st0: Store, side: seq<Entry>, data: nat)
    returns (blob: seq<byte>, sides: seq<Side>, ghost st: Store, ghost cur: nat)
    requires Writing(blob0, st0, cur0) && Filled(st0, |st0.keys|) && data == Data(st0)
    requires data + cur0 + Weight(side, 0, true) <= |blob0|
    ensures |blob| == |blob0| && st == st0.(bodies := st.bodies)
    ensures Writing(blob, st, cur) && Filled(st, |st.keys|) && Points(st, sides, side) && |sides| == |side|
  {
    hide Put, Writing, Filled, PutBody, Points;
    var next: nat := cur0;
    blob, sides, st := blob0, [], st0;
    NoPoints(st, side);
    for c := 0 to |side|
      invariant |blob| == |blob0| && st == st0.(bodies := st.bodies)
      invariant Writing(blob, st, next) && Filled(st, |st.keys|) && Points(st, sides, side) && |sides| == c
      invariant next + Weight(side[c..], 0, true) == cur0 + Weight(side, 0, true)
    {
      assert side[c..][1..] == side[c + 1..];
      NewOffset(blob, st, next);
      AddPoint(st, sides, side, next, |st.keys|);
      AddBody(blob, st, next, side[c].body);
      blob := PutBody(blob, data + next, side[c].body);
      sides := sides + [Side(side[c].key, next)];
      st := st.(bodies := st.bodies[next := side[c].body]);
      next := next + EntrySize(side[c].body);
    }
    cur := next;
  }

  lemma NoPoints(st: Store, side: seq<Entry>)
    ensures Points(st, [], side)
  {
  }

  method SortSides(sides: seq<Side>) returns (sorted: seq<Side>)
    ensures Sorted(sorted) && multiset(sorted) == multiset(sides)
  {
    var key := (s: Side) => s.key as int;
    sorted := SortBy(sides, key);
  }

  /** The sidecar table. */
  method WriteSides(blob0: seq<byte>, ghost st: Store, sorted: seq<Side>, sides: nat) returns (blob: seq<byte>)
    requires HeaderAt(blob0, st) && FactorsAt(blob0, st, |st.sol.factors|) && SlotsAt(blob0, st) && BodiesAt(blob0, st)
    requires st.side == sorted && sides == SideTable(st) && Data(st) <= |blob0|
    requires forall c :: 0 <= c < |sorted| ==> sorted[c].key < U64 && sorted[c].offset < U32
    ensures |blob| == |blob0|
    ensures HeaderAt(blob, st) && FactorsAt(blob, st, |st.sol.factors|) && SlotsAt(blob, st) && BodiesAt(blob, st)
    ensures SidesAt(blob, st, |sorted|)
  {
    hide Put, Slice, Le, HeaderAt, FactorsAt, SlotsAt, BodiesAt, SidesAt;
    blob := blob0;
    NoSides(blob, st);
    for c := 0 to |sorted|
      invariant |blob| == |blob0|
      invariant HeaderAt(blob, st) && FactorsAt(blob, st, |st.sol.factors|) && SlotsAt(blob, st) && BodiesAt(blob, st)
      invariant SidesAt(blob, st, c)
    {
      var at := sides + SIDE_ENTRY * c;
      PutsSide(blob, st, c);
      KeepsTables(blob, at, Le(sorted[c].key, 8), st, |st.sol.factors|);
      KeepsBodies(blob, at, Le(sorted[c].key, 8), st);
      blob := Put(blob, at, Le(sorted[c].key, 8));
      KeepsTables(blob, at + 8, Le(sorted[c].offset, 8), st, |st.sol.factors|);
      KeepsBodies(blob, at + 8, Le(sorted[c].offset, 8), st);
      blob := Put(blob, at + 8, Le(sorted[c].offset, 8));
    }
  }

  lemma NoSides(blob: seq<byte>, st: Store)
    ensures SidesAt(blob, st, 0)
  {
  }

  lemma PutsSide(blob: seq<byte>, st: Store, c: nat)
    requires SidesAt(blob, st, c) && c < |st.side| && Data(st) <= |blob|
    requires st.side[c].key < U64 && st.side[c].offset < U32
    ensures var at := SideTable(st) + SIDE_ENTRY * c;
            SidesAt(Put(Put(blob, at, Le(st.side[c].key, 8)), at + 8, Le(st.side[c].offset, 8)), st, c + 1)
  {
    hide Put, Slice, Le;
    var at := SideTable(st) + SIDE_ENTRY * c;
    var b := Put(blob, at, Le(st.side[c].key, 8));
    KeepsSides(blob, at, Le(st.side[c].key, 8), st, c);
    KeepsSides(b, at + 8, Le(st.side[c].offset, 8), st, c);
    PutsField(blob, at, st.side[c].key, 8);
    PutsField(b, at + 8, st.side[c].offset, 8);
    PutElsewhere(b, at + 8, Le(st.side[c].offset, 8));
  }

  // ---------- The whole build ----------

  function PlacedBodies(unique: seq<Entry>): (bodies: seq<seq<byte>>)
    ensures |bodies| == |unique| && forall i :: 0 <= i < |bodies| ==> bodies[i] == unique[i].body
  {
    seq(|unique|, i requires 0 <= i < |unique| => unique[i].body)
  }

  lemma ZeroField(b: seq<byte>, at: nat)
    requires at + 4 <= |b| && forall i :: at <= i < at + 4 ==> b[i] == 0
    ensures FieldAt(b, at, 0, 4)
  {
    assert Le(0, 1) == [0];
    assert Le(0, 2) == [0, 0];
    assert Le(0, 3) == [0, 0, 0];
    assert Slice(b, at, 4) == [0, 0, 0, 0];
  }

  /** The zeroed buffer with its header and factors: every slot still reads zero. */
  method StartBlob(st: Store, total: nat) returns (blob: seq<byte>)
    requires |st.slots| == |st.keys| && (forall p :: 0 <= p < |st.slots| ==> st.slots[p] == 0) && st.bodies == map[]
    requires forall b :: 0 <= b < |st.sol.factors| ==> st.sol.factors[b] < U64
    requires Data(st) + 8 <= total < U32
    ensures |blob| == total && Writing(blob, st, 8)
  {
    hide Put, PutFields, Slice, Le, HeaderFields, HeaderAt, FactorsAt;
    var zeros: seq<byte> := seq(total, _ => 0);
    PutsHeader(zeros, st);
    blob := PutFields(zeros, HeaderFields(st));
    forall p | 0 <= p < |st.slots|
      ensures FieldAt(blob, SlotTable(st) + 4 * p, 0, 4)
    {
      ZeroField(zeros, SlotTable(st) + 4 * p);
      FieldsElsewhere(zeros, HeaderFields(st), HEADER, SlotTable(st) + 4 * p, 4);
    }
    blob := WriteFactors(blob, st);
  }

  /** The entries a caller may hand over: eight-byte keys, and a blob below 4 GiB at worst. */
  ghost predicate Buildable(entries: seq<Entry>) {
    && (forall i :: 0 <= i < |entries| ==> entries[i].key < U64)
    && HEADER + 8 * BucketCount(|entries|) + Align8(4 * |entries|) + 8 + Weight(entries, SIDE_ENTRY, true) < U32
  }

  lemma {:induction false} WeightSplits(entries: seq<Entry>, extra: nat)
    ensures Weight(entries, extra, true) == extra * |entries| + Weight(entries, 0, true)
  {
    if entries != [] { WeightSplits(entries[1..], extra); }
  }

  lemma EntryIsMultiple(body: seq<byte>)
    ensures EntrySize(body) % 8 == 0
  {
  }

  lemma {:induction false} WeightGrows(entries: seq<Entry>, extra: nat, empties: bool)
    ensures Weight(entries, 0, empties) <= Weight(entries, extra, empties) && Weight(entries, 0, empties) % 8 == 0
  {
    hide EntrySize;
    if entries != [] {
      WeightGrows(entries[1..], extra, empties);
      EntryIsMultiple(entries[0].body);
      SumOfMultiples(EntrySize(entries[0].body), Weight(entries[1..], 0, empties));
    }
  }

  lemma SideKeys(entries: seq<Entry>, unique: seq<Entry>, side: seq<Entry>)
    requires Gathered(entries, unique, side) && forall i :: 0 <= i < |entries| ==> entries[i].key < U64
    ensures forall j :: 0 <= j < |side| ==> side[j].key < U64
  {
    forall j | 0 <= j < |side|
      ensures side[j].key < U64
    {
      assert side[j] in side;
      var i :| 0 <= i < |entries| && entries[i] == side[j];
    }
  }

  lemma FewerKeysFit(m: nat, n: nat)
    requires m <= n
    ensures BucketCount(m) <= BucketCount(n) && Align8(4 * m) <= Align8(4 * n)
  {
    assert (m + LAMBDA - 1) / LAMBDA <= (n + LAMBDA - 1) / LAMBDA;
    assert (4 * m + 7) / 8 <= (4 * n + 7) / 8;
  }

  lemma GatheredWeight(entries: seq<Entry>, unique: seq<Entry>, side: seq<Entry>, extra: nat)
    requires Gathered(entries, unique, side)
    ensures |unique| <= |entries| && Weight(unique, extra, false) + Weight(side, extra, true) <= Weight(entries, extra, true)
  {
  }

  /** Sorting the entries out into slots and sidecar keeps the blob within the worst case. */
  lemma SizeFits(entries: seq<Entry>, unique: seq<Entry>, side: seq<Entry>)
    requires Gathered(entries, unique, side) && Buildable(entries)
    ensures (Weight(unique, 0, false) + Weight(side, 0, true)) % 8 == 0
    ensures HEADER + 8 * BucketCount(|unique|) + Align8(4 * |unique|) + SIDE_ENTRY * |side| + 8 + Weight(unique, 0, false) + Weight(side, 0, true) < U32
  {
    hide Gathered, Weight, BucketCount, Align8;
    GatheredWeight(entries, unique, side, SIDE_ENTRY);
    FewerKeysFit(|unique|, |entries|);
    WeightSplits(side, SIDE_ENTRY);
    WeightGrows(unique, SIDE_ENTRY, false);
    WeightGrows(side, SIDE_ENTRY, true);
    SumOfMultiples(Weight(unique, 0, false), Weight(side, 0, true));
  }

  lemma StartsEmpty(mix: nat -> nat, st: Store)
    requires Solved(mix, st.keys, st.sol) && |st.placed| == |st.slots| == |st.keys|
    requires forall p :: 0 <= p < |st.slots| ==> st.slots[p] == 0
    requires forall i :: 0 <= i < |st.keys| && i in st.sol.spilled ==> st.placed[i] == []
    ensures Filled(st, 0) && OwnSlots(st)
  {
    hide IndexOf;
  }

  lemma SortedPoints(st: Store, sides: seq<Side>, side: seq<Entry>, sorted: seq<Side>)
    requires Points(st, sides, side) && multiset(sorted) == multiset(sides)
    ensures |sorted| == |sides|
    ensures forall c :: 0 <= c < |sorted| ==>
      0 < sorted[c].offset < U32 && sorted[c].offset in st.bodies && Entry(sorted[c].key, st.bodies[sorted[c].offset]) in side
    ensures |sides| == |side| ==> forall e :: e in side ==> exists c: nat :: InSidecar(st.(side := sorted), e, c)
  {
    assert |sorted| == |multiset(sorted)|;
    forall c | 0 <= c < |sorted|
      ensures 0 < sorted[c].offset < U32 && sorted[c].offset in st.bodies && Entry(sorted[c].key, st.bodies[sorted[c].offset]) in side
    {
      assert sorted[c] in multiset(sides);
      var j :| 0 <= j < |sides| && sides[j] == sorted[c];
      assert side[j] in side;
    }
    if |sides| == |side| {
      forall e | e in side
        ensures exists c: nat :: InSidecar(st.(side := sorted), e, c)
      {
        var j :| 0 <= j < |side| && side[j] == e;
        assert sides[j] in multiset(sorted);
        var c :| 0 <= c < |sorted| && sorted[c] == sides[j];
        assert InSidecar(st.(side := sorted), e, c);
      }
    }
  }

  lemma BuiltIsSound(mix: nat -> nat, entries: seq<Entry>, unique: seq<Entry>, side: seq<Entry>, st: Store, sides: seq<Side>)
    requires Gathered(entries, unique, side) && Solved(mix, st.keys, st.sol) && Filled(st, |st.keys|)
    requires st.keys == Keys(unique) && st.placed == PlacedBodies(unique)
    requires forall i :: 0 <= i < |st.keys| && i in st.sol.spilled ==> st.placed[i] == []
    requires Points(st, sides, side) && |sides| == |side| && multiset(st.side) == multiset(sides) && Sorted(st.side)
    ensures Sound(mix, entries, st)
  {
    hide IndexOf;
    SortedPoints(st, sides, side, st.side);
    assert st.(side := st.side) == st;
    forall i | 0 <= i < |st.keys| && st.placed[i] != []
      ensures Entry(st.keys[i], st.placed[i]) in entries
    {
      assert unique[i] in unique && unique[i] == Entry(st.keys[i], st.placed[i]);
    }
    forall p | 0 <= p < |st.slots| && st.slots[p] != 0
      ensures exists i: nat :: Placed(st, i, p)
    {
      var i: nat :| i < |st.keys| && Placed(st, i, p);
    }
    forall e | e in entries
      ensures exists i: nat :: Holds(st, e, i)
    {
      if e in unique {
        var i :| 0 <= i < |unique| && unique[i] == e;
        assert Holds(st, e, i);
      } else {
        var i :| 0 <= i < |unique| && unique[i] == Entry(e.key, []);
        assert Holds(st, e, i);
      }
    }
  }

  /** The solution spilled nothing that still has a body, and its tables fit their fields. */
  ghost predicate Arranged(mix: nat -> nat, entries: seq<Entry>, unique: seq<Entry>, side: seq<Entry>, sol: Solution) {
    && Gathered(entries, unique, side) && Solved(mix, Keys(unique), sol) && sol.nBuckets == BucketCount(|unique|)
    && (forall i :: 0 <= i < |unique| && i in sol.spilled ==> unique[i].body == [])
    && Accounted(entries, unique, side, KeysAt(Keys(unique), sol.spilled))
  }

  /** The solution is the one its solver chooses, and with the co-spill it leaves the sidecar's slots free. */
  ghost predicate SolvedAs(mix: nat -> nat, keys: seq<nat>, sol: Solution, coSpill: bool)
    requires Solved(mix, keys, sol)
  {
    && (keys != [] ==> if coSpill then ChosenCoSpilled(mix, keys, sol) else Chosen(mix, keys, sol))
    && (coSpill ==> SidecarClear(keys, sol))
  }

  /** Which entries go to slots and which to the sidecar. */
  method Arrange(mix: nat -> nat, entries: seq<Entry>, coSpill: bool)
    returns (unique: seq<Entry>, side: seq<Entry>, sol: Solution)
    ensures Arranged(mix, entries, unique, side, sol) && SolvedAs(mix, Keys(unique), sol, coSpill)
  {
    hide Gathered, IndexOf, BucketCount, SidecarClear, SpilledFromZero, Chosen, ChosenCoSpilled, Accounted, KeysAt;
    unique, side := Gather(entries);
    var keys := Keys(unique);
    var solved;
    if coSpill {
      solved := ChdSolveCoSpilling(mix, keys);
    } else {
      solved := ChdSolve(mix, keys);
    }
    sol := solved.value;
    assert forall j :: 0 <= j < |sol.spilled| ==> sol.spilled[j] in sol.spilled;
    unique, side := RouteSpilled(entries, unique, side, sol.spilled);
    forall i | 0 <= i < |unique| && i in sol.spilled
      ensures unique[i].body == []
    {
      var j :| 0 <= j < |sol.spilled| && sol.spilled[j] == i;
    }
  }

  /** The layout before any body is written. */
  function Layout(unique: seq<Entry>, side: seq<Entry>, sol: Solution, magic: nat, dataSize: nat): Store {
    Store(sol, Keys(unique), PlacedBodies(unique), seq(|unique|, _ => 0), seq(|side|, _ => Side(0, 0)), map[], magic, dataSize)
  }

  lemma LayoutFits(mix: nat -> nat, entries: seq<Entry>, unique: seq<Entry>, side: seq<Entry>, sol: Solution, magic: nat, dataSize: nat)
    requires Buildable(entries) && Arranged(mix, entries, unique, side, sol)
    ensures var st := Layout(unique, side, sol, magic, dataSize); Filled(st, 0) && OwnSlots(st)
    ensures |sol.factors| == sol.nBuckets && forall b :: 0 <= b < |sol.factors| ==> sol.factors[b] < U64
    ensures dataSize == 8 + Weight(unique, 0, false) + Weight(side, 0, true) ==>
            dataSize % 8 == 0 && Data(Layout(unique, side, sol, magic, dataSize)) + dataSize < U32
  {
    hide Gathered, Weight, BucketCount, IndexOf, Align8, Buildable;
    SizeFits(entries, unique, side);
    StartsEmpty(mix, Layout(unique, side, sol, magic, dataSize));
  }

  lemma Finished(mix: nat -> nat, blob: seq<byte>, st: Store)
    requires |blob| < U32 && Solved(mix, st.keys, st.sol) && |st.slots| == |st.keys| && Data(st) <= |blob|
    requires HeaderAt(blob, st) && FactorsAt(blob, st, |st.sol.factors|) && SlotsAt(blob, st) && BodiesAt(blob, st)
    requires SidesAt(blob, st, |st.side|)
    ensures Represents(blob, st)
  {
    hide IndexOf, HeaderAt, FactorsAt, SlotsAt, BodiesAt, SidesAt;
  }

  lemma WithSides(blob: seq<byte>, st: Store, cur: nat, sorted: seq<Side>)
    requires Writing(blob, st, cur) && |sorted| == |st.side|
    ensures var st' := st.(side := sorted);
            && HeaderAt(blob, st') && FactorsAt(blob, st', |st'.sol.factors|) && SlotsAt(blob, st') && BodiesAt(blob, st')
            && Data(st') <= |blob| < U32 && |st'.slots| == |st'.keys|
            && (forall i: nat :: Filled(st, i) ==> Filled(st', i))
            && (forall sides, side :: Points(st, sides, side) ==> Points(st', sides, side))
  {
    hide HeaderAt, FactorsAt, SlotsAt, BodiesAt;
    var st' := st.(side := sorted);
    SameTables(blob, st, st');
    forall i: nat | Filled(st, i)
      ensures Filled(st', i)
    {
      forall p | 0 <= p < |st'.slots| && st'.slots[p] != 0
        ensures exists j: nat :: j < i && Placed(st', j, p)
      {
        var j: nat :| j < i && Placed(st, j, p);
        assert Placed(st', j, p);
      }
    }
  }

  /** The bytes of an arrangement. */
  method WriteBlob(mix: nat -> nat, magic: nat, ghost entries: seq<Entry>, unique: seq<Entry>, side: seq<Entry>, sol: Solution)
    returns (blob: seq<byte>, ghost st: Store)
    requires Buildable(entries) && Arranged(mix, entries, unique, side, sol)
    ensures Represents(blob, st) && Sound(mix, entries, st)
    ensures st.keys == Keys(unique) && st.sol == sol && st.placed == PlacedBodies(unique)
    ensures st.magic == magic && Data(st) + st.dataSize == |blob|
  {
    hide Gathered, Buildable, Solved, Writing, Filled, OwnSlots, Points, Sorted, Weight, Align8, BucketCount;
    hide HeaderAt, FactorsAt, SlotsAt, SidesAt, BodiesAt, Sound, Represents;
    var dataSize := 8 + Weight(unique, 0, false) + Weight(side, 0, true);
    var layout := Layout(unique, side, sol, magic, dataSize);
    LayoutFits(mix, entries, unique, side, sol, magic, dataSize);
    var sideTable := HEADER + 8 * |sol.factors| + Align8(4 * |unique|);
    var data := sideTable + SIDE_ENTRY * |side|;
    blob := StartBlob(layout, data + dataSize);
    var cur;
    blob, cur, st := WritePlaced(blob, layout, unique, dataSize);
    var sides;
    ghost var end;
    blob, sides, st, end := WriteSideBodies(blob, cur, st, side, data);
    var sorted := SortSides(sides);
    SortedPoints(st, sides, side, sorted);
    WithSides(blob, st, end, sorted);
    SidesFit(st, entries, unique, side, sorted);
    st := st.(side := sorted);
    blob := WriteSides(blob, st, sorted, sideTable);
    Finished(mix, blob, st);
    BuiltIsSound(mix, entries, unique, side, st, sides);
  }

  lemma SidesFit(st: Store, entries: seq<Entry>, unique: seq<Entry>, side: seq<Entry>, sorted: seq<Side>)
    requires Buildable(entries) && Gathered(entries, unique, side)
    requires forall c :: 0 <= c < |sorted| ==>
      0 < sorted[c].offset < U32 && sorted[c].offset in st.bodies && Entry(sorted[c].key, st.bodies[sorted[c].offset]) in side
    ensures forall c :: 0 <= c < |sorted| ==> sorted[c].key < U64 && sorted[c].offset < U32
  {
    hide Gathered, Weight;
    SideKeys(entries, unique, side);
    forall c | 0 <= c < |sorted|
      ensures sorted[c].key < U64
    {
      assert Entry(sorted[c].key, st.bodies[sorted[c].offset]) in side;
      var j :| 0 <= j < |side| && side[j] == Entry(sorted[c].key, st.bodies[sorted[c].offset]);
    }
  }

  /**
    The blob of a list of entries, with the host's solver or, co-spilling, the C++ builder's: a
    representation of a store that holds exactly the entries.
    */
  method BuildMphf(mix: nat -> nat, magic: nat, entries: seq<Entry>, coSpill: bool) returns (blob: seq<byte>, ghost st: Store)
    requires Buildable(entries)
    ensures Represents(blob, st) && Sound(mix, entries, st)
    ensures AscendingKeys(st.keys) && |st.keys| <= |entries|
    ensures SolvedAs(mix, st.keys, st.sol, coSpill) && PlacesLone(entries, st)
    ensures st.magic == magic && Data(st) + st.dataSize == |blob|
  {
    hide Weight, Align8, BucketCount, Represents, Sound, SolvedAs, Arranged;
    var unique, side, sol := Arrange(mix, entries, coSpill);
    KeysAscend(mix, entries, unique, side, sol);
    LoneArePlaced(mix, entries, unique, side, sol);
    blob, st := WriteBlob(mix, magic, entries, unique, side, sol);
  }

  /** The body of a key that neither repeats nor spills is placed. */
  ghost predicate PlacesLone(entries: seq<Entry>, st: Store) {
    |st.placed| == |st.keys| && forall i, k ::
      0 <= i < |entries| && 0 <= k < |st.keys| && st.keys[k] == entries[i].key && !Repeats(entries, entries[i].key) && k !in st.sol.spilled
      ==> st.placed[k] == entries[i].body
  }

  lemma LoneArePlaced(mix: nat -> nat, entries: seq<Entry>, unique: seq<Entry>, side: seq<Entry>, sol: Solution)
    requires Arranged(mix, entries, unique, side, sol)
    ensures forall st: Store {:trigger PlacesLone(entries, st)} ::
      st.keys == Keys(unique) && st.placed == PlacedBodies(unique) && st.sol == sol ==> PlacesLone(entries, st)
  {
    hide Solved, Repeats, HasKey;
    forall i, k | 0 <= i < |entries| && 0 <= k < |unique| && !Repeats(entries, entries[i].key)
                  && unique[k].key == entries[i].key && k !in sol.spilled
      ensures unique[k].body == entries[i].body
    {
      assert entries[i] in entries;
      forall x | x in sol.spilled && x < |unique|
        ensures unique[x].key != entries[i].key
      {
        assert x != k;
      }
      assert entries[i] !in side;
      var j :| 0 <= j < |unique| && unique[j] == entries[i];
      assert j == k;
    }
  }

  lemma KeysAscend(mix: nat -> nat, entries: seq<Entry>, unique: seq<Entry>, side: seq<Entry>, sol: Solution)
    requires Arranged(mix, entries, unique, side, sol)
    ensures AscendingKeys(Keys(unique)) && |unique| <= |entries|
  {
  }

  ghost predicate HasAddress(e: Entry, addr: seq<byte>) {
    |e.body| >= 20 && e.body[..20] == addr
  }

  /** The offset, relative to the data section the header names, at which a body is stored. */
  ghost predicate Stores(blob: seq<byte>, off: nat, body: seq<byte>) {
    |blob| >= HEADER && off != 0 && BodyAt(blob, ReadU32(blob, 48) + off, body)
  }

  lemma AnswersStore(blob: seq<byte>, entries: seq<Entry>, st: Store, addr: seq<byte>, off: nat)
    requires Represents(blob, st) && Answers(entries, st, addr, off)
    ensures forall i :: 0 <= i < |entries| && HasAddress(entries[i], addr) ==> Stores(blob, off, entries[i].body)
    ensures (forall i :: 0 <= i < |entries| ==> !HasAddress(entries[i], addr)) <==> off == 0
  {
    hide Slice, Le;
    ReadsField4(blob, 48, Data(st));
    if off != 0 {
      var i :| 0 <= i < |entries| && |entries[i].body| >= ADDRESS && entries[i].body[..ADDRESS] == addr;
      assert HasAddress(entries[i], addr);
    }
    forall i | 0 <= i < |entries| && HasAddress(entries[i], addr)
      ensures off != 0 && Stores(blob, off, entries[i].body)
    {
    }
  }

  /**
    The whole round trip, from account bodies to bytes and back: the host's lookup of any address
    gives a non-zero offset holding exactly that account's body, or zero when the address is not
    in the list. On a co-spilled blob the guest's lookup gives the same.
    */
  method BuildThenLookUp(mix: nat -> nat, magic: nat, accounts: seq<Entry>, addr: seq<byte>, coSpill: bool)
    returns (blob: seq<byte>, off: nat, found: Option<nat>)
    requires Accounts(accounts) && Buildable(accounts) && |addr| == 20
    ensures forall i :: 0 <= i < |accounts| && HasAddress(accounts[i], addr) ==> Stores(blob, off, accounts[i].body)
    ensures (forall i :: 0 <= i < |accounts| ==> !HasAddress(accounts[i], addr)) ==> off == 0 && found.None?
    ensures forall i :: 0 <= i < |accounts| && HasAddress(accounts[i], addr) && coSpill ==>
      found.Some? && Stores(blob, found.value, accounts[i].body)
  {
    hide Buildable, Represents, Sound, SidecarClear, Answers, Stores, Shadowed, Chosen, ChosenCoSpilled;
    ghost var st;
    blob, st := BuildMphf(mix, magic, accounts, coSpill);
    off := AddrLookup(mix, blob, addr, accounts, st);
    AnswersStore(blob, accounts, st, addr, off);
    found := GuestFind(mix, blob, addr, accounts, st);
    if found.Some? { AnswersStore(blob, accounts, st, addr, found.value); }
    forall i | 0 <= i < |accounts| && HasAddress(accounts[i], addr) && coSpill
      ensures found.Some?
    {
      var k := KeyOf(mix, accounts, st, i);
      ClearSidecarShadowsNobody(mix, accounts, st, k);
    }
  }

  lemma KeyOf(mix: nat -> nat, entries: seq<Entry>, st: Store, i: nat) returns (k: nat)
    requires Sound(mix, entries, st) && i < |entries|
    ensures k < |st.keys| && st.keys[k] == entries[i].key
  {
    hide IndexOf;
    assert entries[i] in entries;
    k :| Holds(st, entries[i], k);
  }

  // ---------- A listed account the guest misses ----------

  /** The account whose address is `i` and nineteen zero bytes, and holds nothing else. */
  function Tiny(i: byte): (e: Entry)
    ensures |e.body| == ADDRESS && e.body[0] == i && e.key == i as nat
  {
    Entry(i as nat, [i] + seq(ADDRESS - 1, _ => 0))
  }

  function FiveAccounts(): (accounts: seq<Entry>)
    ensures |accounts| == 5 && forall i :: 0 <= i < 5 ==> accounts[i] == Tiny(i as byte)
  {
    [Tiny(0), Tiny(1), Tiny(2), Tiny(3), Tiny(4)]
  }

  lemma TinyIsAccount(i: byte)
    ensures IsAccount(Tiny(i))
  {
    var addr := Tiny(i).body;
    assert addr[..ADDRESS] == addr;
    assert addr[..7] + [addr[19]] == [i] + seq(7, _ => 0);
    ZeroTail(i, 7);
  }

  lemma {:induction false} ZerosAreZero(n: nat)
    ensures FromLe(seq(n, _ => 0)) == 0
  {
    if n > 0 {
      var s: seq<byte> := seq(n, _ => 0);
      assert s[1..] == seq(n - 1, _ => 0);
      ZerosAreZero(n - 1);
    }
  }

  lemma ZeroTail(i: byte, n: nat)
    ensures FromLe([i] + seq(n, _ => 0)) == i as nat
  {
    var s: seq<byte> := [i] + seq(n, _ => 0);
    assert s[1..] == seq(n, _ => 0);
    ZerosAreZero(n);
  }

  lemma FiveAreFine()
    ensures Accounts(FiveAccounts()) && Buildable(FiveAccounts())
  {
    hide FiveAccounts, AddrKey8, Weight, Tiny;
    var accounts := FiveAccounts();
    forall i | 0 <= i < 5
      ensures IsAccount(accounts[i]) && accounts[i].body[..ADDRESS] == accounts[i].body
    {
      TinyIsAccount(i as byte);
      assert accounts[i].body[..ADDRESS] == accounts[i].body;
    }
    forall i, j | 0 <= i < j < 5
      ensures accounts[i].body != accounts[j].body
    {
      assert accounts[i].body[0] != accounts[j].body[0];
    }
    FiveWeigh(accounts);
  }

  lemma {:induction false} FiveWeigh(entries: seq<Entry>)
    requires forall i :: 0 <= i < |entries| ==> |entries[i].body| == ADDRESS
    ensures Weight(entries, SIDE_ENTRY, true) == 48 * |entries|
  {
    if entries != [] { FiveWeigh(entries[1..]); }
  }

  /** Distinct keys in ascending order, no more of them than accounts: the five keys. */
  lemma FiveKeysStored(st: Store)
    requires Sound(Skewed, FiveAccounts(), st) && AscendingKeys(st.keys) && |st.keys| <= 5
    ensures st.keys == FIVE_KEYS
  {
    hide FastMod, Solved;
    forall i: nat | i < 5
      ensures i in st.keys
    {
      assert FiveAccounts()[i] in FiveAccounts();
      var k: nat :| Holds(st, FiveAccounts()[i], k);
    }
    FirstFive(st.keys);
  }

  lemma FirstFive(keys: seq<nat>)
    requires AscendingKeys(keys) && |keys| <= 5 && forall i: nat :: i < 5 ==> i in keys
    ensures keys == FIVE_KEYS
  {
    assert 0 in keys && 1 in keys && 2 in keys && 3 in keys && 4 in keys;
    var k0: nat :| k0 < |keys| && keys[k0] == 0;
    var k1: nat :| k1 < |keys| && keys[k1] == 1;
    var k2: nat :| k2 < |keys| && keys[k2] == 2;
    var k3: nat :| k3 < |keys| && keys[k3] == 3;
    var k4: nat :| k4 < |keys| && keys[k4] == 4;
    assert k0 < k1 < k2 < k3 < k4;
  }

  /** In every store the host builds of the five accounts the first one's body fills the slot the second probes. */
  lemma SecondIsShadowed(st: Store)
    requires Sound(Skewed, FiveAccounts(), st) && AscendingKeys(st.keys) && |st.keys| <= 5
    requires SolvedAs(Skewed, st.keys, st.sol, false) && PlacesLone(FiveAccounts(), st)
    ensures |st.keys| == 5 && st.keys[1] == 1 && Shadowed(st, 1)
  {
    hide FastMod, Solved, Chosen;
    FiveKeysStored(st);
    SpilledSlotsMayBeOwned(st.sol);
    assert st.placed[0] == FiveAccounts()[0].body;
    assert st.sol.spilled[0] == 1 && st.placed[1] == [] && Placed(st, 0, st.sol.idx[1]);
  }

  /**
    The host's blob of the five accounts, under a mixer that is not the source's: the guest misses
    an account that is listed and that the host finds.
    */
  method BuildThenMiss(magic: nat) returns (blob: seq<byte>, off: nat, found: Option<nat>)
    ensures Stores(blob, off, FiveAccounts()[1].body) && found.None?
  {
    hide Buildable, Represents, Sound, Answers, Stores, Shadowed, Chosen, Accounts;
    FiveAreFine();
    var accounts := FiveAccounts();
    var addr := accounts[1].body[..ADDRESS];
    ghost var st;
    blob, st := BuildMphf(Skewed, magic, accounts, false);
    off := AddrLookup(Skewed, blob, addr, accounts, st);
    AnswersStore(blob, accounts, st, addr, off);
    assert HasAddress(accounts[1], addr);
    found := GuestFind(Skewed, blob, addr, accounts, st);
    SecondIsShadowed(st);
  }
}
