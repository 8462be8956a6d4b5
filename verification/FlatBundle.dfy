/**
  Flat bundles: the layout both sides read (`load_flat_bundle` of
  zilk_core/core/types_zz/flat_bundle.cpp on the guest, `add_bundle_blocks` of
  prover/prover_airbender/src/public_output.rs on the host).
  */
module FlatBundle {
  import opened Basics
  import opened Bytes
  import opened Rlp

  const BUNDLE_MAGIC: nat := 0x444E_4246
  const BUNDLE_VERSION: nat := 14
  const BUNDLE_HEADER: nat := 56
  const SECTIONS: nat := 6
  const BLOCKS: nat := 1
  const DIRECT_STATE: nat := 3

  const ENGINE_HEAD: nat := 40

  predicate ExpectInvalid(flag: byte) { flag % 2 == 1 }
  predicate HasEngineRecord(flag: byte) { flag / 2 % 2 == 1 }

  // ---------- Sections ----------

  datatype Section = Section(off: nat, size: nat) {
    function End(): nat { off + size }
  }

  function SectionAt(b: seq<byte>, k: nat): Section
    requires |b| >= BUNDLE_HEADER && k < SECTIONS
  {
    Section(ReadU32(b, 8 + 8 * k), ReadU32(b, 12 + 8 * k))
  }

  predicate InRange(b: seq<byte>)
    requires |b| >= BUNDLE_HEADER
  {
    forall k :: 0 <= k < SECTIONS ==> SectionAt(b, k).End() <= |b|
  }

  /** The end of the last of the first `k` sections, past the header at least. */
  function EndOf(b: seq<byte>, k: nat): (e: nat)
    requires |b| >= BUNDLE_HEADER && k <= SECTIONS
    ensures e >= BUNDLE_HEADER
    ensures InRange(b) ==> e <= |b|
  {
    if k == 0 then BUNDLE_HEADER
    else
      var e := EndOf(b, k - 1);
      if SectionAt(b, k - 1).End() > e then SectionAt(b, k - 1).End() else e
  }

  // ---------- Blocks ----------

  function ReadItem(host: bool, view: seq<byte>): (r: Option<Item>)
    ensures r.Some? ==> 0 < r.value.Len() <= |view|
  {
    if host then HostItem(view) else GuestItem(view)
  }

  datatype Blocks = Blocks(items: seq<seq<byte>>, next: nat)

  /** `n` list items from `cursor` on, each aligned to eight bytes. */
  function ParseBlocks(host: bool, section: seq<byte>, cursor: nat, n: nat): (r: Option<Blocks>)
    ensures r.Some? ==> |r.value.items| == n && r.value.next >= cursor
    decreases n
  {
    if n == 0 then Some(Blocks([], cursor))
    else if cursor >= |section| then None
    else match ReadItem(host, section[cursor..])
      case None => None
      case Some(it) =>
        if !it.list then None
        else match ParseBlocks(host, section, Align8(cursor + it.Len()), n - 1)
          case None => None
          case Some(rest) => Some(Blocks([section[cursor..cursor + it.Len()]] + rest.items, rest.next))
  }

  /** The trailing flag bytes, one for each block, when the section still has room for them. */
  function FlagsOf(section: seq<byte>, blocks: Blocks): (flags: seq<byte>)
    ensures |flags| == 0 || |flags| == |blocks.items|
  {
    var n := |blocks.items|;
    if n > 0 && blocks.next + n <= |section| then section[blocks.next..blocks.next + n] else []
  }

  /** A claimed count in the reader's size type. */
  function Counted(claimed: nat, sizes: nat): nat
    requires sizes > 0
  {
    claimed % sizes
  }

  lemma CountedWhole(claimed: nat, sizes: nat)
    requires claimed < sizes
    ensures Counted(claimed, sizes) == claimed
  {
  }

  datatype Bundle = Bundle(size: nat, blocks: seq<seq<byte>>, flags: seq<byte>)

  /** The part of a bundle both sides read. `sizes` is one more than the largest size the reader can count to. */
  function ParseBundle(host: bool, b: seq<byte>, sizes: nat): (r: Option<Bundle>)
    requires sizes > 0
    ensures r.Some? ==> BUNDLE_HEADER <= r.value.size <= |b| && |r.value.flags| <= |r.value.blocks|
  {
    if |b| < BUNDLE_HEADER || ReadU32(b, 0) != BUNDLE_MAGIC || ReadU32(b, 4) != BUNDLE_VERSION || !InRange(b) then None
    else
      var s := SectionAt(b, BLOCKS);
      if s.size < 8 then None
      else
        var section := b[..s.End()];
        match ParseBlocks(host, section, s.off + 8, Counted(ReadU64(section, s.off), sizes))
        case None => None
        case Some(blocks) => Some(Bundle(EndOf(b, SECTIONS), blocks.items, FlagsOf(section, blocks)))
  }

  /** The block count a bundle claims. */
  function ClaimedBlocks(b: seq<byte>): nat
    requires |b| >= BUNDLE_HEADER && InRange(b) && SectionAt(b, BLOCKS).size >= 8
  {
    ReadU64(b, SectionAt(b, BLOCKS).off)
  }

  // ---------- Agreement ----------

  /** The blocks the guest gets, the host gets. */
  lemma {:induction false} HostParsesGuestBlocks(section: seq<byte>, cursor: nat, n: nat)
    requires |section| < U32 && ParseBlocks(false, section, cursor, n).Some?
    ensures ParseBlocks(true, section, cursor, n) == ParseBlocks(false, section, cursor, n)
    decreases n
  {
    hide GuestItem, HostItem;
    if n > 0 {
      var view := section[cursor..];
      HostReadsGuestItems(view);
      var it := GuestItem(view).value;
      HostParsesGuestBlocks(section, Align8(cursor + it.Len()), n - 1);
    }
  }

  /** A section holds fewer blocks than bytes. */
  lemma {:induction false} BlocksFit(host: bool, section: seq<byte>, cursor: nat, n: nat)
    requires ParseBlocks(host, section, cursor, n).Some?
    ensures n == 0 || cursor + n <= |section|
    decreases n
  {
    hide ReadItem;
    if n > 0 {
      var it := ReadItem(host, section[cursor..]).value;
      BlocksFit(host, section, Align8(cursor + it.Len()), n - 1);
    }
  }

  /** Blocks are parts of their section. */
  lemma {:induction false} BlockSizes(host: bool, section: seq<byte>, cursor: nat, n: nat)
    requires ParseBlocks(host, section, cursor, n).Some?
    ensures forall i :: 0 <= i < n ==> cursor + |ParseBlocks(host, section, cursor, n).value.items[i]| <= |section|
    decreases n
  {
    hide ReadItem;
    if n > 0 {
      var it := ReadItem(host, section[cursor..]).value;
      BlockSizes(host, section, Align8(cursor + it.Len()), n - 1);
    }
  }

  lemma FieldBelow(b: seq<byte>, at: nat)
    requires at + 4 <= |b|
    ensures ReadU32(b, at) < U32
  {
    PowersOfWidths();
  }

  /** Blocks are shorter than their section, whose size is a 32-bit field. */
  lemma BundleBlockSizes(host: bool, b: seq<byte>, sizes: nat)
    requires sizes > 0 && ParseBundle(host, b, sizes).Some?
    ensures forall i :: 0 <= i < |ParseBundle(host, b, sizes).value.blocks| ==>
      |ParseBundle(host, b, sizes).value.blocks[i]| < SectionAt(b, BLOCKS).size < U32
  {
    hide ParseBlocks, FlagsOf, ReadU32, ReadU64, Counted, EndOf;
    var s := SectionAt(b, BLOCKS);
    var section := b[..s.End()];
    BlockSizes(host, section, s.off + 8, Counted(ReadU64(section, s.off), sizes));
    FieldBelow(b, 12 + 8 * BLOCKS);
  }

  /** On a bundle the guest loads, the host reads the same bundle exactly if the guest counted every claimed block. */
  lemma HostParsesGuestBundle(b: seq<byte>, sizes: nat)
    requires |b| < U32 <= sizes <= U64 && ParseBundle(false, b, sizes).Some?
    ensures ClaimedBlocks(b) < sizes ==> ParseBundle(true, b, U64) == ParseBundle(false, b, sizes)
    ensures ClaimedBlocks(b) >= sizes ==> ParseBundle(true, b, U64).None?
  {
    hide ParseBlocks, FlagsOf, Align8, FromLe, Counted, InRange, EndOf;
    var s := SectionAt(b, BLOCKS);
    assert s.End() <= |b| by { SectionInRange(b, BLOCKS); }
    var section := b[..s.End()];
    assert Slice(section, s.off, 8) == Slice(b, s.off, 8);
    var claimed := ClaimedBlocks(b);
    assert claimed < U64 by { PowersOfWidths(); }
    CountedWhole(claimed, U64);
    if claimed < sizes {
      CountedWhole(claimed, sizes);
      HostParsesGuestBlocks(section, s.off + 8, claimed);
    } else if ParseBlocks(true, section, s.off + 8, claimed).Some? {
      BlocksFit(true, section, s.off + 8, claimed);
      assert false;
    }
  }

  lemma SectionInRange(b: seq<byte>, k: nat)
    requires |b| >= BUNDLE_HEADER && InRange(b) && k < SECTIONS
    ensures SectionAt(b, k).End() <= |b|
  {
  }

  // ---------- The guest's loader ----------

  datatype EngineRecord = EngineRecord(blockHash: seq<byte>, versionedHashes: seq<byte>)

  ghost function Concat(hashes: seq<seq<byte>>): seq<byte> {
    if hashes == [] then [] else hashes[0] + Concat(hashes[1..])
  }

  datatype Loaded = Loaded(bundle: Bundle, engines: seq<Option<EngineRecord>>)

  /** Two sections that are not empty share no byte. */
  predicate Apart(a: Section, b: Section) {
    a.size == 0 || b.size == 0 || a.End() <= b.off || b.End() <= a.off
  }

  predicate Disjoint(b: seq<byte>)
    requires |b| >= BUNDLE_HEADER
  {
    forall i, j :: 0 <= i < j < SECTIONS ==> Apart(SectionAt(b, i), SectionAt(b, j))
  }

  /** The record of each flagged block, one after another from `pos`. */
  function ParseEngines(section: seq<byte>, flags: seq<byte>, pos: nat): (r: Option<seq<Option<EngineRecord>>>)
    ensures r.Some? ==> |r.value| == |flags|
    decreases |flags|
  {
    if flags == [] then Some([])
    else if !HasEngineRecord(flags[0]) then Behind([None], ParseEngines(section, flags[1..], pos))
    else if pos > |section| || |section| - pos < ENGINE_HEAD then None
    else
      var n := ReadU64(section, pos + 32);
      var at := pos + ENGINE_HEAD;
      if n > (|section| - at) / 32 then None
      else Behind([Some(EngineRecord(section[pos..pos + 32], section[at..at + 32 * n]))],
                  ParseEngines(section, flags[1..], at + 32 * n))
  }

  function Behind<T>(done: seq<T>, rest: Option<seq<T>>): Option<seq<T>> {
    if rest.None? then None else Some(done + rest.value)
  }

  function EnginesOf(section: seq<byte>, blocks: Blocks, flags: seq<byte>): Option<seq<Option<EngineRecord>>> {
    if exists i :: 0 <= i < |flags| && HasEngineRecord(flags[i])
    then ParseEngines(section, flags, Align8(blocks.next + |flags|))
    else Some([])
  }

  /** A record is read exactly for the blocks whose flag has its second bit. */
  lemma {:induction false} RecordsWhere(section: seq<byte>, flags: seq<byte>, pos: nat, i: nat)
    requires ParseEngines(section, flags, pos).Some? && i < |flags|
    ensures ParseEngines(section, flags, pos).value[i].Some? <==> HasEngineRecord(flags[i])
    decreases i
  {
    hide ReadU64;
    if i > 0 {
      var next := if !HasEngineRecord(flags[0]) then pos else pos + ENGINE_HEAD + 32 * ReadU64(section, pos + 32);
      RecordsWhere(section, flags[1..], next, i - 1);
    }
  }

  lemma LoadedRecords(b: seq<byte>, sizes: nat, d: Decoders)
    requires sizes > 0 && Load(b, sizes, d).Some?
    ensures var r := Load(b, sizes, d).value;
            forall i :: 0 <= i < |r.engines| && i < |r.bundle.flags| ==> (r.engines[i].Some? <==> HasEngineRecord(r.bundle.flags[i]))
  {
    hide ParseBlocks, Structured, Accepts, HasEngineRecord, ParseEngines, Counted, ReadU64, ReadU32, FlagsOf, EndOf;
    var r := Load(b, sizes, d).value;
    forall i | 0 <= i < |r.engines| && i < |r.bundle.flags|
      ensures r.engines[i].Some? <==> HasEngineRecord(r.bundle.flags[i])
    {
      var s := SectionAt(b, BLOCKS);
      SectionInRange(b, BLOCKS);
      var section := b[..s.End()];
      var blocks := ParseBlocks(false, section, s.off + 8, Counted(ReadU64(section, s.off), sizes)).value;
      RecordsWhere(section, r.bundle.flags, Align8(blocks.next + |r.bundle.flags|), i);
    }
  }

  /** What the sections outside this model's reach decode to: the parent block and the ancestor headers. */
  datatype Decoders = Decoders(genesis: seq<byte> -> bool, ancestors: seq<byte> -> bool)

  predicate Structured(b: seq<byte>)
    requires |b| >= BUNDLE_HEADER
  {
    InRange(b) && SectionAt(b, DIRECT_STATE).off % 8 == 0 && Disjoint(b)
  }

  predicate Accepts(d: Decoders, b: seq<byte>)
    requires |b| >= BUNDLE_HEADER && InRange(b)
  {
    var g, a := SectionAt(b, 0), SectionAt(b, 2);
    d.genesis(b[g.off..g.End()]) && d.ancestors(b[a.off..a.End()])
  }

  /** The guest's loader: the common part, and every further condition it puts on a bundle. */
  function Load(b: seq<byte>, sizes: nat, d: Decoders): (r: Option<Loaded>)
    requires sizes > 0
    ensures r.Some? ==> ParseBundle(false, b, sizes) == Some(r.value.bundle)
  {
    match ParseBundle(false, b, sizes)
    case None => None
    case Some(bundle) =>
      if !Structured(b) || !Accepts(d, b) then None
      else
        var s := SectionAt(b, BLOCKS);
        var section := b[..s.End()];
        var blocks := ParseBlocks(false, section, s.off + 8, Counted(ReadU64(section, s.off), sizes)).value;
        match EnginesOf(section, blocks, bundle.flags)
        case None => None
        case Some(engines) => Some(Loaded(bundle, engines))
  }

  function Prepended(items: seq<seq<byte>>, rest: Option<Blocks>): Option<Blocks> {
    if rest.None? then None else Some(Blocks(items + rest.value.items, rest.value.next))
  }

  /** The block loop of both readers. */
  method ReadBlocks(host: bool, section: seq<byte>, start: nat, n: nat) returns (r: Option<Blocks>)
    ensures r == ParseBlocks(host, section, start, n)
  {
    hide ReadItem, Align8, Prepended;
    var cursor: nat := start;
    var items: seq<seq<byte>> := [];
    NonePrepended(ParseBlocks(host, section, start, n));
    for i := 0 to n
      invariant Prepended(items, ParseBlocks(host, section, cursor, n - i)) == ParseBlocks(host, section, start, n)
    {
      PrependedBoth(items, [], None);
      if cursor >= |section| { return None; }
      var it := ReadItem(host, section[cursor..]);
      if it.None? || !it.value.list { return None; }
      var block := section[cursor..cursor + it.value.Len()];
      PrependedBoth(items, block, ParseBlocks(host, section, Align8(cursor + it.value.Len()), n - i - 1));
      items := items + [block];
      cursor := Align8(cursor + it.value.Len());
    }
    r := Some(Blocks(items, cursor));
    EndPrepended(items, cursor);
  }

  lemma NonePrepended(rest: Option<Blocks>)
    ensures Prepended([], rest) == rest
  {
    if rest.Some? { assert [] + rest.value.items == rest.value.items; }
  }

  lemma EndPrepended(items: seq<seq<byte>>, cursor: nat)
    ensures Prepended(items, Some(Blocks([], cursor))) == Some(Blocks(items, cursor))
  {
    assert items + [] == items;
  }

  lemma PrependedBoth(items: seq<seq<byte>>, block: seq<byte>, rest: Option<Blocks>)
    ensures Prepended(items, None).None?
    ensures rest.Some? ==>
      Prepended(items, Some(Blocks([block] + rest.value.items, rest.value.next))) == Prepended(items + [block], rest)
    ensures rest.None? ==> Prepended(items + [block], rest).None?
  {
    if rest.Some? { assert items + ([block] + rest.value.items) == items + [block] + rest.value.items; }
  }

  method ReadEngines(section: seq<byte>, flags: seq<byte>, start: nat) returns (r: Option<seq<Option<EngineRecord>>>)
    ensures r == ParseEngines(section, flags, start)
  {
    hide FromLe;
    var pos: nat := start;
    var engines: seq<Option<EngineRecord>> := [];
    assert flags[0..] == flags;
    ghost var all := ParseEngines(section, flags, start);
    assert Behind([], all) == all by { if all.Some? { assert [] + all.value == all.value; } }
    for i := 0 to |flags|
      invariant Behind(engines, ParseEngines(section, flags[i..], pos)) == ParseEngines(section, flags, start)
    {
      ghost var left := flags[i..];
      assert left[0] == flags[i] && left[1..] == flags[i + 1..];
      if !HasEngineRecord(flags[i]) {
        BehindBoth(engines, [None], ParseEngines(section, left[1..], pos));
        engines := engines + [None];
      } else {
        if pos > |section| || |section| - pos < ENGINE_HEAD { return None; }
        var n := ReadU64(section, pos + 32);
        var at := pos + ENGINE_HEAD;
        if n > (|section| - at) / 32 { return None; }
        var rec := EngineRecord(section[pos..pos + 32], section[at..at + 32 * n]);
        BehindBoth(engines, [Some(rec)], ParseEngines(section, left[1..], at + 32 * n));
        engines, pos := engines + [Some(rec)], at + 32 * n;
      }
    }
    assert engines + [] == engines;
    r := Some(engines);
  }

  method FindEngines(section: seq<byte>, blocks: Blocks, flags: seq<byte>) returns (r: Option<seq<Option<EngineRecord>>>)
    ensures r == EnginesOf(section, blocks, flags)
  {
    hide ParseEngines, HasEngineRecord;
    var i := 0;
    while i < |flags| && !HasEngineRecord(flags[i])
      invariant i <= |flags| && forall k :: 0 <= k < i ==> !HasEngineRecord(flags[k])
    {
      i := i + 1;
    }
    if i == |flags| { return Some([]); }
    r := ReadEngines(section, flags, Align8(blocks.next + |flags|));
  }

  lemma BehindBoth<T>(a: seq<T>, b: seq<T>, rest: Option<seq<T>>)
    ensures Behind(a, Behind(b, rest)) == Behind(a + b, rest)
  {
    if rest.Some? { assert a + (b + rest.value) == a + b + rest.value; }
  }

  /** The pairwise overlap check, as the loader runs it. */
  method CheckApart(b: seq<byte>) returns (apart: bool)
    requires |b| >= BUNDLE_HEADER
    ensures apart <==> Disjoint(b)
  {
    hide ReadU32;
    for i := 0 to SECTIONS
      invariant forall x, y :: 0 <= x < i && x < y < SECTIONS ==> Apart(SectionAt(b, x), SectionAt(b, y))
    {
      var s := SectionAt(b, i);
      if s.size == 0 { continue; }
      for j := i + 1 to SECTIONS
        invariant forall y :: i < y < j ==> Apart(SectionAt(b, i), SectionAt(b, y))
      {
        var t := SectionAt(b, j);
        if t.size != 0 && s.off < t.End() && t.off < s.End() { return false; }
      }
    }
    apart := true;
  }

  /** `load_flat_bundle`. */
  method LoadFlatBundle(b: seq<byte>, sizes: nat, d: Decoders) returns (r: Option<Loaded>)
    requires sizes > 0
    ensures r == Load(b, sizes, d)
    ensures r.Some? ==> |b| >= 56 && ReadU32(b, 32) % 8 == 0
    ensures r.Some? ==>
      var genesis, ancestors := Section(ReadU32(b, 8), ReadU32(b, 12)), Section(ReadU32(b, 24), ReadU32(b, 28));
      && genesis.End() <= |b| && ancestors.End() <= |b|
      && d.genesis(b[genesis.off..genesis.End()]) && d.ancestors(b[ancestors.off..ancestors.End()])
  {
    hide ParseBlocks, EnginesOf, ReadU32, ReadU64, Counted, Disjoint, EndOf, FlagsOf, Accepts, InRange;
    if |b| < BUNDLE_HEADER || ReadU32(b, 0) != BUNDLE_MAGIC || ReadU32(b, 4) != BUNDLE_VERSION || !InRange(b) { return None; }
    var apart := CheckApart(b);
    if SectionAt(b, DIRECT_STATE).off % 8 != 0 || !apart { return None; }
    var s := SectionAt(b, BLOCKS);
    if s.size < 8 { return None; }
    SectionInRange(b, BLOCKS);
    var section := b[..s.End()];
    var blocks := ReadBlocks(false, section, s.off + 8, Counted(ReadU64(section, s.off), sizes));
    if blocks.None? { return None; }
    var flags := FlagsOf(section, blocks.value);
    var engines := FindEngines(section, blocks.value, flags);
    if engines.None? || !Accepts(d, b) { return None; }
    AcceptsSections(d, b);
    r := Some(Loaded(Bundle(EndOf(b, SECTIONS), blocks.value.items, flags), engines.value));
  }

  lemma AcceptsSections(d: Decoders, b: seq<byte>)
    requires |b| >= BUNDLE_HEADER && InRange(b) && Accepts(d, b)
    ensures var genesis, ancestors := Section(ReadU32(b, 8), ReadU32(b, 12)), Section(ReadU32(b, 24), ReadU32(b, 28));
            && genesis.End() <= |b| && ancestors.End() <= |b|
            && d.genesis(b[genesis.off..genesis.End()]) && d.ancestors(b[ancestors.off..ancestors.End()])
  {
    hide ReadU32;
    SectionInRange(b, 0);
    SectionInRange(b, 2);
  }
}
