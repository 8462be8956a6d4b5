/**
  Building a flat bundle and its envelope: `build_flat_bundle` and `wrap_mfbd` of
  prover/stateless_validator/src/mfbd.rs, read back with the walkers of both sides.
  */
module BundleBuild {
  import opened Basics
  import opened Bytes
  import opened Rlp
  import opened BlockRlp
  import opened FlatBundle
  import opened PublicOutput
  import Headers

  // ---------- Writing a buffer from front to back ----------

  datatype Chunk = Chunk(at: nat, bytes: seq<byte>)

  /** Every chunk is in place, and none reaches past `end`. */
  ghost predicate Written(out: seq<byte>, chunks: seq<Chunk>, end: nat) {
    && end <= |out|
    && forall i :: 0 <= i < |chunks| ==>
         chunks[i].at + |chunks[i].bytes| <= end && Slice(out, chunks[i].at, |chunks[i].bytes|) == chunks[i].bytes
  }

  lemma WriteNext(out: seq<byte>, chunks: seq<Chunk>, end: nat, at: nat, v: seq<byte>)
    requires Written(out, chunks, end) && end <= at && at + |v| <= |out|
    ensures Written(Put(out, at, v), chunks + [Chunk(at, v)], at + |v|)
  {
    hide Put, Slice;
    PutThere(out, at, v);
    PutElsewhere(out, at, v);
  }

  /** A buffer that starts with the written one holds the same chunks. */
  lemma ChunkHolds(out: seq<byte>, chunks: seq<Chunk>, end: nat, b: seq<byte>, c: Chunk)
    requires Written(out, chunks, end) && c in chunks && out <= b
    ensures c.at + |c.bytes| <= end <= |b| && Slice(b, c.at, |c.bytes|) == c.bytes
  {
    var i :| 0 <= i < |chunks| && chunks[i] == c;
    assert Slice(b, c.at, |c.bytes|) == Slice(out, c.at, |c.bytes|);
  }

  // ---------- Layout ----------

  datatype Engine = Engine(blockHash: seq<byte>, hashes: seq<seq<byte>>)

  datatype Parts = Parts(
    genesis: seq<byte>, blocks: seq<seq<byte>>, ancestors: seq<byte>, directState: seq<byte>, nodeStore: seq<byte>,
    network: seq<byte>, flags: seq<byte>, engine: Option<Engine>)

  function EngineSize(engine: Option<Engine>): nat {
    if engine.None? then 0 else ENGINE_HEAD + 32 * |engine.value.hashes|
  }

  /** The bytes the first `j` blocks take, each padded to eight. */
  function Padded(blocks: seq<seq<byte>>, j: nat): (size: nat)
    requires j <= |blocks|
    ensures size % 8 == 0
  {
    if j == 0 then 0
    else
      SumOfMultiples(Padded(blocks, j - 1), Align8(|blocks[j - 1]|));
      Padded(blocks, j - 1) + Align8(|blocks[j - 1]|)
  }

  function FlagsEnd(p: Parts): nat { 8 + Padded(p.blocks, |p.blocks|) + |p.flags| }

  function BlocksSize(p: Parts): nat {
    if EngineSize(p.engine) > 0 then Align8(FlagsEnd(p)) + EngineSize(p.engine) else FlagsEnd(p)
  }

  /** The content of the sections other than the blocks. */
  function Content(p: Parts, k: nat): seq<byte>
    requires k < SECTIONS
  {
    match k
    case 0 => p.genesis
    case 1 => []
    case 2 => p.ancestors
    case 3 => p.directState
    case 4 => p.nodeStore
    case _ => p.network
  }

  function Size(p: Parts, k: nat): nat
    requires k < SECTIONS
  {
    if k == BLOCKS then BlocksSize(p) else |Content(p, k)|
  }

  /** Sections follow the header and each other, each aligned; past the last one the bundle ends. */
  function Off(p: Parts, k: nat): (off: nat)
    requires k <= SECTIONS
    ensures off % 8 == 0 && off >= BUNDLE_HEADER
  {
    if k == 0 then BUNDLE_HEADER else Align8(Off(p, k - 1) + Size(p, k - 1))
  }

  lemma {:induction false} SectionsInOrder(p: Parts, i: nat, j: nat)
    requires i < j <= SECTIONS
    ensures Off(p, i) + Size(p, i) <= Off(p, j)
  {
    if i + 1 < j { SectionsInOrder(p, i, j - 1); }
  }

  function BlockAt(p: Parts, j: nat): (at: nat)
    requires j <= |p.blocks|
    ensures at % 8 == 0
  {
    Off(p, BLOCKS) + 8 + Padded(p.blocks, j)
  }

  lemma AlignShift(a: nat, x: nat)
    requires a % 8 == 0
    ensures Align8(a + x) == a + Align8(x)
  {
  }

  lemma BlockAtNext(p: Parts, j: nat)
    requires j < |p.blocks|
    ensures BlockAt(p, j + 1) == Align8(BlockAt(p, j) + |p.blocks[j]|)
  {
    AlignShift(BlockAt(p, j), |p.blocks[j]|);
  }

  lemma {:induction false} PaddedGrows(blocks: seq<seq<byte>>, i: nat, j: nat)
    requires i <= j <= |blocks|
    ensures Padded(blocks, i) <= Padded(blocks, j)
  {
    if i < j { PaddedGrows(blocks, i, j - 1); }
  }

  /** What a caller may hand over: engine hashes of 32 bytes and a bundle below 4 GiB. */
  ghost predicate Buildable(p: Parts) {
    && Off(p, SECTIONS) < U32
    && (p.engine.Some? ==>
          |p.engine.value.blockHash| == 32 && forall i :: 0 <= i < |p.engine.value.hashes| ==> |p.engine.value.hashes[i]| == 32)
  }

  // ---------- What is laid out ----------

  function HeaderFields(p: Parts): (fields: seq<Field>)
    ensures Ascending(fields, BUNDLE_HEADER)
  {
    [Field(0, BUNDLE_MAGIC, 4), Field(4, BUNDLE_VERSION, 4),
     Field(8, Off(p, 0), 4), Field(12, Size(p, 0), 4), Field(16, Off(p, 1), 4), Field(20, Size(p, 1), 4),
     Field(24, Off(p, 2), 4), Field(28, Size(p, 2), 4), Field(32, Off(p, 3), 4), Field(36, Size(p, 3), 4),
     Field(40, Off(p, 4), 4), Field(44, Size(p, 4), 4), Field(48, Off(p, 5), 4), Field(52, Size(p, 5), 4)]
  }

  ghost function FieldChunks(fields: seq<Field>): (chunks: seq<Chunk>)
    ensures |chunks| == |fields|
    ensures forall i :: 0 <= i < |fields| ==> chunks[i] == Chunk(fields[i].at, Le(fields[i].value, fields[i].width))
  {
    seq(|fields|, i requires 0 <= i < |fields| => Chunk(fields[i].at, Le(fields[i].value, fields[i].width)))
  }

  lemma HeaderWritten(zeros: seq<byte>, p: Parts)
    requires |zeros| >= BUNDLE_HEADER
    ensures Written(PutFields(zeros, HeaderFields(p)), FieldChunks(HeaderFields(p)), BUNDLE_HEADER)
  {
    hide HeaderFields, PutFields, Slice, Le;
    FieldsHold(zeros, HeaderFields(p));
  }

  ghost predicate BlocksIn(chunks: seq<Chunk>, p: Parts, upto: nat) {
    upto <= |p.blocks| && forall j :: 0 <= j < upto ==> Chunk(BlockAt(p, j), p.blocks[j]) in chunks
  }

  ghost predicate EngineIn(chunks: seq<Chunk>, p: Parts) {
    p.engine.Some? ==>
      var at := Off(p, BLOCKS) + Align8(FlagsEnd(p));
      && Chunk(at, p.engine.value.blockHash) in chunks
      && Chunk(at + 32, Le(|p.engine.value.hashes|, 8)) in chunks
      && forall i :: 0 <= i < |p.engine.value.hashes| ==> Chunk(at + ENGINE_HEAD + 32 * i, p.engine.value.hashes[i]) in chunks
  }

  /** Everything the bundle was built from is in its place. */
  ghost predicate LaidOut(out: seq<byte>, p: Parts, chunks: seq<Chunk>) {
    && |out| == Off(p, SECTIONS) && Written(out, chunks, |out|)
    && FieldChunks(HeaderFields(p)) <= chunks
    && Chunk(Off(p, BLOCKS), Le(|p.blocks|, 8)) in chunks && BlocksIn(chunks, p, |p.blocks|)
    && Chunk(BlockAt(p, |p.blocks|), p.flags) in chunks && EngineIn(chunks, p)
    && forall k :: 0 <= k < SECTIONS && k != BLOCKS ==> Chunk(Off(p, k), Content(p, k)) in chunks
  }

  // ---------- The build ----------

  /** One `copy_from_slice`, recorded. */
  method Copy(out: seq<byte>, at: nat, v: seq<byte>, ghost chunks: seq<Chunk>, ghost end: nat)
    returns (out': seq<byte>, ghost chunks': seq<Chunk>)
    requires Written(out, chunks, end) && end <= at && at + |v| <= |out|
    ensures |out'| == |out| && Written(out', chunks', at + |v|) && chunks' == chunks + [Chunk(at, v)]
  {
    WriteNext(out, chunks, end, at, v);
    out', chunks' := Put(out, at, v), chunks + [Chunk(at, v)];
  }

  method CopyBlocks(out0: seq<byte>, p: Parts, blocksOff: nat, ghost chunks0: seq<Chunk>)
    returns (out: seq<byte>, cursor: nat, ghost chunks: seq<Chunk>, ghost end: nat)
    requires blocksOff == Off(p, BLOCKS) && Written(out0, chunks0, blocksOff + 8) && BlockAt(p, |p.blocks|) <= |out0|
    ensures |out| == |out0| && cursor == BlockAt(p, |p.blocks|) && end <= cursor
    ensures Written(out, chunks, end) && chunks0 <= chunks && BlocksIn(chunks, p, |p.blocks|)
  {
    hide Written, BlockAt, BlocksIn;
    out, cursor, chunks, end := out0, blocksOff + 8, chunks0, blocksOff + 8;
    BlocksStart(p, chunks);
    for j := 0 to |p.blocks|
      invariant |out| == |out0| && cursor == BlockAt(p, j) && end <= cursor
      invariant Written(out, chunks, end) && chunks0 <= chunks && BlocksIn(chunks, p, j)
    {
      BlockStep(p, j);
      ghost var before := chunks;
      out, chunks := Copy(out, cursor, p.blocks[j], chunks, end);
      assert chunks[|before|] == Chunk(cursor, p.blocks[j]);
      InMore(before, chunks, p, j);
      end := cursor + |p.blocks[j]|;
      cursor := cursor + Align8(|p.blocks[j]|);
    }
  }

  lemma BlocksStart(p: Parts, chunks: seq<Chunk>)
    ensures BlockAt(p, 0) == Off(p, BLOCKS) + 8 && BlocksIn(chunks, p, 0)
  {
  }

  lemma BlockStep(p: Parts, j: nat)
    requires j < |p.blocks|
    ensures BlockAt(p, j + 1) == BlockAt(p, j) + Align8(|p.blocks[j]|) <= BlockAt(p, |p.blocks|)
  {
    PaddedGrows(p.blocks, j + 1, |p.blocks|);
  }

  lemma InMore(before: seq<Chunk>, after: seq<Chunk>, p: Parts, j: nat)
    requires before <= after && BlocksIn(before, p, j)
    ensures BlocksIn(after, p, j)
    ensures j < |p.blocks| && Chunk(BlockAt(p, j), p.blocks[j]) in after ==> BlocksIn(after, p, j + 1)
  {
    hide BlockAt;
    PrefixKeeps(before, after);
  }

  lemma PrefixKeeps(before: seq<Chunk>, after: seq<Chunk>)
    requires before <= after
    ensures forall c :: c in before ==> c in after
  {
    forall c | c in before
      ensures c in after
    {
      var i :| 0 <= i < |before| && before[i] == c;
      assert after[i] == c;
    }
  }

  method CopyEngine(out0: seq<byte>, p: Parts, at: nat, ghost chunks0: seq<Chunk>, ghost end0: nat)
    returns (out: seq<byte>, ghost chunks: seq<Chunk>, ghost end: nat)
    requires at == Off(p, BLOCKS) + Align8(FlagsEnd(p)) && Buildable(p) && p.engine.Some?
    requires Written(out0, chunks0, end0) && end0 <= at && at + EngineSize(p.engine) <= |out0|
    ensures |out| == |out0| && Written(out, chunks, end) && end == at + EngineSize(p.engine)
    ensures chunks0 <= chunks && EngineIn(chunks, p)
  {
    hide Written, Off, Align8, FlagsEnd;
    var e := p.engine.value;
    out, chunks := Copy(out0, at, e.blockHash, chunks0, end0);
    out, chunks := Copy(out, at + 32, Le(|e.hashes|, 8), chunks, at + 32);
    ghost var first := chunks;
    assert first[|chunks0|] == Chunk(at, e.blockHash) && first[|chunks0| + 1] == Chunk(at + 32, Le(|e.hashes|, 8));
    for i := 0 to |e.hashes|
      invariant |out| == |out0| && Written(out, chunks, at + ENGINE_HEAD + 32 * i) && first <= chunks
      invariant forall k :: 0 <= k < i ==> Chunk(at + ENGINE_HEAD + 32 * k, e.hashes[k]) in chunks
    {
      ghost var before := chunks;
      out, chunks := Copy(out, at + ENGINE_HEAD + 32 * i, e.hashes[i], chunks, at + ENGINE_HEAD + 32 * i);
      PrefixKeeps(before, chunks);
    }
    PrefixKeeps(first, chunks);
    end := at + EngineSize(p.engine);
  }

  /** The padded blocks, the flags and the engine record lie within their section. */
  lemma BlocksFitSection(p: Parts)
    ensures Off(p, BLOCKS) + FlagsEnd(p) == BlockAt(p, |p.blocks|) + |p.flags| <= Off(p, BLOCKS) + Size(p, BLOCKS)
    ensures p.engine.Some? ==> Off(p, BLOCKS) + Align8(FlagsEnd(p)) + EngineSize(p.engine) == Off(p, BLOCKS) + Size(p, BLOCKS)
  {
    hide Off, Padded;
  }

  /** The sections up to and with the blocks. */
  method BuildFront(p: Parts) returns (out: seq<byte>, ghost chunks: seq<Chunk>, ghost end: nat)
    requires Buildable(p)
    ensures |out| == Off(p, SECTIONS) && Written(out, chunks, end) && end <= Off(p, 2)
    ensures FieldChunks(HeaderFields(p)) <= chunks && BlocksIn(chunks, p, |p.blocks|) && EngineIn(chunks, p)
    ensures Chunk(Off(p, 0), p.genesis) in chunks && Chunk(Off(p, BLOCKS), Le(|p.blocks|, 8)) in chunks
    ensures Chunk(BlockAt(p, |p.blocks|), p.flags) in chunks
  {
    hide Written, HeaderFields, BlocksIn, EngineIn, Off, FlagsEnd, BlockAt, PutFields, FieldChunks, Le, Size, EngineSize;
    SectionsInOrder(p, 0, 1);
    SectionsInOrder(p, 1, 2);
    SectionsInOrder(p, 2, SECTIONS);
    BlocksFitSection(p);
    FirstOff(p);
    var zeros: seq<byte> := seq(Off(p, SECTIONS), _ => 0);
    HeaderWritten(zeros, p);
    out, chunks := PutFields(zeros, HeaderFields(p)), FieldChunks(HeaderFields(p));
    out, chunks := Copy(out, Off(p, 0), p.genesis, chunks, BUNDLE_HEADER);
    out, chunks := Copy(out, Off(p, BLOCKS), Le(|p.blocks|, 8), chunks, Off(p, 0) + |p.genesis|);
    ghost var counted := chunks;
    assert counted[|counted| - 1] == Chunk(Off(p, BLOCKS), Le(|p.blocks|, 8));
    assert counted[|counted| - 2] == Chunk(Off(p, 0), p.genesis);
    var cursor;
    out, cursor, chunks, end := CopyBlocks(out, p, Off(p, BLOCKS), chunks);
    ghost var blocked := chunks;
    out, chunks := Copy(out, cursor, p.flags, chunks, end);
    end := cursor + |p.flags|;
    ghost var flagged := chunks;
    assert flagged[|flagged| - 1] == Chunk(cursor, p.flags);
    if p.engine.Some? {
      out, chunks, end := CopyEngine(out, p, Off(p, BLOCKS) + Align8(FlagsEnd(p)), chunks, end);
    } else {
      NoEngineIn(chunks, p);
    }
    PrefixKeeps(counted, chunks);
    PrefixKeeps(flagged, chunks);
    InMore(blocked, chunks, p, |p.blocks|);
  }

  lemma NoEngineIn(chunks: seq<Chunk>, p: Parts)
    requires p.engine.None?
    ensures EngineIn(chunks, p)
  {
  }

  lemma FirstOff(p: Parts)
    ensures Off(p, 0) == BUNDLE_HEADER && Size(p, 0) == |p.genesis|
    ensures Off(p, BLOCKS) + 8 <= BlockAt(p, |p.blocks|)
  {
  }

  /** `build_flat_bundle`: everything it was given is in its place in the bundle. */
  method BuildFlatBundle(p: Parts) returns (out: seq<byte>)
    requires Buildable(p)
    ensures exists chunks :: LaidOut(out, p, chunks)
  {
    hide Written, HeaderFields, BlocksIn, EngineIn, Off, FieldChunks, Le, BlockAt, LaidOut;
    ghost var chunks: seq<Chunk>, end: nat;
    out, chunks, end := BuildFront(p);
    ghost var front := chunks;
    for k := 2 to SECTIONS
      invariant |out| == Off(p, SECTIONS) && Written(out, chunks, end) && end <= Off(p, k) && front <= chunks
      invariant forall j :: 2 <= j < k ==> Chunk(Off(p, j), Content(p, j)) in chunks
    {
      SectionsInOrder(p, k, SECTIONS);
      SectionsInOrder(p, k, k + 1);
      ghost var before := chunks;
      out, chunks := Copy(out, Off(p, k), Content(p, k), chunks, end);
      assert chunks[|before|] == Chunk(Off(p, k), Content(p, k));
      PrefixKeeps(before, chunks);
      end := Off(p, k) + Size(p, k);
    }
    Assemble(out, p, front, chunks, end);
  }

  lemma Assemble(out: seq<byte>, p: Parts, front: seq<Chunk>, chunks: seq<Chunk>, end: nat)
    requires |out| == Off(p, SECTIONS) && Written(out, chunks, end) && front <= chunks
    requires FieldChunks(HeaderFields(p)) <= front && BlocksIn(front, p, |p.blocks|) && EngineIn(front, p)
    requires Chunk(Off(p, 0), p.genesis) in front && Chunk(Off(p, BLOCKS), Le(|p.blocks|, 8)) in front
    requires Chunk(BlockAt(p, |p.blocks|), p.flags) in front
    requires forall j :: 2 <= j < SECTIONS ==> Chunk(Off(p, j), Content(p, j)) in chunks
    ensures LaidOut(out, p, chunks)
  {
    hide HeaderFields, BlocksIn, EngineIn, Off, FieldChunks, Le, BlockAt;
    PrefixKeeps(front, chunks);
    InMore(front, chunks, p, |p.blocks|);
    EngineKept(front, chunks, p);
    assert Content(p, 0) == p.genesis;
  }

  lemma EngineKept(before: seq<Chunk>, after: seq<Chunk>, p: Parts)
    requires before <= after && EngineIn(before, p)
    ensures EngineIn(after, p)
  {
    hide Off, FlagsEnd, Align8, Le;
    PrefixKeeps(before, after);
  }

  // ---------- Reading it back ----------

  /** An item's bytes read the same whatever follows them. */
  lemma ItemExtends(host: bool, x: seq<byte>, view: seq<byte>)
    requires ReadItem(host, x).Some? && x <= view
    ensures ReadItem(host, view) == ReadItem(host, x)
  {
    var b := x[0];
    if 0xB8 <= b < 0xC0 || b >= 0xF8 {
      var n := if b < 0xC0 then b - 0xB7 else b - 0xF7;
      assert view[1..1 + n] == x[1..1 + n];
    }
  }

  /** A block is exactly one list item. */
  ghost predicate IsBlock(host: bool, block: seq<byte>) {
    ReadItem(host, block).Some? && ReadItem(host, block).value.list && ReadItem(host, block).value.Len() == |block|
  }

  lemma BlockChunk(out: seq<byte>, p: Parts, chunks: seq<Chunk>, b: seq<byte>, j: nat)
    requires LaidOut(out, p, chunks) && out <= b && j < |p.blocks|
    ensures BlockAt(p, j) + |p.blocks[j]| <= |b| && Slice(b, BlockAt(p, j), |p.blocks[j]|) == p.blocks[j]
  {
    hide Written, Off, BlockAt, HeaderFields, FieldChunks;
    ChunkHolds(out, chunks, |out|, b, Chunk(BlockAt(p, j), p.blocks[j]));
  }

  /** One round of the block walk. */
  lemma ParseStep(host: bool, section: seq<byte>, at: nat, block: seq<byte>, n: nat, rest: Blocks)
    requires IsBlock(host, block) && n > 0 && at + |block| <= |section| && section[at..at + |block|] == block
    requires ParseBlocks(host, section, Align8(at + |block|), n - 1) == Some(rest)
    ensures ParseBlocks(host, section, at, n) == Some(Blocks([block] + rest.items, rest.next))
  {
    hide ReadItem, Align8;
    var view := section[at..];
    assert view[..|block|] == section[at..at + |block|];
    ItemExtends(host, block, view);
  }

  /** The block walk finds every block where it was put. */
  lemma {:induction false} BlocksParse(host: bool, out: seq<byte>, p: Parts, chunks: seq<Chunk>, b: seq<byte>, end: nat, j: nat)
    requires LaidOut(out, p, chunks) && out <= b && BlockAt(p, |p.blocks|) <= end <= |b| && j <= |p.blocks|
    requires forall i :: 0 <= i < |p.blocks| ==> IsBlock(host, p.blocks[i])
    ensures ParseBlocks(host, b[..end], BlockAt(p, j), |p.blocks| - j) == Some(Blocks(p.blocks[j..], BlockAt(p, |p.blocks|)))
    decreases |p.blocks| - j
  {
    hide LaidOut, BlockAt, IsBlock, Align8, ParseBlocks;
    if j < |p.blocks| {
      var at, block := BlockAt(p, j), p.blocks[j];
      BlockStep(p, j);
      BlockFits(p, j);
      BlockAtNext(p, j);
      BlockChunk(out, p, chunks, b, j);
      SliceOfPrefix(b, end, at, at + |block|);
      BlocksParse(host, out, p, chunks, b, end, j + 1);
      ParseStep(host, b[..end], at, block, |p.blocks| - j, Blocks(p.blocks[j + 1..], BlockAt(p, |p.blocks|)));
      assert p.blocks[j..] == [block] + p.blocks[j + 1..];
    } else {
      NoBlocks(host, b[..end], BlockAt(p, j));
      assert p.blocks[j..] == [];
    }
  }

  lemma NoBlocks(host: bool, section: seq<byte>, at: nat)
    ensures ParseBlocks(host, section, at, 0) == Some(Blocks([], at))
  {
  }

  lemma BlockFits(p: Parts, j: nat)
    requires j < |p.blocks|
    ensures BlockAt(p, j) + |p.blocks[j]| <= BlockAt(p, j + 1)
  {
  }

  lemma FieldReads(out: seq<byte>, p: Parts, chunks: seq<Chunk>, b: seq<byte>, i: nat)
    requires LaidOut(out, p, chunks) && out <= b && i < |HeaderFields(p)| && HeaderFields(p)[i].value < U32
    ensures var f := HeaderFields(p)[i]; f.width == 4 && f.at + 4 <= |b| && ReadU32(b, f.at) == f.value
  {
    hide Written, Off, BlockAt, BlocksIn, EngineIn, Le, Size;
    var f := HeaderFields(p)[i];
    assert chunks[i] == FieldChunks(HeaderFields(p))[i];
    ChunkHolds(out, chunks, |out|, b, Chunk(f.at, Le(f.value, f.width)));
    ReadsField4(b, f.at, f.value);
  }

  lemma SectionReads(out: seq<byte>, p: Parts, chunks: seq<Chunk>, b: seq<byte>, k: nat)
    requires LaidOut(out, p, chunks) && out <= b && Buildable(p) && k < SECTIONS
    ensures |b| >= BUNDLE_HEADER && SectionAt(b, k) == Section(Off(p, k), Size(p, k)) && SectionAt(b, k).End() <= |out|
  {
    hide LaidOut, Off, Size, ReadU32;
    SectionsInOrder(p, k, SECTIONS);
    FieldReads(out, p, chunks, b, 2 + 2 * k);
    FieldReads(out, p, chunks, b, 3 + 2 * k);
    Laid(out, p, chunks);
    FieldPosition(p, k);
  }

  lemma FieldPosition(p: Parts, k: nat)
    requires k < SECTIONS
    ensures HeaderFields(p)[2 + 2 * k] == Field(8 + 8 * k, Off(p, k), 4) && HeaderFields(p)[3 + 2 * k] == Field(12 + 8 * k, Size(p, k), 4)
  {
    hide Off, Size;
  }

  lemma Laid(out: seq<byte>, p: Parts, chunks: seq<Chunk>)
    requires LaidOut(out, p, chunks)
    ensures |out| == Off(p, SECTIONS) >= BUNDLE_HEADER
  {
  }

  /** The readers find the structure they ask for: sections in range, aligned and disjoint. */
  lemma BuiltIsStructured(out: seq<byte>, p: Parts, chunks: seq<Chunk>, b: seq<byte>)
    requires LaidOut(out, p, chunks) && out <= b && Buildable(p)
    ensures |b| >= BUNDLE_HEADER && ReadU32(b, 0) == BUNDLE_MAGIC && ReadU32(b, 4) == BUNDLE_VERSION
    ensures Structured(b) && (forall k :: 0 <= k < SECTIONS ==> SectionAt(b, k).off % 8 == 0)
  {
    hide LaidOut, Off, Size, ReadU32, HeaderFields;
    FirstFields(p);
    Laid(out, p, chunks);
    FieldReads(out, p, chunks, b, 0);
    FieldReads(out, p, chunks, b, 1);
    forall k | 0 <= k < SECTIONS
      ensures SectionAt(b, k) == Section(Off(p, k), Size(p, k)) && SectionAt(b, k).End() <= |b|
    {
      SectionReads(out, p, chunks, b, k);
    }
    forall i, j | 0 <= i < j < SECTIONS
      ensures Apart(SectionAt(b, i), SectionAt(b, j))
    {
      SectionsInOrder(p, i, j);
    }
  }

  lemma FirstFields(p: Parts)
    ensures |HeaderFields(p)| > 1
    ensures HeaderFields(p)[0] == Field(0, BUNDLE_MAGIC, 4) && HeaderFields(p)[1] == Field(4, BUNDLE_VERSION, 4)
  {
    hide Off, Size;
  }

  /** The bundle ends with its last section. */
  lemma {:induction false} EndIsLast(out: seq<byte>, p: Parts, chunks: seq<Chunk>, b: seq<byte>, k: nat)
    requires LaidOut(out, p, chunks) && out <= b && Buildable(p) && |b| >= BUNDLE_HEADER && 1 <= k <= SECTIONS
    ensures EndOf(b, k) == Off(p, k - 1) + Size(p, k - 1)
  {
    hide LaidOut, Off, Size, ReadU32;
    SectionReads(out, p, chunks, b, k - 1);
    if k > 1 {
      EndIsLast(out, p, chunks, b, k - 1);
      SectionsInOrder(p, k - 2, k - 1);
    } else {
      FirstOff(p);
    }
  }

  lemma {:induction false} PaddedHoldsCount(blocks: seq<seq<byte>>, j: nat)
    requires j <= |blocks| && forall i :: 0 <= i < |blocks| ==> blocks[i] != []
    ensures 8 * j <= Padded(blocks, j)
  {
    if j > 0 { PaddedHoldsCount(blocks, j - 1); }
  }

  lemma CountReads(out: seq<byte>, p: Parts, chunks: seq<Chunk>, b: seq<byte>)
    requires LaidOut(out, p, chunks) && out <= b && |p.blocks| < U32
    ensures Off(p, BLOCKS) + 8 <= |b| && ReadU64(b, Off(p, BLOCKS)) == |p.blocks|
  {
    hide Written, Off, BlockAt, BlocksIn, EngineIn, Le, HeaderFields, FieldChunks;
    ChunkHolds(out, chunks, |out|, b, Chunk(Off(p, BLOCKS), Le(|p.blocks|, 8)));
    ReadsField8(b, Off(p, BLOCKS), |p.blocks|);
  }

  lemma FlagsChunk(out: seq<byte>, p: Parts, chunks: seq<Chunk>, b: seq<byte>)
    requires LaidOut(out, p, chunks) && out <= b
    ensures BlockAt(p, |p.blocks|) + |p.flags| <= |b| && Slice(b, BlockAt(p, |p.blocks|), |p.flags|) == p.flags
  {
    hide Written, Off, BlockAt, BlocksIn, EngineIn, Le, HeaderFields, FieldChunks;
    ChunkHolds(out, chunks, |out|, b, Chunk(BlockAt(p, |p.blocks|), p.flags));
  }

  /** One flag for each block; or none, and no record in the room the flags would take. */
  predicate FlagsReadable(p: Parts) {
    |p.flags| == |p.blocks| || (p.flags == [] && |p.blocks| > EngineSize(p.engine))
  }

  /** The flags come back exactly when they can be told from what follows them. */
  lemma FlagsParse(out: seq<byte>, p: Parts, chunks: seq<Chunk>, b: seq<byte>, end: nat)
    requires LaidOut(out, p, chunks) && out <= b && end <= |b| && end == Off(p, BLOCKS) + Size(p, BLOCKS)
    ensures FlagsOf(b[..end], Blocks(p.blocks, BlockAt(p, |p.blocks|))) == p.flags <==> FlagsReadable(p)
  {
    hide LaidOut, Off, BlockAt, Size;
    var n, at := |p.blocks|, BlockAt(p, |p.blocks|);
    BlocksFitSection(p);
    FlagsChunk(out, p, chunks, b);
    RoomAfterFlags(p);
    var section := b[..end];
    assert Slice(section, at, |p.flags|) == Slice(b, at, |p.flags|);
  }

  lemma RoomAfterFlags(p: Parts)
    ensures p.flags == [] ==> Off(p, BLOCKS) + Size(p, BLOCKS) == BlockAt(p, |p.blocks|) + EngineSize(p.engine)
  {
    hide Off;
    assert Align8(8 + Padded(p.blocks, |p.blocks|)) == 8 + Padded(p.blocks, |p.blocks|);
  }

  /**
    Either reader gets the blocks back from a bundle that is part of a longer input, ends it where
    the next one starts, and gets the flags back exactly when they can be told apart.
    */
  lemma BuiltParses(host: bool, out: seq<byte>, p: Parts, chunks: seq<Chunk>, b: seq<byte>, sizes: nat)
    requires LaidOut(out, p, chunks) && out <= b && Buildable(p) && sizes >= U32
    requires forall i :: 0 <= i < |p.blocks| ==> IsBlock(host, p.blocks[i])
    ensures ParseBundle(host, b, sizes).Some?
    ensures var r := ParseBundle(host, b, sizes).value;
            r.blocks == p.blocks && Align8(r.size) == |out| && (r.flags == p.flags <==> FlagsReadable(p))
  {
    hide LaidOut, Off, Size, ReadU32, ReadU64, ParseBlocks, FlagsOf, FlagsReadable, Counted, EndOf, IsBlock, BlockAt, Disjoint;
    BuiltIsStructured(out, p, chunks, b);
    SectionReads(out, p, chunks, b, BLOCKS);
    var s := SectionAt(b, BLOCKS);
    var section := b[..s.End()];
    CountFits(host, p);
    CountReads(out, p, chunks, b);
    assert Slice(section, s.off, 8) == Slice(b, s.off, 8);
    assert ReadU64(section, s.off) == |p.blocks| by { SameU64(section, b, s.off); }
    CountedWhole(|p.blocks|, sizes);
    BlocksFitSection(p);
    BlocksStart(p, chunks);
    BlocksParse(host, out, p, chunks, b, s.End(), 0);
    assert p.blocks[0..] == p.blocks;
    FlagsParse(out, p, chunks, b, s.End());
    EndIsLast(out, p, chunks, b, SECTIONS);
    TotalIsAligned(p);
    Laid(out, p, chunks);
  }

  lemma SameU64(x: seq<byte>, y: seq<byte>, at: nat)
    requires at + 8 <= |x| && at + 8 <= |y| && Slice(x, at, 8) == Slice(y, at, 8)
    ensures ReadU64(x, at) == ReadU64(y, at)
  {
  }

  lemma TotalIsAligned(p: Parts)
    ensures Off(p, SECTIONS) == Align8(Off(p, SECTIONS - 1) + Size(p, SECTIONS - 1))
    ensures Size(p, BLOCKS) >= 8
  {
  }

  lemma CountFits(host: bool, p: Parts)
    requires Buildable(p) && forall i :: 0 <= i < |p.blocks| ==> IsBlock(host, p.blocks[i])
    ensures |p.blocks| < U32 && Size(p, BLOCKS) >= 8
  {
    hide Off, ReadItem;
    forall i | 0 <= i < |p.blocks|
      ensures p.blocks[i] != []
    {
      assert IsBlock(host, p.blocks[i]);
    }
    PaddedHoldsCount(p.blocks, |p.blocks|);
    SectionsInOrder(p, BLOCKS, SECTIONS);
  }

  // ---------- Engine records ----------

  lemma {:induction false} ConcatSize(hashes: seq<seq<byte>>)
    requires forall i :: 0 <= i < |hashes| ==> |hashes[i]| == 32
    ensures |Concat(hashes)| == 32 * |hashes|
  {
    if hashes != [] { ConcatSize(hashes[1..]); }
  }

  lemma {:induction false} HashesAt(b: seq<byte>, at: nat, hashes: seq<seq<byte>>)
    requires at + 32 * |hashes| <= |b|
    requires forall i :: 0 <= i < |hashes| ==> |hashes[i]| == 32 && Slice(b, at + 32 * i, 32) == hashes[i]
    ensures Slice(b, at, 32 * |hashes|) == Concat(hashes)
    decreases |hashes|
  {
    if hashes != [] {
      var rest := hashes[1..];
      forall i | 0 <= i < |rest|
        ensures |rest[i]| == 32 && Slice(b, at + 32 + 32 * i, 32) == rest[i]
      {
        assert rest[i] == hashes[i + 1] && Slice(b, at + 32 * (i + 1), 32) == hashes[i + 1];
      }
      HashesAt(b, at + 32, rest);
      assert Slice(b, at + 32 * 0, 32) == hashes[0];
      assert Slice(b, at, 32 * |hashes|) == Slice(b, at, 32) + Slice(b, at + 32, 32 * |rest|);
    }
  }

  ghost function RecordOf(e: Engine): EngineRecord {
    EngineRecord(e.blockHash, Concat(e.hashes))
  }

  /** The record as the guest reads it. */
  ghost predicate RecordAt(section: seq<byte>, at: nat, e: Engine) {
    && at + ENGINE_HEAD + 32 * |e.hashes| <= |section| && ReadU64(section, at + 32) == |e.hashes|
    && section[at..at + 32] == e.blockHash
    && section[at + ENGINE_HEAD..at + ENGINE_HEAD + 32 * |e.hashes|] == Concat(e.hashes)
  }

  lemma EngineChunks(out: seq<byte>, p: Parts, chunks: seq<Chunk>, b: seq<byte>, at: nat)
    requires LaidOut(out, p, chunks) && out <= b && p.engine.Some? && Buildable(p) && at == Off(p, BLOCKS) + Align8(FlagsEnd(p))
    ensures at + EngineSize(p.engine) <= |b| && Slice(b, at, 32) == p.engine.value.blockHash
    ensures |p.engine.value.hashes| < U32 && FieldAt(b, at + 32, |p.engine.value.hashes|, 8)
    ensures forall i :: 0 <= i < |p.engine.value.hashes| ==>
      Slice(b, at + ENGINE_HEAD + 32 * i, 32) == p.engine.value.hashes[i]
  {
    hide Written, Off, BlockAt, BlocksIn, Le, HeaderFields, FieldChunks, Slice, Size, FlagsEnd, Align8;
    var e := p.engine.value;
    ChunkHolds(out, chunks, |out|, b, Chunk(at, e.blockHash));
    ChunkHolds(out, chunks, |out|, b, Chunk(at + 32, Le(|e.hashes|, 8)));
    forall i | 0 <= i < |e.hashes|
      ensures at + ENGINE_HEAD + 32 * i + 32 <= |out| && Slice(b, at + ENGINE_HEAD + 32 * i, 32) == e.hashes[i]
    {
      ChunkHolds(out, chunks, |out|, b, Chunk(at + ENGINE_HEAD + 32 * i, e.hashes[i]));
    }
    if |e.hashes| > 0 {
      assert at + ENGINE_HEAD + 32 * (|e.hashes| - 1) + 32 <= |out|;
    }
  }

  lemma EngineReads(out: seq<byte>, p: Parts, chunks: seq<Chunk>, b: seq<byte>, end: nat)
    requires LaidOut(out, p, chunks) && out <= b && p.engine.Some? && Buildable(p)
    requires end <= |b| && end == Off(p, BLOCKS) + Size(p, BLOCKS)
    ensures RecordAt(b[..end], Off(p, BLOCKS) + Align8(FlagsEnd(p)), p.engine.value)
  {
    hide LaidOut, Off, Size, FlagsEnd, Align8, Le, EngineSize, Concat;
    var at := Off(p, BLOCKS) + Align8(FlagsEnd(p));
    EngineChunks(out, p, chunks, b, at);
    BlocksFitSection(p);
    EngineFits(p);
    HashesAt(b, at + ENGINE_HEAD, p.engine.value.hashes);
    ReadsField8(b, at + 32, |p.engine.value.hashes|);
    RecordOfPrefix(b, at, p.engine.value, end);
  }

  lemma EngineFits(p: Parts)
    requires p.engine.Some?
    ensures EngineSize(p.engine) == ENGINE_HEAD + 32 * |p.engine.value.hashes|
  {
  }

  lemma RecordOfPrefix(b: seq<byte>, at: nat, e: Engine, end: nat)
    requires at + ENGINE_HEAD + 32 * |e.hashes| <= end <= |b| && ReadU64(b, at + 32) == |e.hashes|
    requires Slice(b, at, 32) == e.blockHash && Slice(b, at + ENGINE_HEAD, 32 * |e.hashes|) == Concat(e.hashes)
    ensures RecordAt(b[..end], at, e)
  {
    hide Concat, FromLe;
    var section := b[..end];
    assert Slice(section, at + 32, 8) == Slice(b, at + 32, 8);
    assert section[at..at + 32] == Slice(b, at, 32);
    assert section[at + ENGINE_HEAD..at + ENGINE_HEAD + 32 * |e.hashes|] == Slice(b, at + ENGINE_HEAD, 32 * |e.hashes|);
  }

  /** One record, for the block number `m` flagged for it. */
  ghost function RecordFor(n: nat, m: nat, rec: EngineRecord): (r: seq<Option<EngineRecord>>)
    ensures |r| == n
  {
    seq(n, i => if i == m then Some(rec) else None)
  }

  ghost function Nones(n: nat): (r: seq<Option<EngineRecord>>)
    ensures |r| == n && forall i :: 0 <= i < n ==> r[i] == None
  {
    seq(n, _ => None)
  }

  lemma {:induction false} NoRecords(section: seq<byte>, flags: seq<byte>, pos: nat)
    requires forall i :: 0 <= i < |flags| ==> !HasEngineRecord(flags[i])
    ensures ParseEngines(section, flags, pos) == Some(Nones(|flags|))
    decreases |flags|
  {
    if flags != [] {
      NoRecords(section, flags[1..], pos);
      assert [None] + Nones(|flags| - 1) == Nones(|flags|);
    } else {
      assert Nones(0) == [];
    }
  }

  lemma {:induction false} OneRecord(section: seq<byte>, flags: seq<byte>, pos: nat, m: nat, e: Engine)
    requires m < |flags| && (forall i :: 0 <= i < |flags| ==> (HasEngineRecord(flags[i]) <==> i == m)) && RecordAt(section, pos, e)
    ensures ParseEngines(section, flags, pos) == Some(RecordFor(|flags|, m, RecordOf(e)))
    decreases m
  {
    hide Concat, ReadU64;
    var rest := flags[1..];
    if m == 0 {
      NoRecords(section, rest, pos + ENGINE_HEAD + 32 * |e.hashes|);
      assert [Some(RecordOf(e))] + Nones(|rest|) == RecordFor(|flags|, m, RecordOf(e));
    } else {
      OneRecord(section, rest, pos, m - 1, e);
      assert [None] + RecordFor(|rest|, m - 1, RecordOf(e)) == RecordFor(|flags|, m, RecordOf(e));
    }
  }

  /** The flags ask for the engine record exactly where the caller has one: block `m`, if any. */
  ghost predicate FlagsMark(p: Parts, m: nat) {
    && |p.flags| == |p.blocks| && (p.engine.Some? ==> m < |p.flags|)
    && forall i :: 0 <= i < |p.flags| ==> (p.flags[i] / 2 % 2 == 1 <==> p.engine.Some? && i == m)
  }

  lemma EnginesParse(out: seq<byte>, p: Parts, chunks: seq<Chunk>, b: seq<byte>, end: nat, m: nat)
    requires LaidOut(out, p, chunks) && out <= b && Buildable(p) && FlagsMark(p, m)
    requires end <= |b| && end == Off(p, BLOCKS) + Size(p, BLOCKS)
    ensures EnginesOf(b[..end], Blocks(p.blocks, BlockAt(p, |p.blocks|)), p.flags)
            == Some(if p.engine.Some? then RecordFor(|p.flags|, m, RecordOf(p.engine.value)) else [])
  {
    hide LaidOut, Off, Size, RecordAt, BlockAt, Align8, FlagsEnd;
    if p.engine.Some? {
      assert HasEngineRecord(p.flags[m]);
      EngineReads(out, p, chunks, b, end);
      BlocksFitSection(p);
      AlignShift(Off(p, BLOCKS), FlagsEnd(p));
      OneRecord(b[..end], p.flags, Align8(BlockAt(p, |p.blocks|) + |p.flags|), m, p.engine.value);
    }
  }

  lemma BuiltIsAccepted(out: seq<byte>, p: Parts, chunks: seq<Chunk>, b: seq<byte>, d: Decoders)
    requires LaidOut(out, p, chunks) && out <= b && Buildable(p) && d.genesis(p.genesis) && d.ancestors(p.ancestors)
    requires |b| >= BUNDLE_HEADER && InRange(b)
    ensures Accepts(d, b)
  {
    hide LaidOut, Off, Size, ReadU32;
    ContentReads(out, p, chunks, b, 0);
    ContentReads(out, p, chunks, b, 2);
  }

  lemma ContentReads(out: seq<byte>, p: Parts, chunks: seq<Chunk>, b: seq<byte>, k: nat)
    requires LaidOut(out, p, chunks) && out <= b && Buildable(p) && k < SECTIONS && k != BLOCKS && |b| >= BUNDLE_HEADER
    ensures var s := SectionAt(b, k); s.End() <= |b| && b[s.off..s.End()] == Content(p, k)
  {
    hide Written, Off, BlockAt, BlocksIn, EngineIn, Le, HeaderFields, FieldChunks, ReadU32;
    SectionReads(out, p, chunks, b, k);
    ChunkHolds(out, chunks, |out|, b, Chunk(Off(p, k), Content(p, k)));
  }

  /** The guest loads a built bundle: the same blocks and flags, and the record where it was flagged. */
  lemma GuestLoadsBuilt(out: seq<byte>, p: Parts, chunks: seq<Chunk>, b: seq<byte>, sizes: nat, d: Decoders, m: nat)
    requires LaidOut(out, p, chunks) && out <= b && Buildable(p) && sizes >= U32 && FlagsMark(p, m)
    requires forall i :: 0 <= i < |p.blocks| ==> IsBlock(false, p.blocks[i])
    requires d.genesis(p.genesis) && d.ancestors(p.ancestors)
    ensures |b| >= BUNDLE_HEADER && Load(b, sizes, d).Some?
    ensures var r := Load(b, sizes, d).value;
            && r.bundle.blocks == p.blocks && r.bundle.flags == p.flags && Align8(r.bundle.size) == |out|
            && r.engines == if p.engine.Some? then RecordFor(|p.flags|, m, RecordOf(p.engine.value)) else []
  {
    hide LaidOut, Off, Size, ReadU32, ReadU64, ParseBlocks, FlagsOf, Counted, EndOf, IsBlock, BlockAt, EnginesOf, Disjoint, InRange, Accepts;
    BuiltIsStructured(out, p, chunks, b);
    BuiltIsAccepted(out, p, chunks, b, d);
    BuiltParses(false, out, p, chunks, b, sizes);
    SectionReads(out, p, chunks, b, BLOCKS);
    var s := SectionAt(b, BLOCKS);
    var section := b[..s.End()];
    CountFits(false, p);
    CountReads(out, p, chunks, b);
    assert Slice(section, s.off, 8) == Slice(b, s.off, 8);
    SameU64(section, b, s.off);
    CountedWhole(|p.blocks|, sizes);
    BlocksFitSection(p);
    BlocksStart(p, chunks);
    BlocksParse(false, out, p, chunks, b, s.End(), 0);
    assert p.blocks[0..] == p.blocks;
    EnginesParse(out, p, chunks, b, s.End(), m);
  }

  // ---------- The envelope ----------

  function Wrap(bundle: seq<byte>): seq<byte> {
    Le(MFBD_MAGIC, 4) + Le(MFBD_VERSION, 4) + Le(1, 8) + bundle
  }

  lemma WrapReads(bundle: seq<byte>)
    ensures var e := Wrap(bundle);
            && |e| == MFBD_HEADER + |bundle| && e[MFBD_HEADER..] == bundle
            && ReadU32(e, 0) == MFBD_MAGIC && ReadU32(e, 4) == MFBD_VERSION && ReadU64(e, 8) == 1
  {
    hide Le, FromLe;
    var e := Wrap(bundle);
    assert Slice(e, 0, 4) == Le(MFBD_MAGIC, 4) && Slice(e, 4, 4) == Le(MFBD_VERSION, 4) && Slice(e, 8, 8) == Le(1, 8);
    ReadsField4(e, 0, MFBD_MAGIC);
    ReadsField4(e, 4, MFBD_VERSION);
    ReadsField8(e, 8, 1);
  }

  /** The host's value for a wrapped bundle is its fold over the very blocks and flags the bundle was built from. */
  lemma WrappedFolds(keccak: seq<byte> -> seq<byte>, out: seq<byte>, p: Parts, chunks: seq<Chunk>, size: nat)
    requires LaidOut(out, p, chunks) && Buildable(p) && FlagsReadable(p)
    requires forall i :: 0 <= i < |p.blocks| ==> IsBlock(true, p.blocks[i])
    ensures ExpectedFor(keccak, Wrap(out)) == FoldBlocks(keccak, Bundle(size, p.blocks, p.flags), 0, Expected(ZeroHash(), 0))
  {
    hide LaidOut, ReadU32, ReadU64, ParseBundle, Wrap, IsBlock, FlagsReadable, FoldBlocks;
    WrapReads(out);
    BuiltParses(true, out, p, chunks, out, U64);
    var bundle := ParseBundle(true, out, U64).value;
    SizeIsIdle(keccak, bundle, Bundle(size, p.blocks, p.flags), 0, Expected(ZeroHash(), 0));
  }

  lemma {:induction false} SizeIsIdle(keccak: seq<byte> -> seq<byte>, x: Bundle, y: Bundle, i: nat, e: Expected)
    requires x.blocks == y.blocks && x.flags == y.flags && i <= |x.blocks|
    ensures FoldBlocks(keccak, x, i, e) == FoldBlocks(keccak, y, i, e)
    decreases |x.blocks| - i
  {
    hide HostItem, HostSkip;
    if i < |x.blocks| {
      SizeIsIdle(keccak, x, y, i + 1, e);
      var h := HostHashAndGas(keccak, x.blocks[i]);
      if h.Some? { SizeIsIdle(keccak, x, y, i + 1, Add(e, h.value)); }
    }
  }

  /** "MFBD", version 1, one bundle; "FBND", version 14. */
  const ENVELOPE_START: seq<byte> :=
    [0x4D, 0x46, 0x42, 0x44, 1, 0, 0, 0, 1, 0, 0, 0, 0, 0, 0, 0, 0x46, 0x42, 0x4E, 0x44, 14, 0, 0, 0]

  lemma LeOf4(v: nat, a: byte, b: byte, c: byte, d: byte)
    requires v == a + 256 * (b + 256 * (c + 256 * d))
    ensures Le(v, 4) == [a, b, c, d]
  {
    hide Le;
    var x := [a, b, c, d];
    assert x[1..] == [b, c, d] && [b, c, d][1..] == [c, d] && [c, d][1..] == [d];
    assert FromLe([d]) == d && FromLe([c, d]) == c + 256 * d;
    assert FromLe(x) == v;
    LeInverts(x);
  }

  lemma Starts(out: seq<byte>, p: Parts, chunks: seq<Chunk>)
    requires LaidOut(out, p, chunks)
    ensures |Wrap(out)| >= 24 && Wrap(out)[..24] == ENVELOPE_START
  {
    hide LaidOut, HeaderFields, Le, FromLe;
    FirstFields(p);
    FieldReads(out, p, chunks, out, 0);
    FieldReads(out, p, chunks, out, 1);
    LeInverts(Slice(out, 0, 4));
    LeInverts(Slice(out, 4, 4));
    LeOf4(BUNDLE_MAGIC, 0x46, 0x42, 0x4E, 0x44);
    LeOf4(BUNDLE_VERSION, 14, 0, 0, 0);
    LeOf4(MFBD_MAGIC, 0x4D, 0x46, 0x42, 0x44);
    LeOf4(MFBD_VERSION, 1, 0, 0, 0);
    LeOne();
    assert out[..8] == Slice(out, 0, 4) + Slice(out, 4, 4);
    assert Wrap(out)[..24] == Le(MFBD_MAGIC, 4) + Le(MFBD_VERSION, 4) + Le(1, 8) + out[..8];
  }

  lemma LeOne()
    ensures Le(1, 8) == [1, 0, 0, 0, 0, 0, 0, 0]
  {
    assert Le(0, 1) == [0];
    assert Le(0, 3) == [0, 0, 0];
    assert Le(0, 5) == [0, 0, 0, 0, 0];
    assert Le(0, 7) == [0, 0, 0, 0, 0, 0, 0];
  }

  /**
    What the host derives from a built bundle, by the headers of its blocks. Without a flag byte
    other than 0 and 2 it is the hash of the last block and the gas of all; with 1 or 3 for the
    last one, and 0 or 2 for the others, it is that of the blocks before the last.
    */
  ghost predicate Valued(keccak: seq<byte> -> seq<byte>, flags: seq<byte>, headers: seq<Headers.BlockHeader>, e: Expected) {
    var n, none := |headers|, Expected(ZeroHash(), 0);
    && Sums(keccak, none, Kept(headers, flags, n), e)
    && ((forall i :: 0 <= i < |flags| ==> flags[i] == 0 || flags[i] == 2) ==> Sums(keccak, none, headers, e))
    && (n > 0 && |flags| == n && (forall i :: 0 <= i < n - 1 ==> flags[i] == 0 || flags[i] == 2) && (flags[n - 1] == 1 || flags[n - 1] == 3) ==>
          Sums(keccak, none, headers[..n - 1], e))
  }

  lemma BuiltValue(keccak: seq<byte> -> seq<byte>, bundle: Bundle, headers: seq<Headers.BlockHeader>)
    requires HeadsAll(headers, bundle.blocks)
    ensures var e := FoldBlocks(keccak, bundle, 0, Expected(ZeroHash(), 0)); e.Some? && Valued(keccak, bundle.flags, headers, e.value)
  {
    hide FoldBlocks, Sums, HeadsAll;
    BlocksByHeaders(keccak, bundle, headers, Expected(ZeroHash(), 0));
    var n, flags := |headers|, bundle.flags;
    assert headers[..n] == headers;
    if forall i :: 0 <= i < |flags| ==> flags[i] == 0 || flags[i] == 2 {
      KeepsAll(headers, flags, n);
    }
    if n > 0 && |flags| == n && (forall i :: 0 <= i < n - 1 ==> flags[i] == 0 || flags[i] == 2) && (flags[n - 1] == 1 || flags[n - 1] == 3) {
      KeepsAll(headers, flags, n - 1);
    }
  }

  lemma BuiltValues(keccak: seq<byte> -> seq<byte>, bundle: Bundle)
    ensures var e := FoldBlocks(keccak, bundle, 0, Expected(ZeroHash(), 0));
            forall headers :: HeadsAll(headers, bundle.blocks) ==> e.Some? && Valued(keccak, bundle.flags, headers, e.value)
  {
    hide *;
    forall headers | HeadsAll(headers, bundle.blocks)
      ensures var e := FoldBlocks(keccak, bundle, 0, Expected(ZeroHash(), 0)); e.Some? && Valued(keccak, bundle.flags, headers, e.value)
    {
      BuiltValue(keccak, bundle, headers);
    }
  }

  /** Building, wrapping and parsing back, with the host's walker and with its whole derivation. */
  method BuildWrapParse(keccak: seq<byte> -> seq<byte>, p: Parts) returns (envelope: seq<byte>, r: Option<Expected>)
    requires Buildable(p) && FlagsReadable(p) && forall i :: 0 <= i < |p.blocks| ==> IsBlock(true, p.blocks[i])
    ensures |envelope| >= MFBD_HEADER + BUNDLE_HEADER && Structured(envelope[MFBD_HEADER..])
    ensures forall k :: 0 <= k < SECTIONS ==> SectionAt(envelope[MFBD_HEADER..], k).off % 8 == 0
    ensures exists size: nat ::
      && ParseBundle(true, envelope[MFBD_HEADER..], U64) == Some(Bundle(size, p.blocks, p.flags))
      && Align8(MFBD_HEADER + size) == |envelope|
      && r == FoldBlocks(keccak, Bundle(size, p.blocks, p.flags), 0, Expected(ZeroHash(), 0))
    ensures envelope[..24] == ENVELOPE_START
    ensures forall headers :: HeadsAll(headers, p.blocks) ==> r.Some? && Valued(keccak, p.flags, headers, r.value)
  {
    hide HeadsAll, Valued, LaidOut, ReadU32, ReadU64, ParseBundle, Wrap, IsBlock, FlagsReadable, FoldBlocks, Structured, Buildable, ExpectedFor, SectionAt;
    var out := BuildFlatBundle(p);
    ghost var chunks: seq<Chunk> :| LaidOut(out, p, chunks);
    envelope := Wrap(out);
    WrapReads(out);
    BuiltIsStructured(out, p, chunks, out);
    BuiltParses(true, out, p, chunks, out, U64);
    ghost var size := ParseBundle(true, out, U64).value.size;
    WrappedFolds(keccak, out, p, chunks, size);
    AlignShift(MFBD_HEADER, size);
    Starts(out, p, chunks);
    BuiltValues(keccak, Bundle(size, p.blocks, p.flags));
    r := ExpectedForMfbd(keccak, envelope);
  }

  // ---------- Bundles without blocks ----------

  /** Bytes with the header of a built bundle, up to its last section at least, and a count that reads as none. */
  ghost predicate CountsNone(b: seq<byte>, out: seq<byte>, p: Parts, sizes: nat)
    requires sizes > 0
  {
    && |b| >= BUNDLE_HEADER && |out| >= BUNDLE_HEADER
    && (forall x: nat :: x + 4 <= BUNDLE_HEADER ==> ReadU32(b, x) == ReadU32(out, x))
    && Off(p, SECTIONS - 1) + Size(p, SECTIONS - 1) <= |b| && Off(p, BLOCKS) + 8 <= |b|
    && Counted(ReadU64(b, Off(p, BLOCKS)), sizes) == 0
  }

  /** The sections of such bytes are those of the built bundle. */
  lemma SameSections(b: seq<byte>, out: seq<byte>, p: Parts, chunks: seq<Chunk>, sizes: nat)
    requires LaidOut(out, p, chunks) && Buildable(p) && sizes > 0 && CountsNone(b, out, p, sizes)
    ensures ReadU32(b, 0) == BUNDLE_MAGIC && ReadU32(b, 4) == BUNDLE_VERSION && Structured(b)
    ensures SectionAt(b, BLOCKS) == Section(Off(p, BLOCKS), Size(p, BLOCKS))
    ensures EndOf(b, SECTIONS) == Off(p, SECTIONS - 1) + Size(p, SECTIONS - 1)
  {
    hide LaidOut, Off, Size, ReadU32, ReadU64, Counted, Buildable;
    BuiltIsStructured(out, p, chunks, out);
    forall k | 0 <= k < SECTIONS
      ensures SectionAt(b, k) == SectionAt(out, k) == Section(Off(p, k), Size(p, k))
      ensures SectionAt(b, k).End() <= Off(p, SECTIONS - 1) + Size(p, SECTIONS - 1)
    {
      SectionReads(out, p, chunks, out, k);
      if k < SECTIONS - 1 { SectionsInOrder(p, k, SECTIONS - 1); }
    }
    EndIsLast(out, p, chunks, out, SECTIONS);
    SameEnds(b, out, SECTIONS);
  }

  lemma {:induction false} SameEnds(b: seq<byte>, out: seq<byte>, k: nat)
    requires |b| >= BUNDLE_HEADER && |out| >= BUNDLE_HEADER && k <= SECTIONS
    requires forall j :: 0 <= j < SECTIONS ==> SectionAt(b, j) == SectionAt(out, j)
    ensures EndOf(b, k) == EndOf(out, k)
  {
    hide ReadU32;
    if k > 0 { SameEnds(b, out, k - 1); }
  }

  /** Both readers take such bytes for a bundle without blocks, the guest's loader too. */
  lemma LoadsEmpty(b: seq<byte>, out: seq<byte>, p: Parts, chunks: seq<Chunk>, sizes: nat, d: Decoders, host: bool)
    requires LaidOut(out, p, chunks) && Buildable(p) && sizes > 0 && CountsNone(b, out, p, sizes)
    requires InRange(b) ==> Accepts(d, b)
    ensures var empty := Bundle(Off(p, SECTIONS - 1) + Size(p, SECTIONS - 1), [], []);
            ParseBundle(host, b, sizes) == Some(empty) && Load(b, sizes, d) == Some(Loaded(empty, []))
  {
    hide LaidOut, Off, Size, ReadU32, Counted, Buildable, Accepts, Disjoint, EndOf;
    SameSections(b, out, p, chunks, sizes);
    TotalIsAligned(p);
    var s := SectionAt(b, BLOCKS);
    SectionInRange(b, BLOCKS);
    var section := b[..s.End()];
    assert Slice(section, s.off, 8) == Slice(b, s.off, 8);
  }

  // ---------- A count the 32-bit guest does not see ----------

  lemma HeaderUntouched(out: seq<byte>, at: nat, v: seq<byte>)
    requires BUNDLE_HEADER <= at && at + |v| <= |out|
    ensures forall x: nat :: x + 4 <= BUNDLE_HEADER ==> ReadU32(Put(out, at, v), x) == ReadU32(out, x)
  {
    hide Put, FromLe;
    forall x: nat | x + 4 <= BUNDLE_HEADER
      ensures ReadU32(Put(out, at, v), x) == ReadU32(out, x)
    {
      PutElsewhereAt(out, at, v, x, 4);
    }
  }

  /**
    Where the guest's 32-bit count and the host's 64-bit one part: a bundle built without blocks,
    its count overwritten with 2^32, loads in the guest as a bundle without blocks, and the host
    refuses it.
    */
  lemma CountTruncates(out: seq<byte>, p: Parts, chunks: seq<Chunk>, d: Decoders)
    requires LaidOut(out, p, chunks) && Buildable(p) && p.blocks == []
    requires forall b: seq<byte> :: |b| >= BUNDLE_HEADER && InRange(b) ==> Accepts(d, b)
    ensures Off(p, BLOCKS) + 8 <= |out|
    ensures var b := Put(out, Off(p, BLOCKS), Le(U32, 8));
            && |b| >= BUNDLE_HEADER && Load(b, U32, d) == Some(Loaded(Bundle(Off(p, SECTIONS - 1) + Size(p, SECTIONS - 1), [], []), []))
            && ParseBundle(true, b, U64).None?
  {
    hide LaidOut, Off, Size, ReadU32, ReadU64, Put, Le, ParseBundle, Load, Buildable, Accepts, InRange, EndOf;
    CountReads(out, p, chunks, out);
    Laid(out, p, chunks);
    TotalIsAligned(p);
    FitsWhole(p);
    var at := Off(p, BLOCKS);
    var b := Put(out, at, Le(U32, 8));
    HeaderUntouched(out, at, Le(U32, 8));
    PutsField(out, at, U32, 8);
    ReadsField8(b, at, U32);
    assert Counted(U32, U32) == 0;
    LoadsEmpty(b, out, p, chunks, U32, d, false);
    SameSections(b, out, p, chunks, U32);
    HostParsesGuestBundle(b, U32);
  }

  lemma FitsWhole(p: Parts)
    ensures Off(p, SECTIONS - 1) + Size(p, SECTIONS - 1) <= Off(p, SECTIONS) && Off(p, BLOCKS) >= BUNDLE_HEADER
    ensures Buildable(p) ==> Off(p, SECTIONS) < U32
  {
    hide Size;
  }
}
