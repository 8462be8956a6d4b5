/**
  Inputs at which the guest's run and what is said of it part, built from the ground up: a block
  count that only the host sees, a bundle that starts past the input, and a failed run that
  leaves a pre-state root although it accepted nothing.
  */
module Divergence {
  import opened Basics
  import opened Bytes
  import opened Rlp
  import opened BlockRlp
  import opened FlatBundle
  import opened PublicOutput
  import opened BundleBuild
  import opened StateTransition

  // ---------- Oracles and parts ----------

  /** An oracle that accepts all it is asked, with one verdict for every block. */
  function Lenient(v: Verdict, stray: seq<byte>): (o: Oracle) {
    Oracle(Decoders(_ => true, _ => true), _ => true, _ => true, _ => true, _ => true, (_, _) => v, _ => stray)
  }

  lemma LenientIsSane(v: Verdict, stray: seq<byte>)
    requires forall k :: 0 <= k < |v.blobHashes| ==> |v.blobHashes[k]| == 32
    ensures SaneOracle(Lenient(v, stray))
    ensures forall b: seq<byte> :: |b| >= BUNDLE_HEADER && InRange(b) ==> Accepts(Lenient(v, stray).decoders, b)
    ensures forall x: seq<byte> :: Lenient(v, stray).decoders.genesis(x) && Lenient(v, stray).decoders.ancestors(x)
  {
    hide InRange, ReadU32;
  }

  const NO_VERDICT := Verdict(false, [], true, false, true, [], true, true)

  /** A bundle without blocks, of the given network name. */
  function Bare(network: seq<byte>): Parts {
    Parts([], [], [], [], [], network, [], None)
  }

  lemma BareIsBuildable(network: seq<byte>)
    requires |network| < 0x1_0000
    ensures Buildable(Bare(network)) && Off(Bare(network), SECTIONS - 1) == 64 && Size(Bare(network), SECTIONS - 1) == |network|
  {
    var p := Bare(network);
    assert Off(p, 0) == 56;
    assert Off(p, 1) == 56;
    assert Size(p, 1) == 8;
    assert Off(p, 2) == 64;
    assert Off(p, 3) == 64;
    assert Off(p, 4) == 64;
    assert Off(p, 5) == 64;
  }

  // ---------- One bundle in an envelope ----------

  /** A run over one wrapped bundle is the run over the bundle. */
  lemma WrappedRun(keccak: seq<byte> -> seq<byte>, o: Oracle, bundle: seq<byte>, sizes: nat, loaded: Loaded)
    requires sizes > 0 && Load(bundle, sizes, o.decoders) == Some(loaded)
    ensures GoodEnvelope(keccak, o, Wrap(bundle), sizes) <==> GoodBundle(keccak, o, 0, loaded)
    ensures Taken(keccak, o, Wrap(bundle), sizes) == Takes(keccak, o, 0, loaded)
    ensures RootLeft(keccak, o, Wrap(bundle), sizes) == BundleRoot(keccak, o, 0, loaded)
  {
    hide *;
    var e := Wrap(bundle);
    WrapReads(bundle);
    OpensWhen(e);
    TailInside(o, e, 0, MFBD_HEADER);
    var next := NextStart(MFBD_HEADER, loaded.bundle.size, sizes);
    RunSteps(keccak, o, e, sizes, 0, 1, MFBD_HEADER, Some(loaded));
    TakesSteps(keccak, o, e, sizes, 0, 1, MFBD_HEADER, Some(loaded));
    RootSteps(keccak, o, e, sizes, 0, 1, MFBD_HEADER, Some(loaded));
    RunEnds(keccak, o, e, sizes, 1, next);
    OrElseIs(BundleRoot(keccak, o, 0, loaded), None);
    EnvelopeIs(keccak, o, e, sizes);
  }

  /** The constants the runs below are made of. */
  lemma Constants(sizes: nat)
    requires sizes == U32 || sizes == U64
    ensures sizes >= U32 && U32 > 0 && U64 > 0 && MFBD_HEADER == 16 && BUNDLE_HEADER == 56 && BLOCKS < SECTIONS
  {
  }

  lemma OpensWhen(e: seq<byte>)
    requires |e| >= MFBD_HEADER && ReadU32(e, 4) == MFBD_VERSION
    ensures Opens(e)
  {
    hide ReadU32;
  }

  lemma TailInside(o: Oracle, e: seq<byte>, k: nat, cursor: nat)
    ensures cursor <= |e| ==> Tail(o, e, k, cursor) == e[cursor..]
    ensures cursor > |e| ==> Tail(o, e, k, cursor) == o.stray(k)
  {
  }

  lemma EnvelopeIs(keccak: seq<byte> -> seq<byte>, o: Oracle, e: seq<byte>, sizes: nat)
    requires sizes > 0 && Opens(e) && |e| >= MFBD_HEADER
    ensures GoodEnvelope(keccak, o, e, sizes) <==> GoodRun(keccak, o, e, sizes, 0, ReadU64(e, 8), MFBD_HEADER)
    ensures Taken(keccak, o, e, sizes) == TakenFrom(keccak, o, e, sizes, 0, ReadU64(e, 8), MFBD_HEADER)
    ensures RootLeft(keccak, o, e, sizes) == RootFrom(keccak, o, e, sizes, 0, ReadU64(e, 8), MFBD_HEADER)
  {
    hide GoodRun, TakenFrom, RootFrom, ReadU64, ReadU32;
  }

  lemma EmptyIsGood(keccak: seq<byte> -> seq<byte>, v: Verdict, stray: seq<byte>, b: nat, loaded: Loaded)
    requires loaded.bundle.blocks == []
    ensures GoodBundle(keccak, Lenient(v, stray), b, loaded)
  {
  }

  // ---------- A count only the host sees ----------

  /** The run over this input succeeds on the 32-bit guest, and the host derives nothing from it. */
  method TruncatedCount(keccak: seq<byte> -> seq<byte>) returns (envelope: seq<byte>)
    ensures var o := Lenient(NO_VERDICT, []);
            SaneOracle(o) && GoodEnvelope(keccak, o, envelope, U32) && ExpectedFor(keccak, envelope).None?
  {
    hide *;
    Constants(U32);
    var p := Bare([]);
    assert p.blocks == [] by { BareIs([]); }
    BareIsBuildable([]);
    var out := BuildFlatBundle(p);
    ghost var chunks: seq<Chunk> :| LaidOut(out, p, chunks);
    ghost var o := Lenient(NO_VERDICT, []);
    NoHashes();
    LenientIsSane(NO_VERDICT, []);
    CountTruncates(out, p, chunks, o.decoders);
    var b := Put(out, Off(p, BLOCKS), Le(U32, 8));
    envelope := Wrap(b);
    ghost var loaded := Load(b, U32, o.decoders).value;
    WrappedRun(keccak, o, b, U32, loaded);
    EmptyIsGood(keccak, NO_VERDICT, [], 0, loaded);
    HostRefuses(keccak, b);
  }

  lemma BareIs(network: seq<byte>)
    ensures Bare(network).blocks == [] && Bare(network).network == network
  {
  }

  lemma NoHashes()
    ensures NO_VERDICT.blobHashes == []
  {
  }

  lemma HostRefuses(keccak: seq<byte> -> seq<byte>, bundle: seq<byte>)
    requires ParseBundle(true, bundle, U64).None?
    ensures ExpectedFor(keccak, Wrap(bundle)).None?
  {
    hide Wrap, ParseBundle, ReadU32, ReadU64;
    WrapReads(bundle);
  }

  // ---------- A bundle that starts past the input ----------

  /** Two bundles are announced, and the bytes end with the first. */
  function Announced(bundle: seq<byte>): seq<byte> {
    Le(MFBD_MAGIC, 4) + Le(MFBD_VERSION, 4) + Le(2, 8) + bundle
  }

  lemma AnnouncedReads(bundle: seq<byte>)
    ensures var e := Announced(bundle);
            && |e| == MFBD_HEADER + |bundle| && e[MFBD_HEADER..] == bundle
            && ReadU32(e, 0) == MFBD_MAGIC && ReadU32(e, 4) == MFBD_VERSION && ReadU64(e, 8) == 2
  {
    hide Le, FromLe;
    var e := Announced(bundle);
    assert Slice(e, 0, 4) == Le(MFBD_MAGIC, 4) && Slice(e, 4, 4) == Le(MFBD_VERSION, 4) && Slice(e, 8, 8) == Le(2, 8);
    ReadsField4(e, 0, MFBD_MAGIC);
    ReadsField4(e, 4, MFBD_VERSION);
    ReadsField8(e, 8, 2);
  }

  /** Cut off after its last section, a bundle without blocks still loads. */
  lemma CutLoads(out: seq<byte>, network: seq<byte>, chunks: seq<Chunk>, b: seq<byte>, sizes: nat, d: Decoders, host: bool)
    requires |network| < 0x1_0000 && LaidOut(out, Bare(network), chunks) && (sizes == U32 || sizes == U64)
    requires b <= out && 64 + |network| <= |b|
    requires forall x: seq<byte> :: |x| >= BUNDLE_HEADER && InRange(x) ==> Accepts(d, x)
    ensures var empty := Bundle(64 + |network|, [], []);
            ParseBundle(host, b, sizes) == Some(empty) && Load(b, sizes, d) == Some(Loaded(empty, []))
  {
    hide LaidOut, Off, Size, ReadU32, ReadU64, ParseBundle, Load, Accepts, InRange, Bare;
    BareIs(network);
    BareIsBuildable(network);
    var p := Bare(network);
    CountReads(out, p, chunks, out);
    FitsWhole(p);
    Laid(out, p, chunks);
    BlocksBeforeLast(p);
    assert CountsNone(b, out, p, sizes) by {
      PrefixReads(b, out);
      SameCount(b, out, Off(p, BLOCKS));
    }
    LoadsEmpty(b, out, p, chunks, sizes, d, host);
  }

  lemma BlocksBeforeLast(p: Parts)
    ensures Off(p, BLOCKS) + 8 <= Off(p, SECTIONS - 1)
  {
    hide Off, Size;
    TotalIsAligned(p);
    SectionsInOrder(p, BLOCKS, SECTIONS - 1);
  }

  lemma PrefixReads(b: seq<byte>, out: seq<byte>)
    requires b <= out
    ensures forall x: nat :: x + 4 <= |b| ==> ReadU32(b, x) == ReadU32(out, x)
  {
    hide FromLe;
    forall x: nat | x + 4 <= |b|
      ensures Slice(b, x, 4) == Slice(out, x, 4)
    {
    }
  }

  lemma SameCount(b: seq<byte>, out: seq<byte>, at: nat)
    requires b <= out && at + 8 <= |b|
    ensures ReadU64(b, at) == ReadU64(out, at)
  {
    assert Slice(b, at, 8) == Slice(out, at, 8);
  }

  /**
    The second bundle starts past this input. Where the guest reads a bundle there, on either
    size type, its run succeeds, and the host derives nothing.
    */
  method StrayBundle(keccak: seq<byte> -> seq<byte>, sizes: nat) returns (envelope: seq<byte>, stray: seq<byte>)
    requires sizes == U32 || sizes == U64
    ensures var o := Lenient(NO_VERDICT, stray);
            SaneOracle(o) && GoodEnvelope(keccak, o, envelope, sizes) && ExpectedFor(keccak, envelope).None?
  {
    hide *;
    Constants(sizes);
    var network: seq<byte> := [0];
    BareIs(network);
    BareIsBuildable(network);
    var p := Bare(network);
    stray := BuildFlatBundle(p);
    ghost var chunks: seq<Chunk> :| LaidOut(stray, p, chunks);
    ghost var o := Lenient(NO_VERDICT, stray);
    NoHashes();
    LenientIsSane(NO_VERDICT, stray);
    Laid(stray, p, chunks);
    FitsWhole(p);
    var cut := stray[..65];
    envelope := Announced(cut);
    CutLoads(stray, network, chunks, cut, sizes, o.decoders, false);
    CutLoads(stray, network, chunks, cut, U64, o.decoders, true);
    CutLoads(stray, network, chunks, stray, sizes, o.decoders, false);
    StrayRun(keccak, NO_VERDICT, stray, cut, sizes);
    HostStops(keccak, cut);
  }

  lemma StrayRun(keccak: seq<byte> -> seq<byte>, v: Verdict, stray: seq<byte>, cut: seq<byte>, sizes: nat)
    requires |cut| == 65 && (sizes == U32 || sizes == U64)
    requires var empty := Loaded(Bundle(65, [], []), []); var d := Lenient(v, stray).decoders;
             Load(cut, sizes, d) == Some(empty) && Load(stray, sizes, d) == Some(empty)
    ensures GoodEnvelope(keccak, Lenient(v, stray), Announced(cut), sizes)
  {
    hide *;
    Constants(sizes);
    var o, e, empty := Lenient(v, stray), Announced(cut), Loaded(Bundle(65, [], []), []);
    AnnouncedReads(cut);
    OpensWhen(e);
    EnvelopeIs(keccak, o, e, sizes);
    TailInside(o, e, 0, MFBD_HEADER);
    Starts(sizes);
    TailInside(o, e, 1, 88);
    StraysTo(v, stray, 1);
    RunSteps(keccak, o, e, sizes, 0, 2, MFBD_HEADER, Some(empty));
    RunSteps(keccak, o, e, sizes, 1, 2, 88, Some(empty));
    RunEnds(keccak, o, e, sizes, 2, NextStart(88, 65, sizes));
    EmptyIsGood(keccak, v, stray, 0, empty);
    EmptyIsGood(keccak, v, stray, 1, empty);
  }

  lemma StraysTo(v: Verdict, stray: seq<byte>, k: nat)
    ensures Lenient(v, stray).stray(k) == stray
  {
  }

  lemma Starts(sizes: nat)
    requires sizes == U32 || sizes == U64
    ensures NextStart(MFBD_HEADER, 65, sizes) == 88
  {
  }

  lemma HostStops(keccak: seq<byte> -> seq<byte>, cut: seq<byte>)
    requires |cut| == 65 && ParseBundle(true, cut, U64) == Some(Bundle(65, [], []))
    ensures ExpectedFor(keccak, Announced(cut)).None?
  {
    hide ParseBundle, ReadU32, ReadU64, Announced;
    var e := Announced(cut);
    AnnouncedReads(cut);
    var start := Expected(ZeroHash(), 0);
    assert FoldBundle(keccak, cut, start) == Some(Folded(65, start));
    assert Align8(MFBD_HEADER + 65) == 88 > |e|;
    assert FoldBundles(keccak, e, 88, 1, start).None?;
  }

  // ---------- A root left by a block that was not accepted ----------

  function Zeros(n: nat): (s: seq<byte>)
    ensures |s| == n
  {
    seq(n, _ => 0)
  }

  function PlainCell(kind: Kind): (c: Cell)
    ensures c.kind == kind
  {
    match kind
    case Fixed(n) => Cell(kind, Raw(Zeros(n)))
    case Uint(_) => Cell(kind, Num(0))
    case Data => Cell(kind, Raw([]))
  }

  function PlainCells(kinds: seq<Kind>): (cells: seq<Cell>)
    ensures |cells| == |kinds| && forall i :: 0 <= i < |kinds| ==> cells[i] == PlainCell(kinds[i])
  {
    seq(|kinds|, i requires 0 <= i < |kinds| => PlainCell(kinds[i]))
  }

  /** A header of zeros with the required fields only. */
  function PlainHeader(): Header { PlainCells(REQUIRED) }

  lemma {:induction false} PowerIsPositive(k: nat)
    ensures Pow256(k) > 0
  {
    if k > 0 { PowerIsPositive(k - 1); }
  }

  ghost predicate Small(kind: Kind) {
    match kind
    case Fixed(n) => 2 <= n <= 256
    case Uint(width) => width <= 32
    case Data => true
  }

  lemma PlainFits(kind: Kind)
    requires Small(kind)
    ensures BlockRlp.Fits(PlainCell(kind)) && |EncodeCell(PlainCell(kind))| <= 300
  {
    PowerIsPositive(32);
    if kind.Uint? { PowerIsPositive(kind.width); }
    if kind.Fixed? { HeadIsShort(kind.n); }
  }

  lemma HeadIsShort(n: nat)
    requires n < U64
    ensures |EncodeHead(false, n)| <= 9 && |EncodeHead(true, n)| <= 9
  {
    hide ToBigCompact, Pow256;
    if n >= 56 {
      PowersOfWidths();
      CompactRoundTrip(n, 8);
    }
  }

  lemma {:induction false} CellsAreShort(cells: seq<Cell>)
    requires AllTyped(cells) && forall i :: 0 <= i < |cells| ==> |EncodeCell(cells[i])| <= 300
    ensures |EncodeCells(cells)| <= 300 * |cells|
  {
    if cells != [] { CellsAreShort(cells[1..]); }
  }

  lemma PlainAllFit(kinds: seq<Kind>)
    requires forall i :: 0 <= i < |kinds| ==> Small(kinds[i])
    ensures AllFit(PlainCells(kinds)) && AllTyped(PlainCells(kinds)) && KindsOf(PlainCells(kinds)) == kinds
    ensures |EncodeCells(PlainCells(kinds))| <= 300 * |kinds|
  {
    hide EncodeCells, EncodeCell, PlainCell, Small, BlockRlp.Fits;
    var cells := PlainCells(kinds);
    forall i | 0 <= i < |cells|
      ensures BlockRlp.Fits(cells[i]) && (AllTyped(cells) ==> |EncodeCell(cells[i])| <= 300)
    {
      PlainFits(kinds[i]);
    }
    FitsIsTyped(cells);
    CellsAreShort(cells);
  }

  lemma RequiredAreSmall()
    ensures |REQUIRED| == 15 && forall i :: 0 <= i < |REQUIRED| ==> Small(REQUIRED[i])
  {
  }

  lemma PlainIsWritten()
    ensures BlockRlp.Written(PlainHeader(), []) && PlainHeader() + Flat([]) == PlainHeader() && Encodable(PlainHeader())
    ensures |EncodeHeader(PlainHeader())| <= 4509
  {
    hide PlainCells, EncodeHead, PayloadLength, EncodeCells, AllFit, AllTyped, REQUIRED, KindsOf, Small;
    RequiredAreSmall();
    PlainAllFit(REQUIRED);
    var h := PlainHeader();
    PayloadLengthIsSize(h);
    HeadIsShort(PayloadLength(h));
    assert h + Flat([]) == h;
  }

  function PlainBlock(): seq<byte>
  {
    PlainIsWritten();
    EncodeBlock(EncodeHeader(PlainHeader()), [])
  }

  lemma PlainBlockReads(body: seq<byte> -> bool)
    requires body([])
    ensures DecodeBlock(PlainBlock(), body).Some? && IsBlock(false, PlainBlock()) && |PlainBlock()| <= 4518
  {
    hide DecodeBlock, EncodeHeader, PlainHeader, GuestItem, EncodeHead, BlockRlp.Written, Encodable, Flat;
    PlainIsWritten();
    var header := EncodeHeader(PlainHeader());
    BlockDecodes(PlainHeader(), [], [], body);
    HeadReads(true, |header|, header);
    HeadIsShort(|header|);
    assert header + [] == header;
    assert PlainBlock() == EncodeHead(true, |header|) + header;
  }

  /** A bundle of that block, unflagged. */
  function Single(): Parts {
    Parts([], [PlainBlock()], [], [], [], [], [0], None)
  }

  lemma SingleIs()
    ensures Single().blocks == [PlainBlock()] && Single().flags == [0] && Single().engine == None
    ensures Single() == Parts([], [PlainBlock()], [], [], [], [], [0], None)
  {
    hide PlainBlock;
  }

  lemma SingleIsBuildable()
    ensures Buildable(Single()) && FlagsMark(Single(), 0)
  {
    hide *;
    SingleIs();
    PlainBlockReads(_ => true);
    SingleSizes(Single());
  }

  lemma SingleSizes(p: Parts)
    requires p == Parts([], p.blocks, [], [], [], [], [0], None) && |p.blocks| == 1 && |p.blocks[0]| <= 4518
    ensures Buildable(p) && FlagsMark(p, 0)
  {
    assert Padded(p.blocks, 0) == 0;
    assert Padded(p.blocks, 1) == Align8(|p.blocks[0]|);
    assert Off(p, 0) == 56;
    assert Off(p, 1) == 56;
    assert Size(p, 1) <= 4600;
    assert Off(p, 2) <= 4664;
    assert Off(p, 3) <= 4672;
    assert Off(p, 4) <= 4680;
    assert Off(p, 5) <= 4688;
  }

  /** The block is valid up to its root check, which reaches the walk and fails there. */
  function FailsAtRoot(root: seq<byte>): Verdict {
    Verdict(false, [], true, false, true, root, false, true)
  }

  /** The first block passes, is walked and fails: nothing is taken, and its parent's root is left. */
  lemma FailedWalk(keccak: seq<byte> -> seq<byte>, root: seq<byte>, loaded: Loaded)
    requires loaded.bundle.blocks == [PlainBlock()] && loaded.bundle.flags == [0] && loaded.engines == []
    ensures var o := Lenient(FailsAtRoot(root), []);
            && !GoodBundle(keccak, o, 0, loaded) && Takes(keccak, o, 0, loaded) == [] && BundleRoot(keccak, o, 0, loaded) == Some(root)
  {
    hide PlainBlock, DecodeBlock, HashOf, Linked;
    var o := Lenient(FailsAtRoot(root), []);
    PlainBlockReads(o.body);
    assert !Flagged(loaded.bundle, 0);
    assert !Settles(keccak, o, 0, loaded, 0);
    StopIs(keccak, o, 0, loaded, 0, 0);
  }

  /** The run over this input fails, accepts nothing, and leaves the root its one block starts from. */
  method AnchorsNothing(keccak: seq<byte> -> seq<byte>, root: seq<byte>, sizes: nat) returns (envelope: seq<byte>)
    requires sizes == U32 || sizes == U64
    ensures var o := Lenient(FailsAtRoot(root), []);
            && SaneOracle(o) && !GoodEnvelope(keccak, o, envelope, sizes)
            && Taken(keccak, o, envelope, sizes) == [] && RootLeft(keccak, o, envelope, sizes) == Some(root)
  {
    hide *;
    Constants(sizes);
    var p := Single();
    SingleIsBuildable();
    var out := BuildFlatBundle(p);
    ghost var chunks: seq<Chunk> :| LaidOut(out, p, chunks);
    ghost var o := Lenient(FailsAtRoot(root), []);
    SingleIs();
    FailsWithoutHashes(root);
    LenientIsSane(FailsAtRoot(root), []);
    PlainBlockReads(_ => true);
    Laid(out, p, chunks);
    GuestLoadsBuilt(out, p, chunks, out, sizes, o.decoders, 0);
    envelope := Wrap(out);
    ghost var loaded := Load(out, sizes, o.decoders).value;
    WrappedRun(keccak, o, out, sizes, loaded);
    FailedWalk(keccak, root, loaded);
  }

  lemma FailsWithoutHashes(root: seq<byte>)
    ensures FailsAtRoot(root).blobHashes == []
  {
  }
}
