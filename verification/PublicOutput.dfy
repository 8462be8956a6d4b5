/**
  The host's derivation of the guest's public output from the input alone
  (prover/prover_airbender/src/public_output.rs).
  */
module PublicOutput {
  import opened Basics
  import opened Bytes
  import opened Rlp
  import opened BlockRlp
  import opened Headers
  import opened FlatBundle

  const MFBD_MAGIC: nat := 0x4442_464D
  const MFBD_VERSION: nat := 1
  const MFBD_HEADER: nat := 16

  function ZeroHash(): (hash: seq<byte>)
    ensures |hash| == 32 && forall i :: 0 <= i < 32 ==> hash[i] == 0
  {
    seq(32, _ => 0)
  }

  /** The hash of the last block, and the wrapping sum of the gas of all. */
  datatype Expected = Expected(blockHash: seq<byte>, gasUsed: nat)

  function Add(e: Expected, x: HashAndGas): Expected {
    Expected(x.hash, (e.gasUsed + x.gas) % U64)
  }

  predicate Flagged(bundle: Bundle, i: nat) {
    i < |bundle.flags| && ExpectInvalid(bundle.flags[i])
  }

  /** The unflagged blocks from number `i` on, folded in. */
  function FoldBlocks(keccak: seq<byte> -> seq<byte>, bundle: Bundle, i: nat, e: Expected): Option<Expected>
    requires i <= |bundle.blocks|
    decreases |bundle.blocks| - i
  {
    if i == |bundle.blocks| then Some(e)
    else if Flagged(bundle, i) then FoldBlocks(keccak, bundle, i + 1, e)
    else match HostHashAndGas(keccak, bundle.blocks[i])
      case None => None
      case Some(x) => FoldBlocks(keccak, bundle, i + 1, Add(e, x))
  }

  datatype Folded = Folded(size: nat, expected: Expected)

  function FoldBundle(keccak: seq<byte> -> seq<byte>, b: seq<byte>, e: Expected): (r: Option<Folded>)
    ensures r.Some? ==> r.value.size <= |b|
  {
    match ParseBundle(true, b, U64)
    case None => None
    case Some(bundle) =>
      match FoldBlocks(keccak, bundle, 0, e)
      case None => None
      case Some(e') => Some(Folded(bundle.size, e'))
  }

  /** `n` bundles from `cursor` on. */
  function FoldBundles(keccak: seq<byte> -> seq<byte>, envelope: seq<byte>, cursor: nat, n: nat, e: Expected): Option<Expected>
    decreases n
  {
    if n == 0 then Some(e)
    else if cursor > |envelope| then None
    else match FoldBundle(keccak, envelope[cursor..], e)
      case None => None
      case Some(f) => FoldBundles(keccak, envelope, Align8(cursor + f.size), n - 1, f.expected)
  }

  function ExpectedFor(keccak: seq<byte> -> seq<byte>, envelope: seq<byte>): Option<Expected> {
    if |envelope| < MFBD_HEADER || ReadU32(envelope, 0) != MFBD_MAGIC || ReadU32(envelope, 4) != MFBD_VERSION then None
    else FoldBundles(keccak, envelope, MFBD_HEADER, ReadU64(envelope, 8), Expected(ZeroHash(), 0))
  }

  // ---------- The same, by the headers of the blocks ----------

  /** These are the headers of the blocks, in order. */
  ghost predicate HeadsAll(headers: seq<BlockHeader>, blocks: seq<seq<byte>>) {
    |headers| == |blocks| && forall i :: 0 <= i < |blocks| ==> Heads(headers[i], blocks[i]) && |blocks[i]| < U32
  }

  /** The first `n` headers without those whose flag byte is odd. */
  ghost function Kept(headers: seq<BlockHeader>, flags: seq<byte>, n: nat): seq<BlockHeader>
    requires n <= |headers|
  {
    if n == 0 then []
    else if n - 1 < |flags| && flags[n - 1] % 2 == 1 then Kept(headers, flags, n - 1)
    else Kept(headers, flags, n - 1) + [headers[n - 1]]
  }

  /** The hash of the last of these headers, and what was before plus the gas of all of them, in 64 bits. */
  ghost predicate Sums(keccak: seq<byte> -> seq<byte>, e: Expected, headers: seq<BlockHeader>, r: Expected) {
    && r.gasUsed == (e.gasUsed + TotalGas(headers)) % 0x1_0000_0000_0000_0000
    && r.blockHash == if headers == [] then e.blockHash
                      else if Short(headers[|headers| - 1]) then keccak(HeaderBytes(headers[|headers| - 1])) else []
  }

  lemma SumsJoin(keccak: seq<byte> -> seq<byte>, e: Expected, a: seq<BlockHeader>, m: Expected, b: seq<BlockHeader>, r: Expected)
    requires Sums(keccak, e, a, m) && Sums(keccak, m, b, r)
    ensures Sums(keccak, e, a + b, r)
  {
    hide TotalGas, HeaderBytes, Short;
    GasJoins(a, b);
    SumOfSums(e.gasUsed, TotalGas(a), TotalGas(b));
    if b != [] { assert (a + b)[|a + b| - 1] == b[|b| - 1]; } else { assert a + b == a; }
  }

  lemma SumOfSums(e: nat, a: nat, b: nat)
    ensures ((e + a) % U64 + b) % U64 == (e + (a + b)) % U64
  {
    WrapsOnce(e + a, b, U64);
  }

  lemma SumsNone(keccak: seq<byte> -> seq<byte>, e: Expected)
    requires e.gasUsed < U64
    ensures Sums(keccak, e, [], e)
  {
  }

  /** Folding in blocks gives the hash of the last kept header and the gas of the kept ones. */
  lemma {:induction false} FoldByHeaders(keccak: seq<byte> -> seq<byte>, bundle: Bundle, headers: seq<BlockHeader>, i: nat, e0: Expected, e: Expected)
    requires HeadsAll(headers, bundle.blocks) && i <= |headers| && Sums(keccak, e0, Kept(headers, bundle.flags, i), e)
    ensures var r := FoldBlocks(keccak, bundle, i, e); r.Some? && Sums(keccak, e0, Kept(headers, bundle.flags, |headers|), r.value)
    decreases |headers| - i
  {
    hide FoldBlocks, Sums, HeadsAll, Kept, HeaderBytes, Short;
    FoldStep(keccak, bundle, headers, i, e);
    if i < |headers| {
      if Flagged(bundle, i) {
        FoldByHeaders(keccak, bundle, headers, i + 1, e0, e);
      } else {
        var next := Expected(keccak(HeaderBytes(headers[i])), (e.gasUsed + headers[i].gasUsed) % U64);
        SumsOne(keccak, e, headers[i], next);
        SumsJoin(keccak, e0, Kept(headers, bundle.flags, i), e, [headers[i]], next);
        FoldByHeaders(keccak, bundle, headers, i + 1, e0, next);
      }
    }
  }

  lemma FoldStep(keccak: seq<byte> -> seq<byte>, bundle: Bundle, headers: seq<BlockHeader>, i: nat, e: Expected)
    requires HeadsAll(headers, bundle.blocks) && i <= |headers|
    ensures |headers| == |bundle.blocks| && (i == |headers| ==> FoldBlocks(keccak, bundle, i, e) == Some(e))
    ensures i < |headers| && Flagged(bundle, i) ==>
      && FoldBlocks(keccak, bundle, i, e) == FoldBlocks(keccak, bundle, i + 1, e)
      && Kept(headers, bundle.flags, i + 1) == Kept(headers, bundle.flags, i)
    ensures i < |headers| && !Flagged(bundle, i) ==>
      && Short(headers[i])
      && FoldBlocks(keccak, bundle, i, e)
         == FoldBlocks(keccak, bundle, i + 1, Expected(keccak(HeaderBytes(headers[i])), (e.gasUsed + headers[i].gasUsed) % U64))
      && Kept(headers, bundle.flags, i + 1) == Kept(headers, bundle.flags, i) + [headers[i]]
  {
    hide HostHashAndGas, Heads, HeaderBytes, Short;
    if i < |headers| && !Flagged(bundle, i) { HostReadsHeader(keccak, headers[i], bundle.blocks[i]); }
  }

  lemma SumsOne(keccak: seq<byte> -> seq<byte>, e: Expected, h: BlockHeader, r: Expected)
    requires Short(h) && r == Expected(keccak(HeaderBytes(h)), (e.gasUsed + h.gasUsed) % U64)
    ensures Sums(keccak, e, [h], r)
  {
    hide HeaderBytes, Short;
    assert TotalGas([h][..0]) == 0;
  }

  lemma BlocksByHeaders(keccak: seq<byte> -> seq<byte>, bundle: Bundle, headers: seq<BlockHeader>, e: Expected)
    requires HeadsAll(headers, bundle.blocks) && e.gasUsed < U64
    ensures var r := FoldBlocks(keccak, bundle, 0, e); r.Some? && Sums(keccak, e, Kept(headers, bundle.flags, |headers|), r.value)
  {
    hide FoldBlocks, Sums, HeadsAll;
    SumsNone(keccak, e);
    FoldByHeaders(keccak, bundle, headers, 0, e, e);
  }

  lemma {:induction false} KeepsAll(headers: seq<BlockHeader>, flags: seq<byte>, n: nat)
    requires n <= |headers| && forall i :: 0 <= i < n && i < |flags| ==> flags[i] == 0 || flags[i] == 2
    ensures Kept(headers, flags, n) == headers[..n]
  {
    if n > 0 { KeepsAll(headers, flags, n - 1); }
  }

  /** The bundles stand one behind the other from `cursor` on, and these are their headers. */
  ghost predicate Stand(envelope: seq<byte>, cursor: nat, bundles: seq<Bundle>, headers: seq<seq<BlockHeader>>)
    decreases |bundles|
  {
    if bundles == [] || headers == [] then bundles == [] && headers == []
    else
      && cursor <= |envelope| && ParseBundle(true, envelope[cursor..], U64) == Some(bundles[0]) && HeadsAll(headers[0], bundles[0].blocks)
      && Stand(envelope, Align8(cursor + bundles[0].size), bundles[1..], headers[1..])
  }

  ghost function KeptOf(bundles: seq<Bundle>, headers: seq<seq<BlockHeader>>): seq<BlockHeader>
    requires |bundles| == |headers|
  {
    if bundles == [] then [] else Kept(headers[0], bundles[0].flags, |headers[0]|) + KeptOf(bundles[1..], headers[1..])
  }

  lemma {:induction false} BundlesByHeaders(keccak: seq<byte> -> seq<byte>, envelope: seq<byte>, cursor: nat, bundles: seq<Bundle>,
                                            headers: seq<seq<BlockHeader>>, e: Expected)
    requires Stand(envelope, cursor, bundles, headers) && e.gasUsed < U64
    ensures |bundles| == |headers|
    ensures var r := FoldBundles(keccak, envelope, cursor, |bundles|, e); r.Some? && Sums(keccak, e, KeptOf(bundles, headers), r.value)
    decreases |bundles|
  {
    hide ParseBundle, FoldBlocks, HeadsAll, Sums, Kept;
    if bundles == [] {
      SumsNone(keccak, e);
    } else {
      BlocksByHeaders(keccak, bundles[0], headers[0], e);
      var m := FoldBlocks(keccak, bundles[0], 0, e).value;
      SumsBound(keccak, e, Kept(headers[0], bundles[0].flags, |headers[0]|), m);
      var next := Align8(cursor + bundles[0].size);
      BundlesByHeaders(keccak, envelope, next, bundles[1..], headers[1..], m);
      var r := FoldBundles(keccak, envelope, next, |bundles| - 1, m).value;
      SumsJoin(keccak, e, Kept(headers[0], bundles[0].flags, |headers[0]|), m, KeptOf(bundles[1..], headers[1..]), r);
    }
  }

  lemma SumsBound(keccak: seq<byte> -> seq<byte>, e: Expected, headers: seq<BlockHeader>, r: Expected)
    requires Sums(keccak, e, headers, r)
    ensures r.gasUsed < U64
  {
    hide TotalGas;
  }

  method AddBundleBlocks(keccak: seq<byte> -> seq<byte>, b: seq<byte>, e0: Expected) returns (r: Option<Folded>)
    ensures r == FoldBundle(keccak, b, e0)
    ensures var bundle := ParseBundle(true, b, U64);
            bundle.Some? && e0.gasUsed < U64 ==> forall headers :: HeadsAll(headers, bundle.value.blocks) ==>
              && r.Some? && r.value.size == bundle.value.size
              && Sums(keccak, e0, Kept(headers, bundle.value.flags, |headers|), r.value.expected)
  {
    AddsByHeaders(keccak, b, e0);
    hide ParseBlocks, ReadU32, ReadU64, Counted, EndOf, FlagsOf, HostHashAndGas, InRange;
    if |b| < BUNDLE_HEADER || ReadU32(b, 0) != BUNDLE_MAGIC || ReadU32(b, 4) != BUNDLE_VERSION { return None; }
    var size := SectionEnds(b);
    if size.None? { return None; }
    var s := SectionAt(b, BLOCKS);
    SectionInRange(b, BLOCKS);
    if s.size < 8 { return None; }
    var section := b[..s.End()];
    var blocks := ReadBlocks(true, section, s.off + 8, Counted(ReadU64(section, s.off), U64));
    if blocks.None? { return None; }
    var bundle := Bundle(size.value, blocks.value.items, FlagsOf(section, blocks.value));
    var e := FoldAll(keccak, bundle, e0);
    if e.None? { return None; }
    r := Some(Folded(size.value, e.value));
  }

  lemma AddsByHeaders(keccak: seq<byte> -> seq<byte>, b: seq<byte>, e: Expected)
    ensures var bundle, r := ParseBundle(true, b, U64), FoldBundle(keccak, b, e);
            bundle.Some? && e.gasUsed < U64 ==> forall headers :: HeadsAll(headers, bundle.value.blocks) ==>
              && r.Some? && r.value.size == bundle.value.size
              && Sums(keccak, e, Kept(headers, bundle.value.flags, |headers|), r.value.expected)
  {
    hide ParseBundle, FoldBlocks, HeadsAll, Sums, Kept;
    var bundle := ParseBundle(true, b, U64);
    if bundle.Some? && e.gasUsed < U64 {
      forall headers | HeadsAll(headers, bundle.value.blocks)
        ensures var r := FoldBundle(keccak, b, e);
                && r.Some? && r.value.size == bundle.value.size
                && Sums(keccak, e, Kept(headers, bundle.value.flags, |headers|), r.value.expected)
      {
        BlocksByHeaders(keccak, bundle.value, headers, e);
      }
    }
  }

  /** The range check of the six sections, and the end of the last. */
  method SectionEnds(b: seq<byte>) returns (r: Option<nat>)
    requires |b| >= BUNDLE_HEADER
    ensures r.Some? <==> InRange(b)
    ensures r.Some? ==> r.value == EndOf(b, SECTIONS)
  {
    hide ReadU32;
    var size := BUNDLE_HEADER;
    for k := 0 to SECTIONS
      invariant size == EndOf(b, k) && forall j :: 0 <= j < k ==> SectionAt(b, j).End() <= |b|
    {
      var end := SectionAt(b, k).End();
      if end > |b| { return None; }
      if end > size { size := end; }
    }
    r := Some(size);
  }

  method FoldAll(keccak: seq<byte> -> seq<byte>, bundle: Bundle, e0: Expected) returns (r: Option<Expected>)
    ensures r == FoldBlocks(keccak, bundle, 0, e0)
  {
    hide HostHashAndGas;
    var e := e0;
    for i := 0 to |bundle.blocks|
      invariant FoldBlocks(keccak, bundle, i, e) == FoldBlocks(keccak, bundle, 0, e0)
    {
      if Flagged(bundle, i) { continue; }
      var x := BlockHashAndGas(keccak, bundle.blocks[i]);
      if x.None? { return None; }
      e := Add(e, x.value);
    }
    r := Some(e);
  }

  /** `expected_for_mfbd`. */
  method ExpectedForMfbd(keccak: seq<byte> -> seq<byte>, envelope: seq<byte>) returns (r: Option<Expected>)
    ensures r == ExpectedFor(keccak, envelope)
    ensures |envelope| >= MFBD_HEADER && ReadU32(envelope, 0) == MFBD_MAGIC && ReadU32(envelope, 4) == MFBD_VERSION ==>
      forall bundles, headers :: Stand(envelope, MFBD_HEADER, bundles, headers) && |bundles| == |headers| == ReadU64(envelope, 8) ==>
        r.Some? && Sums(keccak, Expected(ZeroHash(), 0), KeptOf(bundles, headers), r.value)
  {
    hide ReadU32, ReadU64, FoldBundle, Stand, Sums, KeptOf, HeadsAll, Kept, ParseBundle;
    ExpectedByHeaders(keccak, envelope);
    if |envelope| < MFBD_HEADER || ReadU32(envelope, 0) != MFBD_MAGIC || ReadU32(envelope, 4) != MFBD_VERSION { return None; }
    var n := ReadU64(envelope, 8);
    var e, cursor: nat := Expected(ZeroHash(), 0), MFBD_HEADER;
    for i := 0 to n
      invariant FoldBundles(keccak, envelope, cursor, n - i, e) == ExpectedFor(keccak, envelope)
    {
      if cursor > |envelope| { return None; }
      var f := AddBundleBlocks(keccak, envelope[cursor..], e);
      if f.None? { return None; }
      e, cursor := f.value.expected, Align8(cursor + f.value.size);
    }
    r := Some(e);
  }

  lemma ExpectedByHeaders(keccak: seq<byte> -> seq<byte>, envelope: seq<byte>)
    ensures |envelope| >= MFBD_HEADER && ReadU32(envelope, 0) == MFBD_MAGIC && ReadU32(envelope, 4) == MFBD_VERSION ==>
      forall bundles, headers :: Stand(envelope, MFBD_HEADER, bundles, headers) && |bundles| == |headers| == ReadU64(envelope, 8) ==>
        var r := ExpectedFor(keccak, envelope); r.Some? && Sums(keccak, Expected(ZeroHash(), 0), KeptOf(bundles, headers), r.value)
  {
    hide ReadU32, ReadU64, FoldBundles, Stand, Sums;
    if |envelope| >= MFBD_HEADER {
      forall bundles, headers | Stand(envelope, MFBD_HEADER, bundles, headers) && |bundles| == |headers| == ReadU64(envelope, 8)
        ensures var r := FoldBundles(keccak, envelope, MFBD_HEADER, |bundles|, Expected(ZeroHash(), 0));
                r.Some? && Sums(keccak, Expected(ZeroHash(), 0), KeptOf(bundles, headers), r.value)
      {
        BundlesByHeaders(keccak, envelope, MFBD_HEADER, bundles, headers, Expected(ZeroHash(), 0));
      }
    }
  }

  // ---------- The committed words ----------

  /** The words an honest guest leaves for a hash. */
  function Words(hash: seq<byte>): (w: seq<nat>)
    requires |hash| == 32
    ensures |w| == 8 && forall i :: 0 <= i < 8 ==> w[i] == FromLe(hash[4 * i..4 * i + 4])
  {
    seq(8, i requires 0 <= i < 8 => FromLe(hash[4 * i..4 * i + 4]))
  }

  /** The value that output words commit. */
  method Committed(words: seq<nat>) returns (bytes: seq<byte>)
    requires |words| == 8 && forall i :: 0 <= i < 8 ==> words[i] < U32
    ensures |bytes| == 32
    ensures forall hash :: |hash| == 32 ==> (bytes == hash <==> words == Words(hash))
  {
    bytes := [];
    for i := 0 to 8
      invariant |bytes| == 4 * i
      invariant forall j :: 0 <= j < i ==> bytes[4 * j..4 * j + 4] == Le(words[j], 4)
    {
      ghost var before := bytes;
      bytes := bytes + Le(words[i], 4);
      assert forall j :: 0 <= j < i ==> bytes[4 * j..4 * j + 4] == before[4 * j..4 * j + 4];
    }
    forall hash | |hash| == 32
      ensures bytes == hash <==> words == Words(hash)
    {
      CommitsExactly(words, bytes, hash);
    }
  }

  lemma CommitsExactly(words: seq<nat>, bytes: seq<byte>, hash: seq<byte>)
    requires |words| == 8 && |bytes| == 32 == |hash| && forall i :: 0 <= i < 8 ==> words[i] < U32
    requires forall j :: 0 <= j < 8 ==> bytes[4 * j..4 * j + 4] == Le(words[j], 4)
    ensures bytes == hash <==> words == Words(hash)
  {
    hide Le, FromLe;
    PowersOfWidths();
    forall j | 0 <= j < 8
      ensures words[j] == FromLe(bytes[4 * j..4 * j + 4])
      ensures words[j] == Words(hash)[j] ==> bytes[4 * j..4 * j + 4] == hash[4 * j..4 * j + 4]
    {
      LeRoundTrip(words[j], 4);
      LeInverts(hash[4 * j..4 * j + 4]);
    }
    if words == Words(hash) {
      forall k | 0 <= k < 32
        ensures bytes[k] == hash[k]
      {
        var j := k / 4;
        assert words[j] == Words(hash)[j] && bytes[4 * j..4 * j + 4] == hash[4 * j..4 * j + 4];
        assert bytes[4 * j..4 * j + 4][k - 4 * j] == hash[4 * j..4 * j + 4][k - 4 * j];
      }
    }
  }
}
