/**
  Block headers by name: the record of zilk_core/core/types/block.hpp, its encoding field by field
  in the order of zilk_core/core/types/block.cpp, and what guest and host get back from the bytes.
  */
module Headers {
  import opened Basics
  import opened Bytes
  import opened Rlp
  import opened BlockRlp

  datatype BlobFields = BlobFields(blobGasUsed: nat, excessBlobGas: nat, parentBeaconBlockRoot: seq<byte>)

  datatype BlockHeader = BlockHeader(
    parentHash: seq<byte>, ommersHash: seq<byte>, beneficiary: seq<byte>, stateRoot: seq<byte>,
    transactionsRoot: seq<byte>, receiptsRoot: seq<byte>, logsBloom: seq<byte>, difficulty: nat, number: nat,
    gasLimit: nat, gasUsed: nat, timestamp: nat, extraData: seq<byte>, prevRandao: seq<byte>, nonce: seq<byte>,
    baseFeePerGas: Option<nat>, withdrawalsRoot: Option<seq<byte>>, blob: Option<BlobFields>,
    requestsHash: Option<seq<byte>>, blockAccessListHash: Option<seq<byte>>, slotNumber: Option<nat>)

  predicate Hash32(x: seq<byte>) { |x| == 32 }
  ghost predicate Word256(v: nat) { v < Pow256(32) }

  ghost predicate ProperRequired(h: BlockHeader) {
    && Hash32(h.parentHash) && Hash32(h.ommersHash) && |h.beneficiary| == 20 && Hash32(h.stateRoot)
    && Hash32(h.transactionsRoot) && Hash32(h.receiptsRoot) && |h.logsBloom| == 256
    && Word256(h.difficulty) && h.number < U64 && h.gasLimit < U64 && h.gasUsed < U64 && h.timestamp < U64
    && |h.extraData| < U64 && Hash32(h.prevRandao) && |h.nonce| == 8
  }

  const FORKS: nat := 6

  /** What a fork brought has the size of its type, and comes with what the fork before brought. */
  ghost predicate ProperFork(h: BlockHeader, k: nat) {
    match k
    case 0 => h.baseFeePerGas.Some? ==> Word256(h.baseFeePerGas.value)
    case 1 => h.withdrawalsRoot.Some? ==> Hash32(h.withdrawalsRoot.value) && h.baseFeePerGas.Some?
    case 2 =>
      h.blob.Some? ==>
        && h.blob.value.blobGasUsed < U64 && h.blob.value.excessBlobGas < U64
        && Hash32(h.blob.value.parentBeaconBlockRoot) && h.withdrawalsRoot.Some?
    case 3 => h.requestsHash.Some? ==> Hash32(h.requestsHash.value) && h.blob.Some?
    case 4 => h.blockAccessListHash.Some? ==> Hash32(h.blockAccessListHash.value) && h.requestsHash.Some?
    case 5 => h.slotNumber.Some? ==> h.slotNumber.value < U64 && h.blockAccessListHash.Some?
    case _ => true
  }

  /** Every field has the size of its type, and a field of a later fork comes with those of the earlier ones. */
  ghost predicate Proper(h: BlockHeader) {
    && ProperRequired(h)
    && ProperFork(h, 0) && ProperFork(h, 1) && ProperFork(h, 2) && ProperFork(h, 3) && ProperFork(h, 4) && ProperFork(h, 5)
  }

  lemma Widths()
    ensures Pow256(8) == U64 && U64 < Pow256(32)
  {
    PowersOfWidths();
    PowersGrow(9, 32);
    assert Pow256(9) == 256 * Pow256(8);
  }

  // ---------- The encoding, field by field ----------

  ghost function OptionalBytes(x: Option<seq<byte>>): seq<seq<byte>>
    requires x.Some? ==> |x.value| < U64
  {
    if x.Some? then [EncodeBytes(x.value)] else []
  }

  ghost function OptionalUint(x: Option<nat>): seq<seq<byte>>
    requires x.Some? ==> Word256(x.value)
  {
    if x.Some? then [EncodeUint(x.value)] else []
  }

  ghost function BlobItems(x: Option<BlobFields>): seq<seq<byte>>
    requires x.Some? ==> Word256(x.value.blobGasUsed) && Word256(x.value.excessBlobGas) && Hash32(x.value.parentBeaconBlockRoot)
  {
    if x.None? then []
    else [EncodeUint(x.value.blobGasUsed), EncodeUint(x.value.excessBlobGas), EncodeBytes(x.value.parentBeaconBlockRoot)]
  }

  ghost function RequiredItems(h: BlockHeader): seq<seq<byte>>
    requires Proper(h)
  {
    Widths();
    [EncodeBytes(h.parentHash), EncodeBytes(h.ommersHash), EncodeBytes(h.beneficiary), EncodeBytes(h.stateRoot),
     EncodeBytes(h.transactionsRoot), EncodeBytes(h.receiptsRoot), EncodeBytes(h.logsBloom), EncodeUint(h.difficulty),
     EncodeUint(h.number), EncodeUint(h.gasLimit), EncodeUint(h.gasUsed), EncodeUint(h.timestamp),
     EncodeBytes(h.extraData), EncodeBytes(h.prevRandao), EncodeBytes(h.nonce)]
  }

  /** The items of a header, one for each field it has. */
  ghost function Items(h: BlockHeader): seq<seq<byte>>
    requires Proper(h)
  {
    Widths();
    RequiredItems(h) + OptionalUint(h.baseFeePerGas) + OptionalBytes(h.withdrawalsRoot) + BlobItems(h.blob)
    + OptionalBytes(h.requestsHash) + OptionalBytes(h.blockAccessListHash) + OptionalUint(h.slotNumber)
  }

  ghost function Joined(items: seq<seq<byte>>): seq<byte> {
    if items == [] then [] else items[0] + Joined(items[1..])
  }

  /** A header whose encoding has a length a block can announce. */
  ghost predicate Short(h: BlockHeader) {
    Proper(h) && |Joined(Items(h))| < U64
  }

  ghost function HeaderBytes(h: BlockHeader): seq<byte>
    requires Short(h)
  {
    EncodeHead(true, |Joined(Items(h))|) + Joined(Items(h))
  }

  // ---------- The same header as the decoder's cells ----------

  function Fix(x: seq<byte>): Cell { Cell(Fixed(|x|), Raw(x)) }
  function Int(width: nat, v: nat): Cell { Cell(Uint(width), Num(v)) }

  ghost function Required(h: BlockHeader): seq<Cell> {
    [Fix(h.parentHash), Fix(h.ommersHash), Fix(h.beneficiary), Fix(h.stateRoot), Fix(h.transactionsRoot),
     Fix(h.receiptsRoot), Fix(h.logsBloom), Int(32, h.difficulty), Int(8, h.number), Int(8, h.gasLimit),
     Int(8, h.gasUsed), Int(8, h.timestamp), Cell(Data, Raw(h.extraData)), Fix(h.prevRandao), Fix(h.nonce)]
  }

  /** The fields a fork brought, where the header has them. */
  ghost function ForkCells(h: BlockHeader, k: nat): seq<Cell> {
    match k
    case 0 => if h.baseFeePerGas.None? then [] else [Int(32, h.baseFeePerGas.value)]
    case 1 => if h.withdrawalsRoot.None? then [] else [Fix(h.withdrawalsRoot.value)]
    case 2 =>
      if h.blob.None? then []
      else [Int(8, h.blob.value.blobGasUsed), Int(8, h.blob.value.excessBlobGas), Fix(h.blob.value.parentBeaconBlockRoot)]
    case 3 => if h.requestsHash.None? then [] else [Fix(h.requestsHash.value)]
    case 4 => if h.blockAccessListHash.None? then [] else [Fix(h.blockAccessListHash.value)]
    case 5 => if h.slotNumber.None? then [] else [Int(8, h.slotNumber.value)]
    case _ => []
  }

  ghost function Groups(h: BlockHeader, n: nat): seq<seq<Cell>> {
    if n == 0 then []
    else if ForkCells(h, n - 1) == [] then Groups(h, n - 1)
    else Groups(h, n - 1) + [ForkCells(h, n - 1)]
  }

  ghost function CellsOf(h: BlockHeader): Header { Required(h) + Flat(Groups(h, FORKS)) }

  /** The cells encode to the items. */
  ghost predicate Encodes(cells: seq<Cell>, items: seq<seq<byte>>) {
    |cells| == |items| && forall i :: 0 <= i < |cells| ==> BlockRlp.Fits(cells[i]) && EncodeCell(cells[i]) == items[i]
  }

  lemma {:induction false} EncodesJoined(cells: seq<Cell>, items: seq<seq<byte>>)
    requires Encodes(cells, items)
    ensures AllTyped(cells) && EncodeCells(cells) == Joined(items)
  {
    hide EncodeCell, Typed;
    if cells != [] { EncodesJoined(cells[1..], items[1..]); }
  }

  lemma EncodesConcat(a: seq<Cell>, x: seq<seq<byte>>, b: seq<Cell>, y: seq<seq<byte>>)
    requires Encodes(a, x) && Encodes(b, y)
    ensures Encodes(a + b, x + y)
  {
    hide EncodeCell, BlockRlp.Fits;
  }

  lemma FixEncodes(x: seq<byte>)
    requires 2 <= |x| < U64
    ensures BlockRlp.Fits(Fix(x)) && EncodeCell(Fix(x)) == EncodeBytes(x)
  {
    hide EncodeBytes;
  }

  lemma IntEncodes(width: nat, v: nat)
    requires width <= 32 && v < Pow256(width)
    ensures Word256(v) && BlockRlp.Fits(Int(width, v)) && EncodeCell(Int(width, v)) == EncodeUint(v)
  {
    hide EncodeUint, Pow256;
    PowersGrow(width, 32);
  }

  lemma RequiredEncodes(h: BlockHeader)
    requires Proper(h)
    ensures Encodes(Required(h), RequiredItems(h)) && KindsOf(Required(h)) == REQUIRED
  {
    hide BlockRlp.Fits, EncodeCell, EncodeBytes, EncodeUint, Pow256, OptionalBytes, OptionalUint, BlobItems;
    Widths();
    FixEncodes(h.parentHash);
    FixEncodes(h.ommersHash);
    FixEncodes(h.beneficiary);
    FixEncodes(h.stateRoot);
    FixEncodes(h.transactionsRoot);
    FixEncodes(h.receiptsRoot);
    FixEncodes(h.logsBloom);
    IntEncodes(32, h.difficulty);
    IntEncodes(8, h.number);
    IntEncodes(8, h.gasLimit);
    IntEncodes(8, h.gasUsed);
    IntEncodes(8, h.timestamp);
    DataEncodes(h.extraData);
    FixEncodes(h.prevRandao);
    FixEncodes(h.nonce);
  }

  lemma DataEncodes(x: seq<byte>)
    requires |x| < U64
    ensures BlockRlp.Fits(Cell(Data, Raw(x))) && EncodeCell(Cell(Data, Raw(x))) == EncodeBytes(x)
  {
    hide EncodeBytes;
  }

  ghost function ForkItems(h: BlockHeader, k: nat): seq<seq<byte>>
    requires Proper(h)
  {
    Widths();
    match k
    case 0 => OptionalUint(h.baseFeePerGas)
    case 1 => OptionalBytes(h.withdrawalsRoot)
    case 2 => BlobItems(h.blob)
    case 3 => OptionalBytes(h.requestsHash)
    case 4 => OptionalBytes(h.blockAccessListHash)
    case 5 => OptionalUint(h.slotNumber)
    case _ => []
  }

  ghost function ForksItems(h: BlockHeader, n: nat): seq<seq<byte>>
    requires Proper(h)
  {
    if n == 0 then [] else ForksItems(h, n - 1) + ForkItems(h, n - 1)
  }

  lemma ItemsSplit(h: BlockHeader)
    requires Proper(h)
    ensures Items(h) == RequiredItems(h) + ForksItems(h, FORKS)
  {
    hide OptionalBytes, OptionalUint, BlobItems, EncodeBytes, EncodeUint, RequiredItems, Proper;
    Widths();
    var a, b, c, d, e, f := ForkItems(h, 0), ForkItems(h, 1), ForkItems(h, 2), ForkItems(h, 3), ForkItems(h, 4), ForkItems(h, 5);
    assert ForksItems(h, 1) == a;
    assert ForksItems(h, 2) == a + b;
    assert ForksItems(h, 3) == a + b + c;
    assert ForksItems(h, 4) == a + b + c + d;
    assert ForksItems(h, 5) == a + b + c + d + e;
    assert ForksItems(h, 6) == a + b + c + d + e + f;
    JoinsOf(RequiredItems(h), a, b, c, d, e, f);
  }

  lemma JoinsOf<T>(x: seq<T>, a: seq<T>, b: seq<T>, c: seq<T>, d: seq<T>, e: seq<T>, f: seq<T>)
    ensures x + a + b + c + d + e + f == x + (a + b + c + d + e + f)
  {
  }

  lemma {:induction false} FlatConcat(a: seq<seq<Cell>>, b: seq<seq<Cell>>)
    ensures Flat(a + b) == Flat(a) + Flat(b)
  {
    if a == [] {
      assert a + b == b;
    } else {
      assert (a + b)[1..] == a[1..] + b;
      FlatConcat(a[1..], b);
    }
  }

  lemma FlatOne(g: seq<Cell>)
    ensures Flat([g]) == g && Flat([]) == []
  {
    assert [g][1..] == [];
  }

  /** Some groups follow others in their place, and encode to their items. */
  ghost predicate Follows(groups: seq<seq<Cell>>, items: seq<seq<byte>>) {
    Grouped(OPTIONAL, groups) && Encodes(Flat(groups), items)
  }

  lemma FollowsMore(groups: seq<seq<Cell>>, items: seq<seq<byte>>, g: seq<Cell>, more: seq<seq<byte>>)
    requires Follows(groups, items) && |groups| < |OPTIONAL| && g != [] && KindsOf(g) == OPTIONAL[|groups|] && Encodes(g, more)
    ensures Follows(groups + [g], items + more)
  {
    hide BlockRlp.Fits, EncodeCell, KindsOf, OPTIONAL, Flat;
    FlatConcat(groups, [g]);
    FlatOne(g);
    EncodesConcat(Flat(groups), items, g, more);
  }

  lemma NoneFollow()
    ensures Follows([], [])
  {
  }

  lemma ForkEncodes(h: BlockHeader, k: nat)
    requires Proper(h) && k < FORKS
    ensures Encodes(ForkCells(h, k), ForkItems(h, k))
    ensures ForkCells(h, k) != [] ==> KindsOf(ForkCells(h, k)) == OPTIONAL[k] && (k > 0 ==> ForkCells(h, k - 1) != [])
  {
    hide BlockRlp.Fits, EncodeCell, EncodeBytes, EncodeUint, Pow256;
    Widths();
    if ForkCells(h, k) != [] {
      match k
      case 0 => IntEncodes(32, h.baseFeePerGas.value);
      case 1 => FixEncodes(h.withdrawalsRoot.value);
      case 2 =>
        IntEncodes(8, h.blob.value.blobGasUsed);
        IntEncodes(8, h.blob.value.excessBlobGas);
        FixEncodes(h.blob.value.parentBeaconBlockRoot);
      case 3 => FixEncodes(h.requestsHash.value);
      case 4 => FixEncodes(h.blockAccessListHash.value);
      case 5 => IntEncodes(8, h.slotNumber.value);
    }
  }

  /** The fields of each fork follow those of the forks before. */
  lemma {:induction false} ForksFollow(h: BlockHeader, n: nat)
    requires Proper(h) && n <= FORKS
    ensures Follows(Groups(h, n), ForksItems(h, n))
    ensures n > 0 && ForkCells(h, n - 1) != [] ==> |Groups(h, n)| == n
  {
    hide BlockRlp.Fits, EncodeCell, Follows, KindsOf, ForkCells, ForkItems, Proper;
    if n == 0 {
      NoneFollow();
    } else {
      ForksFollow(h, n - 1);
      ForkEncodes(h, n - 1);
      if ForkCells(h, n - 1) == [] {
        assert ForksItems(h, n) == ForksItems(h, n - 1);
      } else {
        FollowsMore(Groups(h, n - 1), ForksItems(h, n - 1), ForkCells(h, n - 1), ForkItems(h, n - 1));
      }
    }
  }

  // ---------- What both sides read ----------

  lemma CellsJoin(h: BlockHeader)
    requires Proper(h)
    ensures AllFit(Required(h)) && KindsOf(Required(h)) == REQUIRED && Grouped(OPTIONAL, Groups(h, FORKS))
    ensures AllTyped(CellsOf(h)) && EncodeCells(CellsOf(h)) == Joined(Items(h))
  {
    hide BlockRlp.Fits, EncodeCell, KindsOf, ForkCells, ForkItems, Proper, Items, Joined, EncodeCells, Groups, Required;
    RequiredEncodes(h);
    ForksFollow(h, FORKS);
    ItemsSplit(h);
    EncodesConcat(Required(h), RequiredItems(h), Flat(Groups(h, FORKS)), ForksItems(h, FORKS));
    EncodesJoined(CellsOf(h), Items(h));
  }

  /** A header as the guest encodes it, in cells, is the header field by field. */
  lemma CellsEncode(h: BlockHeader)
    requires Short(h)
    ensures BlockRlp.Written(Required(h), Groups(h, FORKS)) && EncodeHeader(CellsOf(h)) == HeaderBytes(h)
  {
    hide AllFit, AllTyped, KindsOf, Grouped, Proper, Items, Joined, EncodeHead, PayloadLength, EncodeCells, Groups, Required;
    CellsJoin(h);
    PayloadLengthIsSize(CellsOf(h));
  }

  /**
    Every block made of a header and a body: the guest decodes the header to these cells, its
    parent hash, state root and gas used are the header's, and the host gets the hash of the
    header's bytes and its gas used.
    */
  lemma BlockOfHeader(keccak: seq<byte> -> seq<byte>, h: BlockHeader, rest: seq<byte>, body: seq<byte> -> bool)
    requires Short(h) && |HeaderBytes(h)| + |rest| < U64 && body(rest)
    ensures var block := EncodeBlock(HeaderBytes(h), rest);
            && DecodeBlock(block, body) == Some(CellsOf(h)) && WellFormed(CellsOf(h)) && Encodable(CellsOf(h))
            && EncodeHeader(CellsOf(h)) == HeaderBytes(h)
            && (|block| < U32 ==> HostHashAndGas(keccak, block) == Some(HashAndGas(keccak(HeaderBytes(h)), h.gasUsed)))
  {
    hide DecodeBlock, EncodeHeader, HeaderBytes, HostHashAndGas, Encodable, Short, EncodeBlock, BlockRlp.Written;
    CellsEncode(h);
    WrittenIsEncodable(Required(h), Groups(h, FORKS));
    BlockDecodes(Required(h), Groups(h, FORKS), rest, body);
    var block := EncodeBlock(HeaderBytes(h), rest);
    FieldsByName(h);
    if |block| < U32 { HostAgreesOnBlock(keccak, block, body); }
  }

  lemma WrittenIsEncodable(required: seq<Cell>, groups: seq<seq<Cell>>)
    requires BlockRlp.Written(required, groups)
    ensures Encodable(required + Flat(groups))
  {
  }

  /** The places the run reads are the parent hash, the state root and the gas used. */
  lemma FieldsByName(h: BlockHeader)
    ensures var c := CellsOf(h);
            WellFormed(c) && ParentHash(c) == h.parentHash && StateRoot(c) == h.stateRoot && GasUsed(c) == h.gasUsed
  {
    hide Groups, Flat;
  }

  // ---------- Every decoded block is one ----------

  lemma FieldFits(kind: Kind, from: seq<byte>)
    requires Known(kind) && |from| < U64 && DecodeField(kind, from).Some?
    ensures BlockRlp.Fits(DecodeField(kind, from).value.value)
  {
    hide GuestItem, EncodeBytes, EncodeUint, Pow256, FromBe;
    FieldReencodes(kind, from);
    if kind.Uint? {
      var it := GuestItem(from).value;
      PowersGrow(it.size, kind.width);
    }
  }

  lemma {:induction false} FieldsFit(kinds: seq<Kind>, from: seq<byte>)
    requires |from| < U64 && DecodeFields(kinds, from).Some? && forall i :: 0 <= i < |kinds| ==> Known(kinds[i])
    ensures var p := DecodeFields(kinds, from).value; AllFit(p.value) && KindsOf(p.value) == kinds
  {
    hide Known, DecodeField, BlockRlp.Fits;
    if kinds != [] {
      var first := DecodeField(kinds[0], from).value;
      FieldFits(kinds[0], from);
      FieldKind(kinds[0], from);
      FieldsFit(kinds[1..], from[first.len..]);
      CellAndRest(first.value, DecodeFields(kinds[1..], from[first.len..]).value.value, kinds);
    }
  }

  lemma FieldKind(kind: Kind, from: seq<byte>)
    requires DecodeField(kind, from).Some?
    ensures DecodeField(kind, from).value.value.kind == kind
  {
    hide GuestItem;
  }

  lemma CellAndRest(c: Cell, rest: seq<Cell>, kinds: seq<Kind>)
    requires kinds != [] && c.kind == kinds[0] && BlockRlp.Fits(c) && AllFit(rest) && KindsOf(rest) == kinds[1..]
    ensures AllFit([c] + rest) && KindsOf([c] + rest) == kinds
  {
    hide BlockRlp.Fits;
    assert kinds == [kinds[0]] + kinds[1..];
    assert KindsOf([c] + rest) == [kinds[0]] + KindsOf(rest);
  }

  lemma {:induction false} GroupsFit(kinds: seq<seq<Kind>>, from: seq<byte>, leftover: nat) returns (groups: seq<seq<Cell>>)
    requires |from| < U64 && DecodeGroups(kinds, from, leftover).Some? && KnownGroups(kinds) && forall g :: 0 <= g < |kinds| ==> kinds[g] != []
    ensures Grouped(kinds, groups) && DecodeGroups(kinds, from, leftover).value.value == Flat(groups)
    ensures |from| <= leftover ==> groups == []
  {
    hide Known, DecodeFields, AllFit, KindsOf;
    if kinds == [] {
      groups := [];
    } else if |from| <= leftover {
      groups := GroupsFit(kinds[1..], from, leftover);
    } else {
      assert forall i :: 0 <= i < |kinds[0]| ==> Known(kinds[0][i]);
      var first := DecodeFields(kinds[0], from).value;
      FieldsFit(kinds[0], from);
      var rest := GroupsFit(kinds[1..], from[first.len..], leftover);
      groups := [first.value] + rest;
      assert groups[1..] == rest;
      assert forall g :: 0 < g < |groups| ==> groups[g] == rest[g - 1] && kinds[g] == kinds[1..][g - 1];
    }
  }

  ghost function BytesAt(c: seq<Cell>, i: nat): seq<byte> { if i < |c| && c[i].value.Raw? then c[i].value.bytes else [] }
  ghost function NumberAt(c: seq<Cell>, i: nat): nat { if i < |c| && c[i].value.Num? then c[i].value.number else 0 }

  ghost function Has<T>(there: bool, x: T): Option<T> { if there then Some(x) else None }
  ghost function Group(g: seq<seq<Cell>>, k: nat): seq<Cell> { if k < |g| then g[k] else [] }

  /** The header with these cells. */
  ghost function FromCells(c: seq<Cell>, g: seq<seq<Cell>>): BlockHeader {
    BlockHeader(
      BytesAt(c, 0), BytesAt(c, 1), BytesAt(c, 2), BytesAt(c, 3), BytesAt(c, 4), BytesAt(c, 5), BytesAt(c, 6),
      NumberAt(c, 7), NumberAt(c, 8), NumberAt(c, 9), NumberAt(c, 10), NumberAt(c, 11), BytesAt(c, 12), BytesAt(c, 13), BytesAt(c, 14),
      Has(|g| > 0, NumberAt(Group(g, 0), 0)), Has(|g| > 1, BytesAt(Group(g, 1), 0)),
      Has(|g| > 2, BlobFields(NumberAt(Group(g, 2), 0), NumberAt(Group(g, 2), 1), BytesAt(Group(g, 2), 2))),
      Has(|g| > 3, BytesAt(Group(g, 3), 0)), Has(|g| > 4, BytesAt(Group(g, 4), 0)), Has(|g| > 5, NumberAt(Group(g, 5), 0)))
  }

  lemma FixAt(c: seq<Cell>, kinds: seq<Kind>, i: nat, n: nat)
    requires KindsOf(c) == kinds && AllFit(c) && i < |kinds| && kinds[i] == Fixed(n)
    ensures |c| == |kinds| && IsFix(c, i, n)
  {
    assert KindsOf(c)[i] == c[i].kind && BlockRlp.Fits(c[i]);
  }

  lemma IntAt(c: seq<Cell>, kinds: seq<Kind>, i: nat, width: nat)
    requires KindsOf(c) == kinds && AllFit(c) && i < |kinds| && kinds[i] == Uint(width)
    ensures |c| == |kinds| && IsInt(c, i, width)
  {
    hide Pow256;
    assert KindsOf(c)[i] == c[i].kind && BlockRlp.Fits(c[i]);
  }

  lemma DataAt(c: seq<Cell>, kinds: seq<Kind>, i: nat)
    requires KindsOf(c) == kinds && AllFit(c) && i < |kinds| && kinds[i] == Data
    ensures |c| == |kinds| && |BytesAt(c, i)| < U64 && c[i] == Cell(Data, Raw(BytesAt(c, i)))
  {
    assert KindsOf(c)[i] == c[i].kind && BlockRlp.Fits(c[i]);
  }

  ghost predicate IsFix(c: seq<Cell>, i: nat, n: nat) { i < |c| && |BytesAt(c, i)| == n && c[i] == Fix(BytesAt(c, i)) }

  ghost predicate IsInt(c: seq<Cell>, i: nat, width: nat) {
    i < |c| && NumberAt(c, i) < Pow256(width) && c[i] == Int(width, NumberAt(c, i))
  }

  ghost predicate IsRequired(c: seq<Cell>) {
    && |c| == 15 && IsFix(c, 0, 32) && IsFix(c, 1, 32) && IsFix(c, 2, 20) && IsFix(c, 3, 32) && IsFix(c, 4, 32)
    && IsFix(c, 5, 32) && IsFix(c, 6, 256) && IsInt(c, 7, 32) && IsInt(c, 8, 8) && IsInt(c, 9, 8) && IsInt(c, 10, 8)
    && IsInt(c, 11, 8) && |BytesAt(c, 12)| < U64 && c[12] == Cell(Data, Raw(BytesAt(c, 12))) && IsFix(c, 13, 32) && IsFix(c, 14, 8)
  }

  lemma RequiredHashes(c: seq<Cell>)
    requires KindsOf(c) == REQUIRED && AllFit(c)
    ensures IsFix(c, 0, 32) && IsFix(c, 1, 32) && IsFix(c, 2, 20) && IsFix(c, 3, 32) && IsFix(c, 4, 32) && IsFix(c, 5, 32) && IsFix(c, 6, 256)
  {
    hide KindsOf, AllFit, IsFix;
    FixAt(c, REQUIRED, 0, 32);
    FixAt(c, REQUIRED, 1, 32);
    FixAt(c, REQUIRED, 2, 20);
    FixAt(c, REQUIRED, 3, 32);
    FixAt(c, REQUIRED, 4, 32);
    FixAt(c, REQUIRED, 5, 32);
    FixAt(c, REQUIRED, 6, 256);
  }

  lemma RequiredParts(c: seq<Cell>)
    requires KindsOf(c) == REQUIRED && AllFit(c)
    ensures IsRequired(c)
  {
    hide KindsOf, AllFit, IsFix, IsInt, BytesAt;
    RequiredHashes(c);
    IntAt(c, REQUIRED, 7, 32);
    IntAt(c, REQUIRED, 8, 8);
    IntAt(c, REQUIRED, 9, 8);
    IntAt(c, REQUIRED, 10, 8);
    IntAt(c, REQUIRED, 11, 8);
    DataAt(c, REQUIRED, 12);
    FixAt(c, REQUIRED, 13, 32);
    FixAt(c, REQUIRED, 14, 8);
  }

  lemma RequiredBack(c: seq<Cell>, g: seq<seq<Cell>>)
    requires IsRequired(c)
    ensures Required(FromCells(c, g)) == c
  {
    hide Pow256, Fix, Int, BytesAt, NumberAt, Group, Has;
  }

  lemma RequiredProper(c: seq<Cell>, g: seq<seq<Cell>>)
    requires IsRequired(c)
    ensures ProperRequired(FromCells(c, g))
  {
    hide Pow256, Fix, Int, BytesAt, NumberAt, Group, Has;
    Widths();
  }

  lemma GroupAt(g: seq<seq<Cell>>, k: nat)
    requires Grouped(OPTIONAL, g) && k < |g|
    ensures |g| <= FORKS && Group(g, k) == g[k] && KindsOf(g[k]) == OPTIONAL[k] && AllFit(g[k])
  {
    hide KindsOf, AllFit;
  }

  /** The fields of one fork: those of the header, of their size. */
  lemma ForkBack(c: seq<Cell>, g: seq<seq<Cell>>, k: nat)
    requires Grouped(OPTIONAL, g) && k < FORKS
    ensures ForkCells(FromCells(c, g), k) == Group(g, k) && (k < |g| ==> Group(g, k) != []) && ProperFork(FromCells(c, g), k)
  {
    hide KindsOf, AllFit, Pow256, BytesAt, NumberAt, Group, Grouped;
    Widths();
    if k < |g| {
      GroupAt(g, k);
      match k
      case 0 => IntAt(g[k], OPTIONAL[k], 0, 32);
      case 1 => FixAt(g[k], OPTIONAL[k], 0, 32);
      case 2 =>
        IntAt(g[k], OPTIONAL[k], 0, 8);
        IntAt(g[k], OPTIONAL[k], 1, 8);
        FixAt(g[k], OPTIONAL[k], 2, 32);
      case 3 => FixAt(g[k], OPTIONAL[k], 0, 32);
      case 4 => FixAt(g[k], OPTIONAL[k], 0, 32);
      case 5 => IntAt(g[k], OPTIONAL[k], 0, 8);
    } else {
      NoGroup(g, k);
    }
  }

  lemma NoGroup(g: seq<seq<Cell>>, k: nat)
    requires k >= |g|
    ensures Group(g, k) == []
  {
  }

  lemma {:induction false} GroupsBack(c: seq<Cell>, g: seq<seq<Cell>>, n: nat)
    requires Grouped(OPTIONAL, g) && n <= FORKS
    ensures Groups(FromCells(c, g), n) == if n <= |g| then g[..n] else g
  {
    hide ForkCells, Grouped, FromCells;
    if n > 0 {
      GroupsBack(c, g, n - 1);
      ForkBack(c, g, n - 1);
    }
  }

  /** The header of these cells is a header, and has these cells. */
  lemma CellsBack(c: seq<Cell>, g: seq<seq<Cell>>)
    requires KindsOf(c) == REQUIRED && AllFit(c) && Grouped(OPTIONAL, g)
    ensures Proper(FromCells(c, g)) && CellsOf(FromCells(c, g)) == c + Flat(g)
  {
    hide KindsOf, AllFit, Grouped, FromCells, IsRequired, ProperRequired, ProperFork, Groups, Flat, Required;
    RequiredParts(c);
    RequiredBack(c, g);
    RequiredProper(c, g);
    forall k | 0 <= k < FORKS
      ensures ProperFork(FromCells(c, g), k)
    {
      ForkBack(c, g, k);
    }
    GroupsBack(c, g, FORKS);
    SixAtMost(g);
  }

  lemma SixAtMost(g: seq<seq<Cell>>)
    requires Grouped(OPTIONAL, g)
    ensures |g| <= FORKS && g[..|g|] == g
  {
    hide KindsOf, AllFit;
  }

  /**
    Every block the guest decodes is the encoding of a header, whose cells it gets, followed by a
    body it accepts.
    */
  lemma DecodedIsHeader(block: seq<byte>, body: seq<byte> -> bool) returns (h: BlockHeader, rest: seq<byte>)
    requires |block| < U64 && DecodeBlock(block, body).Some?
    ensures Short(h) && |HeaderBytes(h)| + |rest| < U64 && body(rest)
    ensures block == EncodeBlock(HeaderBytes(h), rest) && DecodeBlock(block, body).value == CellsOf(h)
  {
    hide GuestItem, DecodeHeader, EncodeHeader, HeaderBytes, EncodeHead, CellsOf, Short;
    var it := GuestItem(block).value;
    var payload := block[it.prefix..];
    var header := DecodeHeader(payload).value;
    h := RecordOf(payload);
    rest := payload[header.len..];
    HeaderReencodes(payload);
    ListHasPrefix(block);
    HeadReencodes(block);
    assert payload == payload[..header.len] + rest;
    assert block == block[..it.prefix] + payload;
  }

  lemma RecordOf(from: seq<byte>) returns (h: BlockHeader)
    requires |from| < U64 && DecodeHeader(from).Some?
    ensures var d := DecodeHeader(from).value.value; Short(h) && d == CellsOf(h) && Encodable(d) && EncodeHeader(d) == HeaderBytes(h)
  {
    hide GuestItem, DecodeFields, DecodeGroups, Known, KnownGroups, Encodable, HeaderBytes, EncodeHeader, Proper, CellsOf, Flat, Short, FromCells,
         Grouped, AllFit, KindsOf;
    KnownKinds();
    var it := GuestItem(from).value;
    var rest := from[it.prefix..];
    var required := DecodeFields(REQUIRED, rest).value;
    FieldsFit(REQUIRED, rest);
    var groups := GroupsFit(OPTIONAL, rest[required.len..], |rest| - it.size);
    h := FromCells(required.value, groups);
    CellsBack(required.value, groups);
    HeaderReencodes(from);
    EncodesShort(h);
  }

  lemma EncodesShort(h: BlockHeader)
    requires Proper(h) && Encodable(CellsOf(h))
    ensures Short(h) && EncodeHeader(CellsOf(h)) == HeaderBytes(h)
  {
    hide AllTyped, EncodeCells, EncodeHead, PayloadLength, HeaderBytes, EncodeHeader, Joined, Items, Proper, CellsOf;
    CellsJoin(h);
    PayloadLengthIsSize(CellsOf(h));
    CellsEncode(h);
  }

  // ---------- Lists of headers ----------

  ghost function TotalGas(headers: seq<BlockHeader>): nat {
    if headers == [] then 0 else TotalGas(headers[..|headers| - 1]) + headers[|headers| - 1].gasUsed
  }

  lemma {:induction false} GasJoins(a: seq<BlockHeader>, b: seq<BlockHeader>)
    ensures TotalGas(a + b) == TotalGas(a) + TotalGas(b)
  {
    if b == [] {
      assert a + b == a;
    } else {
      assert (a + b)[..|a + b| - 1] == a + b[..|b| - 1];
      GasJoins(a, b[..|b| - 1]);
    }
  }

  /** The block is this header, followed by some body. */
  ghost predicate Heads(h: BlockHeader, block: seq<byte>) {
    exists rest :: Short(h) && |HeaderBytes(h)| + |rest| < U64 && block == EncodeBlock(HeaderBytes(h), rest)
  }

  lemma HostReadsHeader(keccak: seq<byte> -> seq<byte>, h: BlockHeader, block: seq<byte>)
    requires Heads(h, block) && |block| < U32
    ensures Short(h) && HostHashAndGas(keccak, block) == Some(HashAndGas(keccak(HeaderBytes(h)), h.gasUsed))
  {
    hide HostHashAndGas, EncodeBlock, HeaderBytes, Short;
    var rest :| Short(h) && |HeaderBytes(h)| + |rest| < U64 && block == EncodeBlock(HeaderBytes(h), rest);
    BlockOfHeader(keccak, h, rest, _ => true);
  }

  // ---------- The host's loops ----------

  method SkipItems(all: seq<byte>, n: nat) returns (r: Option<seq<byte>>)
    ensures r == HostSkip(all, n)
  {
    hide HostItem;
    var fields := all;
    for k := 0 to n
      invariant HostSkip(all, n) == HostSkip(fields, n - k)
    {
      var it := HostItem(fields);
      if it.None? { return None; }
      fields := fields[it.value.Len()..];
    }
    r := Some(fields);
  }

  method FoldBytes(x: seq<byte>) returns (v: nat)
    ensures v == FromBe(x)
  {
    v := 0;
    for i := 0 to |x|
      invariant v == FromBe(x[..i])
    {
      assert x[..i + 1][..i] == x[..i];
      v := 256 * v + x[i];
    }
    assert x[..|x|] == x;
  }

  /** `block_hash_and_gas` as the host runs it. */
  method BlockHashAndGas(keccak: seq<byte> -> seq<byte>, block: seq<byte>) returns (r: Option<HashAndGas>)
    ensures r == HostHashAndGas(keccak, block)
    ensures |block| < U32 ==> forall h :: Heads(h, block) && Short(h) ==> r == Some(HashAndGas(keccak(HeaderBytes(h)), h.gasUsed))
  {
    hide HostItem, HostSkip, FromBe, Heads, Short, HeaderBytes;
    if |block| < U32 {
      forall h | Heads(h, block) && Short(h) { HostReadsHeader(keccak, h, block); }
    }
    var outer := HostItem(block);
    if outer.None? { return None; }
    var body := block[outer.value.prefix..outer.value.Len()];
    var header := HostItem(body);
    if header.None? || !header.value.list { return None; }
    var fields := SkipItems(body[header.value.prefix..header.value.Len()], GAS_USED);
    if fields.None? { return None; }
    var gas := HostItem(fields.value);
    if gas.None? || gas.value.list || gas.value.size > 8 { return None; }
    var gasUsed := FoldBytes(fields.value[gas.value.prefix..gas.value.Len()]);
    r := Some(HashAndGas(keccak(body[..header.value.Len()]), gasUsed));
  }
}
