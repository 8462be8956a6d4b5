/**
  Block headers and blocks: what the guest decodes and re-encodes
  (zilk_core/core/types/block.cpp) and what the host takes from the same bytes
  (`block_hash_and_gas` of prover/prover_airbender/src/public_output.rs).
  */
module BlockRlp {
  import opened Basics
  import opened Bytes
  import opened Rlp

  // ---------- Fields ----------

  /** A byte array of fixed size, an unsigned integer of up to `width` bytes, or any bytes. */
  datatype Kind = Fixed(n: nat) | Uint(width: nat) | Data

  datatype Value = Raw(bytes: seq<byte>) | Num(number: nat)

  datatype Cell = Cell(kind: Kind, value: Value)

  /** A value and how many bytes of the view it took. */
  datatype Parsed<T> = Parsed(value: T, len: nat)

  ghost predicate Known(kind: Kind) {
    match kind
    case Fixed(n) => 2 <= n < U64
    case Uint(width) => width <= 32
    case Data => true
  }

  function FieldOf(kind: Kind, payload: seq<byte>): Option<Value> {
    match kind
    case Fixed(n) => if |payload| == n then Some(Raw(payload)) else None
    case Uint(width) =>
      (match FromBigCompact(payload, width)
       case None => None
       case Some(v) => Some(Num(v)))
    case Data => Some(Raw(payload))
  }

  function DecodeField(kind: Kind, from: seq<byte>): (r: Option<Parsed<Cell>>)
    ensures r.Some? ==> r.value.len <= |from| && r.value.value.kind == kind
  {
    match GuestItem(from)
    case None => None
    case Some(it) =>
      if it.list then None
      else match FieldOf(kind, from[it.prefix..it.Len()])
        case None => None
        case Some(v) => Some(Parsed(Cell(kind, v), it.Len()))
  }

  ghost predicate Typed(c: Cell) {
    match c.kind
    case Fixed(n) => c.value.Raw? && |c.value.bytes| == n && 2 <= n < U64
    case Uint(_) => c.value.Num? && c.value.number < Pow256(32)
    case Data => c.value.Raw? && |c.value.bytes| < U64
  }

  function EncodeCell(c: Cell): seq<byte>
    requires Typed(c)
  {
    if c.kind.Uint? then EncodeUint(c.value.number) else EncodeBytes(c.value.bytes)
  }

  /** What a field decoder accepts is what the encoder writes for the value it got. */
  lemma FieldReencodes(kind: Kind, from: seq<byte>)
    requires Known(kind) && |from| < U64 && DecodeField(kind, from).Some?
    ensures var p := DecodeField(kind, from).value; Typed(p.value) && EncodeCell(p.value) == from[..p.len]
  {
    hide GuestItem, EncodeBytes, EncodeUint, FromBe;
    var it := GuestItem(from).value;
    var payload := from[it.prefix..it.Len()];
    StringReencodes(from);
    if kind.Uint? {
      UintIsString(payload);
    }
  }

  function DecodeFields(kinds: seq<Kind>, from: seq<byte>): (r: Option<Parsed<seq<Cell>>>)
    ensures r.Some? ==> r.value.len <= |from| && |r.value.value| == |kinds|
  {
    if kinds == [] then Some(Parsed([], 0))
    else match DecodeField(kinds[0], from)
      case None => None
      case Some(first) =>
        match DecodeFields(kinds[1..], from[first.len..])
        case None => None
        case Some(rest) => Some(Parsed([first.value] + rest.value, first.len + rest.len))
  }

  ghost predicate AllTyped(cells: seq<Cell>) {
    forall i :: 0 <= i < |cells| ==> Typed(cells[i])
  }

  function EncodeCells(cells: seq<Cell>): seq<byte>
    requires AllTyped(cells)
  {
    if cells == [] then [] else EncodeCell(cells[0]) + EncodeCells(cells[1..])
  }

  lemma {:induction false} CellsConcat(a: seq<Cell>, b: seq<Cell>)
    requires AllTyped(a) && AllTyped(b)
    ensures AllTyped(a + b) && EncodeCells(a + b) == EncodeCells(a) + EncodeCells(b)
  {
    hide Typed, EncodeCell;
    if a == [] {
      assert a + b == b;
    } else {
      assert (a + b)[1..] == a[1..] + b;
      CellsConcat(a[1..], b);
    }
  }

  lemma {:induction false} FieldsReencode(kinds: seq<Kind>, from: seq<byte>)
    requires |from| < U64 && DecodeFields(kinds, from).Some? && forall i :: 0 <= i < |kinds| ==> Known(kinds[i])
    ensures var p := DecodeFields(kinds, from).value; AllTyped(p.value) && EncodeCells(p.value) == from[..p.len]
  {
    hide Known, DecodeField, Typed, EncodeCell;
    if kinds != [] {
      var first := DecodeField(kinds[0], from).value;
      FieldReencodes(kinds[0], from);
      FieldsReencode(kinds[1..], from[first.len..]);
      var p, rest := DecodeFields(kinds, from).value, DecodeFields(kinds[1..], from[first.len..]).value;
      assert p.value[1..] == rest.value;
      assert from[..p.len] == from[..first.len] + from[first.len..][..rest.len];
    }
  }

  // ---------- Headers ----------

  /** parent_hash through nonce. */
  const REQUIRED: seq<Kind> :=
    [Fixed(32), Fixed(32), Fixed(20), Fixed(32), Fixed(32), Fixed(32), Fixed(256), Uint(32), Uint(8), Uint(8), Uint(8),
     Uint(8), Data, Fixed(32), Fixed(8)]

  /** base_fee_per_gas; withdrawals_root; the blob fields with the beacon root; requests_hash; block_access_list_hash; slot_number. */
  const OPTIONAL: seq<seq<Kind>> :=
    [[Uint(32)], [Fixed(32)], [Uint(8), Uint(8), Fixed(32)], [Fixed(32)], [Fixed(32)], [Uint(8)]]

  const PARENT_HASH: nat := 0
  const STATE_ROOT: nat := 3
  const GAS_USED: nat := 10

  /** Each optional group is there when the header's payload goes on. */
  function DecodeGroups(groups: seq<seq<Kind>>, from: seq<byte>, leftover: nat): (r: Option<Parsed<seq<Cell>>>)
    ensures r.Some? ==> r.value.len <= |from|
  {
    if groups == [] then Some(Parsed([], 0))
    else if |from| <= leftover then DecodeGroups(groups[1..], from, leftover)
    else match DecodeFields(groups[0], from)
      case None => None
      case Some(first) =>
        match DecodeGroups(groups[1..], from[first.len..], leftover)
        case None => None
        case Some(rest) => Some(Parsed(first.value + rest.value, first.len + rest.len))
  }

  ghost predicate KnownGroups(groups: seq<seq<Kind>>) {
    forall g, i :: 0 <= g < |groups| && 0 <= i < |groups[g]| ==> Known(groups[g][i])
  }

  lemma {:induction false} GroupsReencode(groups: seq<seq<Kind>>, from: seq<byte>, leftover: nat)
    requires |from| < U64 && DecodeGroups(groups, from, leftover).Some? && KnownGroups(groups)
    ensures var p := DecodeGroups(groups, from, leftover).value; AllTyped(p.value) && EncodeCells(p.value) == from[..p.len]
  {
    hide Known, DecodeFields, AllTyped, EncodeCells;
    if groups == [] {
      NoFields(from);
      FieldsReencode([], from);
    } else if |from| <= leftover {
      GroupsReencode(groups[1..], from, leftover);
    } else {
      assert forall i :: 0 <= i < |groups[0]| ==> Known(groups[0][i]);
      var first := DecodeFields(groups[0], from).value;
      FieldsReencode(groups[0], from);
      GroupsReencode(groups[1..], from[first.len..], leftover);
      var rest := DecodeGroups(groups[1..], from[first.len..], leftover).value;
      CellsConcat(first.value, rest.value);
      assert from[..first.len + rest.len] == from[..first.len] + from[first.len..][..rest.len];
    }
  }

  lemma NoFields(from: seq<byte>)
    ensures DecodeFields([], from) == Some(Parsed([], 0))
  {
  }

  /** A header, as the list of the fields it has. */
  type Header = seq<Cell>

  ghost predicate WellFormed(h: Header) {
    |h| >= |REQUIRED| && h[PARENT_HASH].value.Raw? && h[STATE_ROOT].value.Raw? && h[GAS_USED].value.Num?
  }

  function ParentHash(h: Header): seq<byte> requires WellFormed(h) { h[PARENT_HASH].value.bytes }
  function StateRoot(h: Header): seq<byte> requires WellFormed(h) { h[STATE_ROOT].value.bytes }
  function GasUsed(h: Header): nat requires WellFormed(h) { h[GAS_USED].value.number }

  /** The fields may read past the payload; the length check at the end refuses that. */
  function DecodeHeader(from: seq<byte>): (r: Option<Parsed<Header>>)
    ensures r.Some? ==> r.value.len <= |from|
  {
    match GuestItem(from)
    case None => None
    case Some(it) =>
      if !it.list then None
      else
        var rest := from[it.prefix..];
        var leftover := |rest| - it.size;
        match DecodeFields(REQUIRED, rest)
        case None => None
        case Some(required) =>
          match DecodeGroups(OPTIONAL, rest[required.len..], leftover)
          case None => None
          case Some(optional) =>
            if |rest| - required.len - optional.len != leftover then None
            else Some(Parsed(required.value + optional.value, it.Len()))
  }

  function LengthOfLength(n: nat): nat {
    if n < 56 then 1 else 1 + |ToBigCompact(n)|
  }

  /** The encoded length of a field, from its value alone. */
  function FieldLength(c: Cell): nat
    requires Typed(c)
  {
    match c.kind
    case Fixed(n) => n + LengthOfLength(n)
    case Uint(_) =>
      if c.value.number < 0x80 then 1
      else |ToBigCompact(c.value.number)| + LengthOfLength(|ToBigCompact(c.value.number)|)
    case Data =>
      if |c.value.bytes| != 1 || c.value.bytes[0] >= 0x80 then |c.value.bytes| + LengthOfLength(|c.value.bytes|)
      else |c.value.bytes|
  }

  /** The payload length a header announces, summed over its fields. */
  function PayloadLength(h: Header): nat
    requires AllTyped(h)
  {
    if h == [] then 0 else FieldLength(h[0]) + PayloadLength(h[1..])
  }

  lemma {:induction false} PayloadLengthIsSize(h: Header)
    requires AllTyped(h)
    ensures PayloadLength(h) == |EncodeCells(h)|
  {
    if h != [] {
      FieldLengthIsSize(h[0]);
      PayloadLengthIsSize(h[1..]);
    }
  }

  lemma FieldLengthIsSize(c: Cell)
    requires Typed(c)
    ensures FieldLength(c) == |EncodeCell(c)|
  {
    hide ToBigCompact, Pow256, EncodeHead, LengthOfLength;
    match c.kind {
      case Uint(_) =>
        CompactRoundTrip(c.value.number, 32);
        HeadSize(false, |ToBigCompact(c.value.number)|);
      case _ => HeadSize(false, |c.value.bytes|);
    }
  }

  lemma HeadSize(list: bool, n: nat)
    requires n < U64
    ensures |EncodeHead(list, n)| == LengthOfLength(n)
  {
    hide ToBigCompact;
  }

  ghost predicate Encodable(h: Header) {
    AllTyped(h) && PayloadLength(h) < U64
  }

  function EncodeHeader(h: Header): seq<byte>
    requires Encodable(h)
  {
    EncodeHead(true, PayloadLength(h)) + EncodeCells(h)
  }

  lemma KnownKinds()
    ensures (forall i :: 0 <= i < |REQUIRED| ==> Known(REQUIRED[i])) && KnownGroups(OPTIONAL)
  {
    assert forall i :: 0 <= i < |OPTIONAL[2]| ==> Known(OPTIONAL[2][i]);
  }

  /** Decoding then encoding a header gives back exactly the bytes it was decoded from. */
  lemma HeaderReencodes(from: seq<byte>)
    requires |from| < U64 && DecodeHeader(from).Some?
    ensures var p := DecodeHeader(from).value; Encodable(p.value) && EncodeHeader(p.value) == from[..p.len]
  {
    hide GuestItem, DecodeFields, DecodeGroups, Known, AllTyped, EncodeCells, EncodeHead, PayloadLength;
    KnownKinds();
    var it := GuestItem(from).value;
    var rest := from[it.prefix..];
    var required := DecodeFields(REQUIRED, rest).value;
    var optional := DecodeGroups(OPTIONAL, rest[required.len..], |rest| - it.size).value;
    FieldsReencode(REQUIRED, rest);
    GroupsReencode(OPTIONAL, rest[required.len..], |rest| - it.size);
    CellsConcat(required.value, optional.value);
    assert EncodeCells(required.value + optional.value) == from[it.prefix..it.Len()];
    PayloadLengthIsSize(required.value + optional.value);
    ListHasPrefix(from);
    HeadReencodes(from);
    assert from[..it.Len()] == from[..it.prefix] + from[it.prefix..it.Len()];
  }

  lemma ListHasPrefix(from: seq<byte>)
    requires GuestItem(from).Some? && GuestItem(from).value.list
    ensures GuestItem(from).value.prefix > 0
  {
  }

  lemma {:induction false} FieldKinds(kinds: seq<Kind>, from: seq<byte>, i: nat)
    requires DecodeFields(kinds, from).Some? && i < |kinds|
    ensures var c := DecodeFields(kinds, from).value.value[i]; c.kind == kinds[i] && (c.value.Num? <==> kinds[i].Uint?)
  {
    var first := DecodeField(kinds[0], from).value;
    if i > 0 { FieldKinds(kinds[1..], from[first.len..], i - 1); }
  }

  lemma HeaderIsWellFormed(from: seq<byte>)
    requires DecodeHeader(from).Some?
    ensures WellFormed(DecodeHeader(from).value.value)
  {
    hide GuestItem, DecodeFields, DecodeGroups;
    var it := GuestItem(from).value;
    FieldKinds(REQUIRED, from[it.prefix..], PARENT_HASH);
    FieldKinds(REQUIRED, from[it.prefix..], STATE_ROOT);
    FieldKinds(REQUIRED, from[it.prefix..], GAS_USED);
  }

  // ---------- Blocks ----------

  /** The guest's block: exactly one list, a header first, then a body that `body` accepts or not. */
  function DecodeBlock(block: seq<byte>, body: seq<byte> -> bool): (r: Option<Header>)
    ensures r.Some? ==> WellFormed(r.value)
  {
    match GuestItem(block)
    case None => None
    case Some(it) =>
      if !it.list || it.Len() != |block| then None
      else match DecodeHeader(block[it.prefix..])
        case None => None
        case Some(header) =>
          HeaderIsWellFormed(block[it.prefix..]);
          if body(block[it.prefix..][header.len..]) then Some(header.value) else None
  }

  /** The view after `k` items, as the host steps over them. */
  function HostSkip(fields: seq<byte>, k: nat): (r: Option<seq<byte>>)
  {
    if k == 0 then Some(fields)
    else match HostItem(fields)
      case None => None
      case Some(it) => HostSkip(fields[it.Len()..], k - 1)
  }

  datatype HashAndGas = HashAndGas(hash: seq<byte>, gas: nat)

  function HostHashAndGas(keccak: seq<byte> -> seq<byte>, block: seq<byte>): Option<HashAndGas> {
    match HostItem(block)
    case None => None
    case Some(outer) =>
      var body := block[outer.prefix..outer.Len()];
      match HostItem(body)
      case None => None
      case Some(header) =>
        if !header.list then None
        else match HostSkip(body[header.prefix..header.Len()], GAS_USED)
          case None => None
          case Some(fields) =>
            match HostItem(fields)
            case None => None
            case Some(gas) =>
              if gas.list || gas.size > 8 then None
              else Some(HashAndGas(keccak(body[..header.Len()]), FromBe(fields[gas.prefix..gas.Len()])))
  }

  /** Within the payload the guest's fields fill, the host steps over the same items. */
  lemma {:induction false} SkipAgrees(kinds: seq<Kind>, rest: seq<byte>, k: nat, n: nat)
    requires |rest| < U32 && DecodeFields(kinds, rest).Some? && DecodeFields(kinds, rest).value.len <= k <= |rest|
    requires n < |kinds|
    ensures HostSkip(rest[..k], n).Some?
    ensures var fields := HostSkip(rest[..k], n).value;
            && HostItem(fields).Some? && !HostItem(fields).value.list
            && FieldOf(kinds[n], fields[HostItem(fields).value.prefix..HostItem(fields).value.Len()])
               == Some(DecodeFields(kinds, rest).value.value[n].value)
  {
    hide GuestItem, HostItem, FieldOf;
    var it := GuestItem(rest).value;
    HostReadsGuestItems(rest);
    HostItemOfPrefix(rest, k);
    assert rest[..k][it.prefix..it.Len()] == rest[it.prefix..it.Len()];
    if n > 0 {
      assert rest[..k][it.Len()..] == rest[it.Len()..][..k - it.Len()];
      SkipAgrees(kinds[1..], rest[it.Len()..], k - it.Len(), n - 1);
    }
  }

  /**
    On every block the guest decodes, the host finds the same block hash and the same gas: the
    hash of the header as the guest re-encodes it is the hash of the header's own bytes.
    */
  lemma HostAgreesOnBlock(keccak: seq<byte> -> seq<byte>, block: seq<byte>, body: seq<byte> -> bool)
    requires |block| < U32 && DecodeBlock(block, body).Some?
    ensures var h := DecodeBlock(block, body).value;
            && Encodable(h) && GasUsed(h) < U64
            && HostHashAndGas(keccak, block) == Some(HashAndGas(keccak(EncodeHeader(h)), GasUsed(h)))
  {
    hide GuestItem, HostItem, DecodeFields, DecodeGroups, HostSkip, EncodeHeader, FromBe, Encodable;
    var outer := GuestItem(block).value;
    HostReadsGuestItems(block);
    var payload := block[outer.prefix..];
    assert payload == block[outer.prefix..outer.Len()];
    HeaderReencodes(payload);
    var header := GuestItem(payload).value;
    HostReadsGuestItems(payload);
    var rest := payload[header.prefix..];
    SkipAgrees(REQUIRED, rest, header.size, GAS_USED);
    assert rest[..header.size] == payload[header.prefix..header.Len()];
    PowersOfWidths();
    var fields := HostSkip(rest[..header.size], GAS_USED).value;
    var gas := HostItem(fields).value;
    PowersGrow(gas.size, 8);
  }

  // ---------- Decoding what was encoded ----------

  /** A cell whose value fits its kind. */
  ghost predicate Fits(c: Cell) {
    Typed(c) && (c.kind.Uint? ==> c.kind.width <= 32 && c.value.number < Pow256(c.kind.width))
  }

  ghost predicate AllFit(cells: seq<Cell>) {
    forall i :: 0 <= i < |cells| ==> Fits(cells[i])
  }

  lemma CellIsString(c: Cell) returns (x: seq<byte>)
    requires Fits(c)
    ensures |x| < U64 && EncodeCell(c) == EncodeBytes(x) && FieldOf(c.kind, x) == Some(c.value)
  {
    hide EncodeBytes, EncodeUint, FromBe, ToBigCompact, Pow256;
    if c.kind.Uint? {
      x := ToBigCompact(c.value.number);
      CompactRoundTrip(c.value.number, c.kind.width);
      CompactRoundTrip(c.value.number, 32);
      UintIsString(x);
    } else {
      x := c.value.bytes;
    }
  }

  lemma FieldReads(c: Cell, rest: seq<byte>)
    requires Fits(c)
    ensures DecodeField(c.kind, EncodeCell(c) + rest) == Some(Parsed(c, |EncodeCell(c)|)) && |EncodeCell(c)| > 0
  {
    hide GuestItem, FieldOf, EncodeBytes, EncodeCell;
    var x := CellIsString(c);
    BytesRead(x, rest);
  }

  ghost function KindsOf(cells: seq<Cell>): (kinds: seq<Kind>)
    ensures |kinds| == |cells| && forall i :: 0 <= i < |cells| ==> kinds[i] == cells[i].kind
  {
    seq(|cells|, i requires 0 <= i < |cells| => cells[i].kind)
  }

  lemma FieldsStep(kinds: seq<Kind>, from: seq<byte>, first: Parsed<Cell>, rest: Parsed<seq<Cell>>)
    requires kinds != [] && DecodeField(kinds[0], from) == Some(first) && first.len <= |from|
    requires DecodeFields(kinds[1..], from[first.len..]) == Some(rest)
    ensures DecodeFields(kinds, from) == Some(Parsed([first.value] + rest.value, first.len + rest.len))
  {
    hide DecodeField;
  }

  lemma CellsStep(cells: seq<Cell>)
    requires cells != [] && AllFit(cells)
    ensures AllTyped(cells) && AllFit(cells[1..]) && AllTyped(cells[1..]) && Fits(cells[0]) && Typed(cells[0])
    ensures EncodeCells(cells) == EncodeCell(cells[0]) + EncodeCells(cells[1..])
  {
    hide EncodeCell, Typed;
  }

  lemma {:induction false} FieldsRead(cells: seq<Cell>, rest: seq<byte>)
    requires AllFit(cells)
    ensures AllTyped(cells)
    ensures DecodeFields(KindsOf(cells), EncodeCells(cells) + rest) == Some(Parsed(cells, |EncodeCells(cells)|))
  {
    hide DecodeField, DecodeFields, EncodeCell, EncodeCells, AllFit, AllTyped, Fits, KindsOf;
    if cells == [] {
      NoCells();
      NoFields(rest);
      assert KindsOf(cells) == [] && EncodeCells(cells) + rest == rest;
    } else {
      CellsStep(cells);
      var more := EncodeCells(cells[1..]) + rest;
      var from := EncodeCells(cells) + rest;
      FieldReads(cells[0], more);
      FieldsRead(cells[1..], rest);
      assert from == EncodeCell(cells[0]) + more;
      assert from[|EncodeCell(cells[0])|..] == more;
      assert KindsOf(cells)[1..] == KindsOf(cells[1..]);
      FieldsStep(KindsOf(cells), from, Parsed(cells[0], |EncodeCell(cells[0])|), Parsed(cells[1..], |EncodeCells(cells[1..])|));
      assert cells == [cells[0]] + cells[1..];
    }
  }

  /** The cells of the optional groups, one group after another. */
  ghost function Flat(groups: seq<seq<Cell>>): seq<Cell> {
    if groups == [] then [] else groups[0] + Flat(groups[1..])
  }

  /** The groups are the first of `kinds`, none of them empty. */
  ghost predicate Grouped(kinds: seq<seq<Kind>>, groups: seq<seq<Cell>>) {
    && |groups| <= |kinds|
    && forall g :: 0 <= g < |groups| ==> KindsOf(groups[g]) == kinds[g] && groups[g] != [] && AllFit(groups[g])
  }

  lemma {:induction false} FlatFits(kinds: seq<seq<Kind>>, groups: seq<seq<Cell>>)
    requires Grouped(kinds, groups)
    ensures AllFit(Flat(groups))
  {
    if groups != [] { FlatFits(kinds[1..], groups[1..]); }
  }

  lemma SomeBytes(cells: seq<Cell>)
    requires cells != [] && AllFit(cells)
    ensures |EncodeCells(cells)| > 0
  {
    hide Typed, EncodeCell;
    FieldReads(cells[0], []);
  }

  lemma {:induction false} GroupsRead(kinds: seq<seq<Kind>>, groups: seq<seq<Cell>>, rest: seq<byte>)
    requires Grouped(kinds, groups)
    ensures AllFit(Flat(groups))
    ensures DecodeGroups(kinds, EncodeCells(Flat(groups)) + rest, |rest|) == Some(Parsed(Flat(groups), |EncodeCells(Flat(groups))|))
  {
    hide DecodeFields, AllFit, AllTyped, EncodeCells, KindsOf;
    FlatFits(kinds, groups);
    FitsIsTyped(Flat(groups));
    var from := EncodeCells(Flat(groups)) + rest;
    if groups == [] {
      NoCells();
      assert from == rest;
      if kinds != [] { GroupsRead(kinds[1..], groups, rest); }
    } else {
      FlatFits(kinds[1..], groups[1..]);
      FitsIsTyped(groups[0]);
      FitsIsTyped(Flat(groups[1..]));
      var more := EncodeCells(Flat(groups[1..])) + rest;
      GroupsRead(kinds[1..], groups[1..], rest);
      CellsConcat(groups[0], Flat(groups[1..]));
      assert from == EncodeCells(groups[0]) + more;
      SomeBytes(groups[0]);
      FieldsRead(groups[0], more);
      assert from[|EncodeCells(groups[0])|..] == more;
    }
  }

  lemma NoCells()
    ensures AllTyped([]) && EncodeCells([]) == []
  {
  }

  lemma FitsIsTyped(cells: seq<Cell>)
    requires AllFit(cells)
    ensures AllTyped(cells)
  {
  }

  /** The required cells and some of the optional groups, in their order. */
  ghost predicate Written(required: seq<Cell>, groups: seq<seq<Cell>>) {
    && KindsOf(required) == REQUIRED && AllFit(required) && Grouped(OPTIONAL, groups)
    && AllTyped(required + Flat(groups)) && Encodable(required + Flat(groups))
  }

  /** Encoding then decoding a header gives it back, whatever follows it. */
  lemma HeaderDecodes(required: seq<Cell>, groups: seq<seq<Cell>>, tail: seq<byte>)
    requires Written(required, groups)
    ensures var h := required + Flat(groups);
            DecodeHeader(EncodeHeader(h) + tail) == Some(Parsed(h, |EncodeHeader(h)|))
  {
    hide DecodeFields, DecodeGroups, AllFit, AllTyped, EncodeCells, PayloadLength, EncodeHead, GuestItem, Flat, Grouped;
    var h := required + Flat(groups);
    FlatFits(OPTIONAL, groups);
    FitsIsTyped(required);
    FitsIsTyped(Flat(groups));
    CellsConcat(required, Flat(groups));
    PayloadLengthIsSize(h);
    var rest := EncodeCells(h) + tail;
    HeadReads(true, PayloadLength(h), rest);
    assert EncodeHeader(h) + tail == EncodeHead(true, PayloadLength(h)) + rest;
    var from := EncodeHeader(h) + tail;
    var prefix := |EncodeHead(true, PayloadLength(h))|;
    assert from[prefix..] == rest;
    assert rest == EncodeCells(required) + (EncodeCells(Flat(groups)) + tail);
    FieldsRead(required, EncodeCells(Flat(groups)) + tail);
    assert rest[|EncodeCells(required)|..] == EncodeCells(Flat(groups)) + tail;
    GroupsRead(OPTIONAL, groups, tail);
  }

  /** A block: one list of a header and a body. */
  function EncodeBlock(header: seq<byte>, body: seq<byte>): seq<byte>
    requires |header| + |body| < U64
  {
    EncodeHead(true, |header| + |body|) + (header + body)
  }

  lemma BlockDecodes(required: seq<Cell>, groups: seq<seq<Cell>>, rest: seq<byte>, body: seq<byte> -> bool)
    requires Written(required, groups) && |EncodeHeader(required + Flat(groups))| + |rest| < U64 && body(rest)
    ensures DecodeBlock(EncodeBlock(EncodeHeader(required + Flat(groups)), rest), body) == Some(required + Flat(groups))
  {
    hide DecodeHeader, EncodeHeader, Encodable, AllFit, Grouped, GuestItem, EncodeHead, Flat;
    var header := EncodeHeader(required + Flat(groups));
    var block := EncodeBlock(header, rest);
    HeadReads(true, |header| + |rest|, header + rest);
    HeaderDecodes(required, groups, rest);
    assert block[|EncodeHead(true, |header| + |rest|)|..] == header + rest;
    assert (header + rest)[|header|..] == rest;
  }
}
