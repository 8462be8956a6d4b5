/**
  The node decoders of the witness walker (`rlp_decode_header`, `decode_branch`,
  `decode_ext_or_leaf` of prover/stateless_validator/src/mfbd.rs), on arbitrary bytes.
  */
module TrieNodes {
  import opened Basics
  import opened Bytes
  import opened Rlp
  import Hex = HexPrefix

  /** `Panic` is an index past the end of a slice. */
  datatype Outcome<+T> = Ok(value: T) | Err | Panic

  const HASH: nat := 32
  const WIDTH: nat := 16

  /** A node's header; unlike the other readers it promises nothing about the payload being there. */
  function Head(input: seq<byte>): (r: Option<Item>)
    ensures r.Some? ==> r.value.prefix <= |input|
  {
    if input == [] then None
    else
      var b := input[0];
      if b < 0x80 then Some(Item(false, 0, 1))
      else if b < 0xB8 then Some(Item(false, 1, b - 0x80))
      else if 0xC0 <= b < 0xF8 then Some(Item(true, 1, b - 0xC0))
      else
        var n := if b < 0xC0 then b - 0xB7 else b - 0xF7;
        if |input| < 1 + n then None else Some(Item(b >= 0xC0, 1 + n, FromBe(input[1..1 + n])))
  }

  // ---------- Branches ----------

  datatype Children = Children(forms: seq<seq<byte>>, rest: seq<byte>)

  /** The stored form of one child: empty, a hash, or its header byte with its payload. */
  function DecodeChild(remaining: seq<byte>): (r: Outcome<Children>)
    ensures r.Ok? ==> |r.value.forms| == 1
  {
    if remaining == [] then Err
    else match Head(remaining)
      case None => Err
      case Some(h) =>
        var after := remaining[h.prefix..];
        if h.size == 0 then Ok(Children([[]], after))
        else if remaining[0] != 0xA0 && h.size > 31 then Err
        else if h.size > |after| then Panic
        else Ok(Children([if remaining[0] != 0xA0 then [remaining[0]] + after[..h.size] else after[..h.size]],
                         after[h.size..]))
  }

  function DecodeChildren(remaining: seq<byte>, n: nat): (r: Outcome<Children>)
    ensures r.Ok? ==> |r.value.forms| == n
  {
    if n == 0 then Ok(Children([], remaining))
    else match DecodeChild(remaining)
      case Err => Err
      case Panic => Panic
      case Ok(first) =>
        match DecodeChildren(first.rest, n - 1)
        case Err => Err
        case Panic => Panic
        case Ok(more) => Ok(Children(first.forms + more.forms, more.rest))
  }

  /** The seventeenth element: a string that ends the node. */
  function DecodeValue(remaining: seq<byte>): Outcome<()> {
    match Head(remaining)
    case None => Err
    case Some(h) =>
      if h.list then Err
      else if h.size > |remaining| - h.prefix then Panic
      else if h.size != |remaining| - h.prefix then Err
      else Ok(())
  }

  function DecodedBranch(payload: seq<byte>): (r: Outcome<seq<seq<byte>>>)
    ensures r.Ok? ==> |r.value| == WIDTH
  {
    match DecodeChildren(payload, WIDTH)
    case Err => Err
    case Panic => Panic
    case Ok(children) =>
      match DecodeValue(children.rest)
      case Err => Err
      case Panic => Panic
      case Ok(_) => Ok(children.forms)
  }

  function Joined(done: seq<seq<byte>>, r: Outcome<Children>): Outcome<Children> {
    match r
    case Err => Err
    case Panic => Panic
    case Ok(c) => Ok(Children(done + c.forms, c.rest))
  }

  /** `decode_branch`. */
  method DecodeBranch(payload: seq<byte>) returns (r: Outcome<seq<seq<byte>>>)
    ensures r == DecodedBranch(payload)
  {
    hide DecodeChild, DecodeValue;
    var forms: seq<seq<byte>>, remaining := [], payload;
    JoinedNothing(DecodeChildren(payload, WIDTH));
    for i := 0 to WIDTH
      invariant Joined(forms, DecodeChildren(remaining, WIDTH - i)) == DecodeChildren(payload, WIDTH)
    {
      var child := DecodeChild(remaining);
      match child {
        case Err => return Err;
        case Panic => return Panic;
        case Ok(c) =>
          JoinedBoth(forms, c.forms, DecodeChildren(c.rest, WIDTH - i - 1));
          forms, remaining := forms + c.forms, c.rest;
      }
    }
    assert forms + [] == forms;
    match DecodeValue(remaining) {
      case Err => r := Err;
      case Panic => r := Panic;
      case Ok(_) => r := Ok(forms);
    }
  }

  lemma JoinedNothing(r: Outcome<Children>)
    ensures Joined([], r) == r
  {
    if r.Ok? { assert [] + r.value.forms == r.value.forms; }
  }

  lemma JoinedBoth(done: seq<seq<byte>>, next: seq<seq<byte>>, r: Outcome<Children>)
    ensures Joined(done, Joined(next, r)) == Joined(done + next, r)
  {
    if r.Ok? { assert done + (next + r.value.forms) == done + next + r.value.forms; }
  }

  // ---------- Extensions and leaves ----------

  datatype Short = Short(path: Hex.Path, second: seq<byte>)

  /** The second element: a leaf's value, an extension's hash, or the encoding of anything else. */
  function DecodeSecond(path: Hex.Path, remaining: seq<byte>): Outcome<Short> {
    match Head(remaining)
    case None => Err
    case Some(h) =>
      if h.list then Err
      else if h.Len() > |remaining| then Panic
      else if h.Len() != |remaining| then Err
      else Ok(Short(path, if path.leaf || h.size == HASH then remaining[h.prefix..h.Len()] else remaining[..h.Len()]))
  }

  /** `decode_ext_or_leaf`. */
  function DecodedShort(payload: seq<byte>): Outcome<Short> {
    match Head(payload)
    case None => Err
    case Some(h) =>
      if h.list then Err
      else if h.Len() > |payload| then Panic
      else match Hex.Decoded(payload[h.prefix..h.Len()])
        case None => Err
        case Some(path) => DecodeSecond(path, payload[h.Len()..])
  }

  // ---------- What the encoder writes ----------

  function Str(s: seq<byte>): seq<byte>
    requires |s| < U32
  {
    EncodeBytes(s)
  }

  lemma HeadOfEncoding(list: bool, n: nat, rest: seq<byte>)
    requires n < U64
    ensures Head(EncodeHead(list, n) + rest) == Some(Item(list, |EncodeHead(list, n)|, n))
  {
    var x := EncodeHead(list, n) + rest;
    if n >= 56 {
      PowersOfWidths();
      CompactRoundTrip(n, 8);
      var be := ToBigCompact(n);
      assert x[1..1 + |be|] == be;
    }
  }

  lemma HeadOfString(s: seq<byte>, rest: seq<byte>)
    requires |s| < U32
    ensures Head(Str(s) + rest) == Some(Item(false, |Str(s)| - |s|, |s|)) && Str(s)[|Str(s)| - |s|..] == s
  {
    hide EncodeHead, Head;
    if |s| == 1 && s[0] < 0x80 {
      OneByteHead(s + rest);
    } else {
      HeadOfEncoding(false, |s|, s + rest);
      assert Str(s) + rest == EncodeHead(false, |s|) + (s + rest);
    }
  }

  lemma OneByteHead(x: seq<byte>)
    requires x != [] && x[0] < 0x80
    ensures Head(x) == Some(Item(false, 0, 1))
  {
  }

  /** A two-element list whose elements are a path and a reference or value is no branch. */
  lemma ShortIsNoBranch(first: seq<byte>, h1: Item, second: seq<byte>, h2: Item)
    requires first != [] && second != []
    requires Head(first + second) == Some(h1) && h1.Len() == |first| && Head(second) == Some(h2) && h2.Len() == |second|
    ensures DecodedBranch(first + second).Err?
  {
    hide Head;
    ConsumesOne(first + second, h1);
    assert (first + second)[h1.Len()..] == second;
    ConsumesOne(second, h2);
    assert second[h2.Len()..] == [];
    NoThirdChild(first + second, second);
  }

  lemma ConsumesOne(x: seq<byte>, h: Item)
    requires x != [] && Head(x) == Some(h) && h.Len() <= |x|
    ensures DecodeChild(x).Err? || (DecodeChild(x).Ok? && DecodeChild(x).value.rest == x[h.Len()..])
  {
    hide Head;
    assert x[h.prefix..][h.size..] == x[h.Len()..];
  }

  lemma NoThirdChild(x: seq<byte>, y: seq<byte>)
    requires DecodeChild(x).Err? || (DecodeChild(x).Ok? && DecodeChild(x).value.rest == y)
    requires DecodeChild(y).Err? || (DecodeChild(y).Ok? && DecodeChild(y).value.rest == [])
    ensures DecodedBranch(x).Err?
  {
    hide DecodeValue, Head;
    assert DecodeChild([]).Err?;
    assert DecodeChildren([], WIDTH - 2).Err?;
    assert DecodeChildren(y, WIDTH - 1).Err?;
  }
}
