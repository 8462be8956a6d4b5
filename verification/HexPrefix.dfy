/**
  Hex-prefix paths of trie nodes (Appendix C of the Ethereum Yellow Paper): the decoder of
  prover/stateless_validator/src/mfbd.rs against the encoding it has to undo.
  */
module HexPrefix {
  import opened Basics
  import opened Bytes
  import opened Rlp

  type nibble = x: int | 0 <= x < 16

  const PATH_LIMIT: nat := 64

  function Join(high: nibble, low: nibble): (b: byte)
    ensures b / 16 == high && b % 16 == low
  {
    16 * (high as int) + low
  }

  /** Two nibbles to a byte. */
  function Pack(nibbles: seq<nibble>): (x: seq<byte>)
    requires |nibbles| % 2 == 0
    ensures 2 * |x| == |nibbles|
  {
    if nibbles == [] then [] else [Join(nibbles[0], nibbles[1])] + Pack(nibbles[2..])
  }

  function Unpack(x: seq<byte>): (nibbles: seq<nibble>)
    ensures |nibbles| == 2 * |x|
  {
    if x == [] then [] else [x[0] / 16, x[0] % 16] + Unpack(x[1..])
  }

  lemma {:induction false} UnpackInverts(nibbles: seq<nibble>)
    requires |nibbles| % 2 == 0
    ensures Unpack(Pack(nibbles)) == nibbles
  {
    if nibbles != [] {
      UnpackInverts(nibbles[2..]);
      assert Pack(nibbles)[1..] == Pack(nibbles[2..]);
      assert [nibbles[0], nibbles[1]] + nibbles[2..] == nibbles;
    }
  }

  /** The encoding: a flag for leaves, the parity, and the odd nibble first. */
  function Encode(path: seq<nibble>, leaf: bool): (x: seq<byte>)
    ensures |x| == |path| / 2 + 1
  {
    var flag: nibble := if leaf then 2 else 0;
    if |path| % 2 == 1 then [Join(flag + 1, path[0])] + Pack(path[1..]) else [Join(flag, 0)] + Pack(path)
  }

  lemma {:induction false} PackAt(nibbles: seq<nibble>, k: nat)
    requires |nibbles| % 2 == 0 && 2 * k < |nibbles|
    ensures Pack(nibbles)[k] == 16 * (nibbles[2 * k] as int) + nibbles[2 * k + 1]
  {
    if k > 0 { PackAt(nibbles[2..], k - 1); }
  }

  /** The bytes of an encoding: 0x20 for a leaf, 0x10 and the first nibble for an odd path, then two nibbles a byte, the high one first. */
  lemma EncodedBytes(path: seq<nibble>, leaf: bool)
    ensures Encode(path, leaf)[0] == (if leaf then 0x20 else 0) as int + (if |path| % 2 == 1 then 0x10 + path[0] as int else 0)
    ensures forall k :: 0 <= k < |path| / 2 ==>
      Encode(path, leaf)[k + 1] == 16 * (path[|path| % 2 + 2 * k] as int) + path[|path| % 2 + 2 * k + 1]
  {
    hide Pack;
    forall k | 0 <= k < |path| / 2
      ensures Encode(path, leaf)[k + 1] == 16 * (path[|path| % 2 + 2 * k] as int) + path[|path| % 2 + 2 * k + 1]
    {
      EncodedPair(path, leaf, k);
    }
  }

  lemma EncodedPair(path: seq<nibble>, leaf: bool, k: nat)
    requires k < |path| / 2
    ensures Encode(path, leaf)[k + 1] == 16 * (path[|path| % 2 + 2 * k] as int) + path[|path| % 2 + 2 * k + 1]
  {
    hide Pack, Join;
    if |path| % 2 == 1 {
      PackAt(path[1..], k);
      assert Encode(path, leaf)[k + 1] == Pack(path[1..])[k];
    } else {
      PackAt(path, k);
      assert Encode(path, leaf)[k + 1] == Pack(path)[k];
    }
  }

  datatype Path = Path(leaf: bool, nibbles: seq<nibble>)

  predicate IsLeaf(first: byte) { first / 32 % 2 == 1 }
  predicate IsOdd(first: byte) { first / 16 % 2 == 1 }

  function OddNibble(first: byte): seq<nibble> { if IsOdd(first) then [first % 16] else [] }

  /** What the decoder answers: the flag bits of the first byte, its odd nibble, and the rest unpacked. */
  function Decoded(x: seq<byte>): Option<Path> {
    if x == [] then None
    else
      var nibbles := OddNibble(x[0]) + Unpack(x[1..]);
      if |nibbles| > PATH_LIMIT then None else Some(Path(IsLeaf(x[0]), nibbles))
  }

  /** `hp_decode`, filling a 64-nibble buffer. */
  method Decode(x: seq<byte>) returns (r: Option<Path>)
    ensures r == Decoded(x)
  {
    hide IsLeaf, IsOdd, Unpack;
    if x == [] { return None; }
    var out := new nibble[PATH_LIMIT](_ => 0);
    var n := 0;
    if IsOdd(x[0]) {
      out[0], n := x[0] % 16, 1;
    }
    ghost var all := OddNibble(x[0]) + Unpack(x[1..]);
    assert out[..n] == OddNibble(x[0]);
    for i := 1 to |x|
      invariant 0 <= n <= PATH_LIMIT && n + 2 * (|x| - i) == |all|
      invariant out[..n] + Unpack(x[i..]) == all
    {
      if n > PATH_LIMIT - 2 { return None; }
      UnpackStep(out[..n], x[i..]);
      assert x[i..][1..] == x[i + 1..];
      StoreNibbles(out, n, x[i]);
      n := n + 2;
    }
    assert x[|x|..] == [] && out[..n] + [] == out[..n];
    NothingUnpacked();
    r := Some(Path(IsLeaf(x[0]), out[..n]));
  }

  method StoreNibbles(out: array<nibble>, n: nat, b: byte)
    requires n + 2 <= out.Length
    modifies out
    ensures out[..n + 2] == old(out[..n]) + [b / 16, b % 16]
  {
    out[n], out[n + 1] := b / 16, b % 16;
  }

  lemma NothingUnpacked()
    ensures Unpack([]) == []
  {
  }

  lemma UnpackStep(done: seq<nibble>, x: seq<byte>)
    requires x != []
    ensures done + Unpack(x) == done + [x[0] / 16, x[0] % 16] + Unpack(x[1..])
  {
    assert Unpack(x) == [x[0] / 16, x[0] % 16] + Unpack(x[1..]);
  }

  lemma FlagsRead(path: seq<nibble>, leaf: bool)
    ensures var first := Encode(path, leaf)[0];
            && IsLeaf(first) == leaf && OddNibble(first) == if |path| % 2 == 1 then [path[0]] else []
  {
    hide Pack;
  }

  /** Decoding inverts encoding for every path of up to 64 nibbles, and refuses every longer one. */
  lemma DecodeInverts(path: seq<nibble>, leaf: bool)
    ensures |path| <= 64 ==> Decoded(Encode(path, leaf)) == Some(Path(leaf, path))
    ensures |path| > 64 ==> Decoded(Encode(path, leaf)).None?
  {
    hide IsLeaf, IsOdd, OddNibble, Join;
    FlagsRead(path, leaf);
    var x := Encode(path, leaf);
    if |path| % 2 == 1 {
      UnpackInverts(path[1..]);
      assert x[1..] == Pack(path[1..]);
      assert [path[0]] + path[1..] == path;
    } else {
      UnpackInverts(path);
      assert x[1..] == Pack(path) && [] + path == path;
    }
  }
}
