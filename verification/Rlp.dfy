/**
  Recursive Length Prefix items as the guest reads and writes them
  (zilk_core/core/rlp/decode.cpp, encode.cpp and common/endian.hpp) and as the host reads them
  (`rlp_item` of prover/prover_airbender/src/public_output.rs).
  */
module Rlp {
  import opened Basics
  import opened Bytes

  // ---------- Compact big-endian integers ----------

  /** The number some bytes hold, most significant byte first. */
  function FromBe(x: seq<byte>): (v: nat)
    ensures v < Pow256(|x|)
  {
    if x == [] then 0 else 256 * FromBe(x[..|x| - 1]) + x[|x| - 1]
  }

  /** A number without leading zero bytes. */
  function ToBigCompact(v: nat): (x: seq<byte>)
    ensures x != [] ==> x[0] != 0
    ensures v == 0 <==> x == []
  {
    if v == 0 then [] else ToBigCompact(v / 256) + [v % 256]
  }

  /** Refuses what does not fit the width and what has a leading zero. */
  function FromBigCompact(x: seq<byte>, width: nat): Option<nat> {
    if |x| > width then None
    else if x != [] && x[0] == 0 then None
    else Some(FromBe(x))
  }

  lemma {:induction false} CompactInverts(x: seq<byte>)
    requires x != [] ==> x[0] != 0
    ensures ToBigCompact(FromBe(x)) == x
  {
    if x != [] {
      var init := x[..|x| - 1];
      CompactInverts(init);
      assert FromBe(x) / 256 == FromBe(init) && FromBe(x) % 256 == x[|x| - 1];
      assert x == init + [x[|x| - 1]];
    }
  }

  lemma {:induction false} CompactRoundTrip(v: nat, width: nat)
    requires v < Pow256(width)
    ensures |ToBigCompact(v)| <= width && FromBigCompact(ToBigCompact(v), width) == Some(v)
  {
    if v > 0 {
      var x := ToBigCompact(v);
      CompactRoundTrip(v / 256, width - 1);
      assert x[..|x| - 1] == ToBigCompact(v / 256);
    }
  }

  /** What the decoder accepts, the encoder gives back. */
  lemma CompactReencodes(x: seq<byte>, width: nat)
    requires FromBigCompact(x, width).Some?
    ensures ToBigCompact(FromBigCompact(x, width).value) == x
  {
    CompactInverts(x);
  }

  // ---------- Items ----------

  /** The shape of the item at the start of a view: what precedes its payload, and the payload's size. */
  datatype Item = Item(list: bool, prefix: nat, size: nat) {
    function Len(): nat { prefix + size }
  }

  function Fitting(from: seq<byte>, it: Item): Option<Item> {
    if |from| < it.Len() then None else Some(it)
  }

  /** `decode_header` of the guest. A single byte below 0x80 is its own payload. */
  function GuestItem(from: seq<byte>): (r: Option<Item>)
    ensures r.Some? ==> r.value.Len() <= |from| && r.value.Len() > 0
  {
    if from == [] then None
    else
      var b := from[0];
      if b < 0x80 then Some(Item(false, 0, 1))
      else if b < 0xB8 then
        if b == 0x81 && (|from| < 2 || from[1] < 0x80) then None
        else Fitting(from, Item(false, 1, b - 0x80))
      else if b < 0xC0 then GuestLong(from, false, b - 0xB7)
      else if b < 0xF8 then Fitting(from, Item(true, 1, b - 0xC0))
      else GuestLong(from, true, b - 0xF7)
  }

  function GuestLong(from: seq<byte>, list: bool, lenOfLen: nat): (r: Option<Item>)
    requires from != []
    ensures r.Some? ==> r.value.Len() <= |from| && r.value.Len() > 0
  {
    if |from| - 1 < lenOfLen then None
    else match FromBigCompact(from[1..1 + lenOfLen], 8)
      case None => None
      case Some(len) => if len < 56 || len > |from| - 1 - lenOfLen then None else Some(Item(list, 1 + lenOfLen, len))
  }

  /** `rlp_item` of the host. */
  function HostItem(from: seq<byte>): (r: Option<Item>)
    ensures r.Some? ==> r.value.Len() <= |from| && r.value.Len() > 0
  {
    if from == [] then None
    else
      var b := from[0];
      if b < 0x80 then Some(Item(false, 0, 1))
      else if b < 0xB8 then Fitting(from, Item(false, 1, b - 0x80))
      else if 0xC0 <= b < 0xF8 then Fitting(from, Item(true, 1, b - 0xC0))
      else
        var list, n := b >= 0xC0, if b < 0xC0 then b - 0xB7 else b - 0xF7;
        if |from| < 1 + n || n > 4 || from[1] == 0 then None
        else Fitting(from, Item(list, 1 + n, FromBe(from[1..1 + n])))
  }

  /** A compact number of more than four bytes is at least 2^32. */
  lemma {:induction false} LongIsLarge(x: seq<byte>, k: nat)
    requires |x| == k + 1 && x[0] != 0
    ensures FromBe(x) >= Pow256(k)
  {
    if k == 0 {
      assert x[..0] == [];
    } else {
      LongIsLarge(x[..k], k - 1);
    }
  }

  lemma {:induction false} PowersGrow(a: nat, b: nat)
    requires a <= b
    ensures Pow256(a) <= Pow256(b)
  {
    if a < b { PowersGrow(a, b - 1); }
  }

  /** The host reads every item the guest reads, and reads it the same. */
  lemma HostReadsGuestItems(from: seq<byte>)
    requires |from| < U32 && GuestItem(from).Some?
    ensures HostItem(from) == GuestItem(from)
  {
    var b := from[0];
    if 0xB8 <= b < 0xC0 || b >= 0xF8 {
      var n := if b < 0xC0 then b - 0xB7 else b - 0xF7;
      var x := from[1..1 + n];
      if n > 4 {
        LongIsLarge(x, n - 1);
        PowersGrow(4, n - 1);
        PowersOfWidths();
      }
    }
  }

  /** An item is read from its own bytes alone. */
  lemma HostItemOfPrefix(from: seq<byte>, k: nat)
    requires HostItem(from).Some? && HostItem(from).value.Len() <= k <= |from|
    ensures HostItem(from[..k]) == HostItem(from)
  {
    hide FromBe;
    var b := from[0];
    assert from[..k][0] == b && |from[..k]| == k;
    if 0xB8 <= b < 0xC0 || b >= 0xF8 {
      var n := if b < 0xC0 then b - 0xB7 else b - 0xF7;
      SliceOfPrefix(from, k, 1, 1 + n);
    }
  }

  // ---------- Encoding ----------

  function EncodeHead(list: bool, n: nat): (r: seq<byte>)
    requires n < U64
  {
    if n < 56 then [(if list then 0xC0 else 0x80) + n]
    else
      PowersOfWidths();
      CompactRoundTrip(n, 8);
      var be := ToBigCompact(n);
      [(if list then 0xF7 else 0xB7) + |be|] + be
  }

  function EncodeBytes(s: seq<byte>): seq<byte>
    requires |s| < U64
  {
    if |s| == 1 && s[0] < 0x80 then s else EncodeHead(false, |s|) + s
  }

  function EncodeUint(v: nat): seq<byte>
    requires v < Pow256(32)
  {
    if v == 0 then [0x80]
    else if v < 0x80 then [v]
    else
      CompactRoundTrip(v, 32);
      EncodeHead(false, |ToBigCompact(v)|) + ToBigCompact(v)
  }

  lemma LongHeadReencodes(from: seq<byte>, list: bool, n: nat)
    requires 1 <= n <= 8 && |from| < U64 && from != [] && GuestLong(from, list, n).Some?
    requires from[0] == (if list then 0xF7 else 0xB7) + n
    ensures var it := GuestLong(from, list, n).value; from[..it.prefix] == EncodeHead(it.list, it.size)
  {
    hide ToBigCompact, FromBe;
    CompactReencodes(from[1..1 + n], 8);
    assert from[..1 + n] == [from[0]] + from[1..1 + n];
  }

  /** The guest accepts one head for each payload: the one it would write. */
  lemma HeadReencodes(from: seq<byte>)
    requires GuestItem(from).Some? && |from| < U64
    ensures var it := GuestItem(from).value; it.prefix > 0 ==> from[..it.prefix] == EncodeHead(it.list, it.size)
  {
    hide GuestLong;
    var b := from[0];
    if 0xB8 <= b < 0xC0 {
      LongHeadReencodes(from, false, b - 0xB7);
    } else if b >= 0xF8 {
      LongHeadReencodes(from, true, b - 0xF7);
    } else if b >= 0x80 {
      assert from[..1] == [b];
    }
  }

  /** A string item is the encoding of its payload. */
  lemma StringReencodes(from: seq<byte>)
    requires GuestItem(from).Some? && !GuestItem(from).value.list && |from| < U64
    ensures var it := GuestItem(from).value; EncodeBytes(from[it.prefix..it.Len()]) == from[..it.Len()]
  {
    hide EncodeHead, FromBe;
    var it := GuestItem(from).value;
    HeadReencodes(from);
    var payload := from[it.prefix..it.Len()];
    if it.prefix > 0 {
      if |payload| == 1 { assert from[0] == 0x81 && payload[0] == from[1]; }
      assert from[..it.Len()] == from[..it.prefix] + payload;
    } else {
      assert payload == from[..1];
    }
  }

  /** Compact numbers are written as the strings of their bytes. */
  lemma UintIsString(x: seq<byte>)
    requires FromBigCompact(x, 32).Some?
    ensures FromBe(x) < Pow256(32) && EncodeUint(FromBe(x)) == EncodeBytes(x)
  {
    hide FromBe, ToBigCompact, Pow256;
    CompactReencodes(x, 32);
    PowersGrow(|x|, 32);
    CompactSize(x);
  }

  /** One byte or none holds less than 256, two and more at least that. */
  lemma CompactSize(x: seq<byte>)
    requires x != [] ==> x[0] != 0
    ensures x == [] ==> FromBe(x) == 0
    ensures |x| == 1 ==> FromBe(x) == x[0]
    ensures |x| > 1 ==> FromBe(x) >= 256
  {
    if |x| == 1 { assert x[..0] == []; }
    if |x| > 1 {
      LongIsLarge(x, |x| - 1);
      PowersGrow(1, |x| - 1);
    }
  }

  // ---------- Reading back what was written ----------

  lemma LongHeadReads(list: bool, n: nat, rest: seq<byte>)
    requires 56 <= n < U64 && n <= |rest|
    ensures GuestItem(EncodeHead(list, n) + rest) == Some(Item(list, |EncodeHead(list, n)|, n))
  {
    hide ToBigCompact, FromBe;
    PowersOfWidths();
    CompactRoundTrip(n, 8);
    var be, from := ToBigCompact(n), EncodeHead(list, n) + rest;
    assert from[0] == (if list then 0xF7 else 0xB7) + |be| && from[1..1 + |be|] == be;
  }

  /** The guest reads the head it writes, wherever the payload is not a string of one small byte. */
  lemma HeadReads(list: bool, n: nat, rest: seq<byte>)
    requires n < U64 && n <= |rest| && (n == 1 && !list ==> rest[0] >= 0x80)
    ensures GuestItem(EncodeHead(list, n) + rest) == Some(Item(list, |EncodeHead(list, n)|, n))
  {
    if n >= 56 {
      LongHeadReads(list, n, rest);
    } else {
      var from := EncodeHead(list, n) + rest;
      assert from[0] == (if list then 0xC0 else 0x80) + n && from[1..] == rest;
    }
  }

  /** A string is read back from its encoding. */
  lemma BytesRead(x: seq<byte>, rest: seq<byte>)
    requires |x| < U64
    ensures var from, prefix := EncodeBytes(x) + rest, |EncodeBytes(x)| - |x|;
            && prefix >= 0 && GuestItem(from) == Some(Item(false, prefix, |x|)) && from[prefix..prefix + |x|] == x
  {
    hide EncodeHead;
    var from := EncodeBytes(x) + rest;
    if |x| == 1 && x[0] < 0x80 {
      assert from[0] == x[0];
    } else {
      HeadReads(false, |x|, x + rest);
      assert from == EncodeHead(false, |x|) + (x + rest);
    }
  }
}
