/** Bytes, little-endian numbers, and reads and writes at offsets of a byte buffer. */
module Bytes {

  type byte = x: int | 0 <= x < 256

  const U32: nat := 0x1_0000_0000
  const U64: nat := 0x1_0000_0000_0000_0000

  function Pow256(k: nat): (p: nat)
    ensures p >= 1
  {
    if k == 0 then 1 else 256 * Pow256(k - 1)
  }

  lemma PowersOfWidths()
    ensures Pow256(4) == U32 && Pow256(8) == U64
  {
    assert Pow256(2) == 0x1_0000;
    assert Pow256(3) == 0x100_0000;
    assert Pow256(5) == 0x100_0000_0000;
    assert Pow256(7) == 0x100_0000_0000_0000;
  }

  // ---------- Little-endian numbers ----------

  /** The number some bytes hold, least significant byte first. */
  function FromLe(x: seq<byte>): (v: nat)
    ensures v < Pow256(|x|)
  {
    if x == [] then 0 else x[0] + 256 * FromLe(x[1..])
  }

  /** The low `n` bytes of a number, least significant first. */
  function Le(v: nat, n: nat): (x: seq<byte>)
    ensures |x| == n
  {
    if n == 0 then [] else [v % 256] + Le(v / 256, n - 1)
  }

  lemma {:induction false} LeRoundTrip(v: nat, n: nat)
    requires v < Pow256(n)
    ensures FromLe(Le(v, n)) == v
  {
    if n > 0 {
      LeRoundTrip(v / 256, n - 1);
      assert Le(v, n)[1..] == Le(v / 256, n - 1);
    }
  }

  lemma {:induction false} LeInverts(x: seq<byte>)
    ensures Le(FromLe(x), |x|) == x
  {
    if x != [] {
      LeInverts(x[1..]);
      assert FromLe(x) % 256 == x[0] && FromLe(x) / 256 == FromLe(x[1..]);
    }
  }

  // ---------- Buffers ----------

  /** `n` bytes at offset `a`. */
  function Slice(b: seq<byte>, a: nat, n: nat): (r: seq<byte>)
    requires a + n <= |b|
    ensures |r| == n
  {
    b[a..a + n]
  }

  /** The buffer with `v` written at offset `a`. */
  function Put(b: seq<byte>, a: nat, v: seq<byte>): (r: seq<byte>)
    requires a + |v| <= |b|
    ensures |r| == |b|
  {
    b[..a] + v + b[a + |v|..]
  }

  lemma PutThere(b: seq<byte>, a: nat, v: seq<byte>)
    requires a + |v| <= |b|
    ensures Slice(Put(b, a, v), a, |v|) == v
  {
  }

  /** A write changes no slice it does not meet. */
  lemma PutElsewhere(b: seq<byte>, a: nat, v: seq<byte>)
    requires a + |v| <= |b|
    ensures forall x: nat, n: nat {:trigger Slice(Put(b, a, v), x, n)} ::
              (x + n <= a || (a + |v| <= x && x + n <= |b|)) ==> Slice(Put(b, a, v), x, n) == Slice(b, x, n)
  {
    forall x: nat, n: nat | x + n <= a || (a + |v| <= x && x + n <= |b|)
      ensures Slice(Put(b, a, v), x, n) == Slice(b, x, n)
    {
      PutElsewhereAt(b, a, v, x, n);
    }
  }

  lemma PutElsewhereAt(b: seq<byte>, a: nat, v: seq<byte>, x: nat, n: nat)
    requires a + |v| <= |b| && (x + n <= a || (a + |v| <= x && x + n <= |b|))
    ensures Slice(Put(b, a, v), x, n) == Slice(b, x, n)
  {
    var r := Put(b, a, v);
    assert forall i :: x <= i < x + n ==> r[i] == b[i];
  }

  // ---------- Fields ----------

  ghost predicate FieldAt(b: seq<byte>, at: nat, v: nat, width: nat) {
    at + width <= |b| && Slice(b, at, width) == Le(v, width)
  }

  lemma PutsField(b: seq<byte>, at: nat, v: nat, width: nat)
    requires at + width <= |b|
    ensures FieldAt(Put(b, at, Le(v, width)), at, v, width)
  {
    PutThere(b, at, Le(v, width));
  }

  function ReadU32(b: seq<byte>, at: nat): nat
    requires at + 4 <= |b|
  {
    FromLe(Slice(b, at, 4))
  }

  function ReadU64(b: seq<byte>, at: nat): nat
    requires at + 8 <= |b|
  {
    FromLe(Slice(b, at, 8))
  }

  lemma ReadsField4(b: seq<byte>, at: nat, v: nat)
    requires FieldAt(b, at, v, 4) && v < U32
    ensures ReadU32(b, at) == v
  {
    PowersOfWidths();
    LeRoundTrip(v, 4);
  }

  lemma ReadsField8(b: seq<byte>, at: nat, v: nat)
    requires FieldAt(b, at, v, 8) && v < U64
    ensures ReadU64(b, at) == v
  {
    PowersOfWidths();
    LeRoundTrip(v, 8);
  }

  datatype Field = Field(at: nat, value: nat, width: nat)

  predicate Ascending(fields: seq<Field>, limit: nat) {
    && (forall i :: 0 <= i < |fields| ==> fields[i].at + fields[i].width <= limit)
    && (forall i, j :: 0 <= i < j < |fields| ==> fields[i].at + fields[i].width <= fields[j].at)
  }

  /** A header written field by field. */
  function PutFields(b: seq<byte>, fields: seq<Field>): (r: seq<byte>)
    requires Ascending(fields, |b|)
    ensures |r| == |b|
  {
    if fields == [] then b
    else
      var f := fields[|fields| - 1];
      Put(PutFields(b, fields[..|fields| - 1]), f.at, Le(f.value, f.width))
  }

  /** Each field keeps what it was given. */
  lemma {:induction false} FieldsHold(b: seq<byte>, fields: seq<Field>)
    requires Ascending(fields, |b|)
    ensures forall i :: 0 <= i < |fields| ==> FieldAt(PutFields(b, fields), fields[i].at, fields[i].value, fields[i].width)
  {
    hide Put, Slice, Le;
    if fields != [] {
      var n := |fields| - 1;
      FieldsHold(b, fields[..n]);
      var before, f := PutFields(b, fields[..n]), fields[n];
      PutsField(before, f.at, f.value, f.width);
      PutElsewhere(before, f.at, Le(f.value, f.width));
      forall i | 0 <= i < |fields|
        ensures FieldAt(PutFields(b, fields), fields[i].at, fields[i].value, fields[i].width)
      {
        if i < n { assert fields[..n][i] == fields[i]; }
      }
    }
  }

  /** Nothing past the last field changes. */
  lemma {:induction false} FieldsElsewhere(b: seq<byte>, fields: seq<Field>, limit: nat, x: nat, n: nat)
    requires Ascending(fields, limit) && limit <= x && x + n <= |b|
    ensures Slice(PutFields(b, fields), x, n) == Slice(b, x, n)
  {
    if fields != [] {
      var k := |fields| - 1;
      FieldsElsewhere(b, fields[..k], limit, x, n);
      var f := fields[k];
      PutElsewhereAt(PutFields(b, fields[..k]), f.at, Le(f.value, f.width), x, n);
    }
  }

  function Align8(v: nat): (r: nat)
    ensures r % 8 == 0 && v <= r < v + 8
  {
    (v + 7) / 8 * 8
  }
}
