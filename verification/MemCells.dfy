/**
  The guest's memory as the builtins reach it: cells that are loaded and stored in aligned units
  only, each access recorded. No other member of this project reads or writes the cells outside
  its specification.
  */
module MemCells {
  import opened Bytes
  import opened MemWords

  /** An access to the unit of `unit` bytes at address `at`. */
  datatype Access = Access(at: nat, unit: nat)

  /** The unit holds a byte of `[lo, hi)`. */
  ghost predicate Overlaps(at: nat, unit: nat, lo: nat, hi: nat) {
    lo < hi && at < hi && lo < at + unit
  }

  /** The accesses before a call, and the two ranges of the call. */
  datatype Reach = Reach(before: seq<Access>, d: nat, dEnd: nat, s: nat, sEnd: nat)

  /** The unit holds a byte of one of the ranges. */
  ghost predicate Reaches(r: Reach, at: nat, unit: nat) {
    Overlaps(at, unit, r.d, r.dEnd) || Overlaps(at, unit, r.s, r.sEnd)
  }

  /** Every access since the call began is aligned to its unit and holds a byte of one of its ranges. */
  ghost predicate Ruled(log: seq<Access>, r: Reach) {
    && r.before <= log
    && forall i :: |r.before| <= i < |log| ==>
         log[i].unit > 0 && log[i].at % log[i].unit == 0 && Reaches(r, log[i].at, log[i].unit)
  }

  lemma RuledStart(log: seq<Access>, d: nat, dEnd: nat, s: nat, sEnd: nat)
    ensures Ruled(log, Reach(log, d, dEnd, s, sEnd))
  {
  }

  lemma RuledMore(log: seq<Access>, r: Reach, at: nat, unit: nat)
    requires Ruled(log, r) && unit > 0 && at % unit == 0 && Reaches(r, at, unit)
    ensures Ruled(log + [Access(at, unit)], r)
  {
    hide Reaches;
  }

  ghost predicate Stored(now: seq<byte>, was: seq<byte>, a: nat, v: seq<byte>) {
    && |now| == |was| && a + |v| <= |was|
    && (forall i :: a <= i < a + |v| ==> now[i] == v[i - a])
    && (forall i :: 0 <= i < a || a + |v| <= i < |was| ==> now[i] == was[i])
  }

  class Memory {
    const cells: array<byte>
    ghost var log: seq<Access>

    constructor (cells: array<byte>)
      ensures this.cells == cells && log == []
    {
      this.cells := cells;
      log := [];
    }

    /** The load of word `i`. */
    method Load(i: nat, w: WordSize, ghost r: Reach) returns (v: Word)
      requires Size(i, w) + w <= cells.Length && Reaches(r, Size(i, w), w) && Ruled(log, r)
      modifies this
      ensures v == cells[..][Size(i, w)..Size(i, w) + w] && |v| == w
      ensures Ruled(log, r) && log == old(log) + [Access(Size(i, w), w)]
    {
      hide Reaches, Ruled;
      WordAligned(i, w);
      RuledMore(log, r, Size(i, w), w);
      log := log + [Access(Size(i, w), w)];
      v := cells[Size(i, w)..Size(i, w) + w];
      assert v == cells[..][Size(i, w)..Size(i, w) + w];
    }

    /** The store of word `i`. */
    method Store(i: nat, v: Word, w: WordSize, ghost r: Reach)
      requires Size(i, w) + w <= cells.Length && Reaches(r, Size(i, w), w) && |v| == w && Ruled(log, r)
      modifies this, cells
      ensures Stored(cells[..], old(cells[..]), Size(i, w), v)
      ensures Ruled(log, r) && log == old(log) + [Access(Size(i, w), w)]
    {
      hide Reaches, Ruled;
      var a := Size(i, w);
      WordAligned(i, w);
      RuledMore(log, r, a, w);
      log := log + [Access(a, w)];
      for k := 0 to w
        invariant Stored(cells[..], old(cells[..]), a, v[..k]) && Ruled(log, r) && log == old(log) + [Access(a, w)]
      {
        cells[a + k] := v[k];
      }
      assert v[..w] == v;
    }

    method LoadByte(a: nat, ghost r: Reach) returns (v: byte)
      requires a < cells.Length && Reaches(r, a, 1) && Ruled(log, r)
      modifies this
      ensures v == cells[a] && Ruled(log, r) && log == old(log) + [Access(a, 1)]
    {
      hide Reaches, Ruled;
      RuledMore(log, r, a, 1);
      log := log + [Access(a, 1)];
      v := cells[a];
    }

    method StoreByte(a: nat, v: byte, ghost r: Reach)
      requires a < cells.Length && Reaches(r, a, 1) && Ruled(log, r)
      modifies this, cells
      ensures Stored(cells[..], old(cells[..]), a, [v]) && Ruled(log, r) && log == old(log) + [Access(a, 1)]
    {
      hide Reaches, Ruled;
      RuledMore(log, r, a, 1);
      log := log + [Access(a, 1)];
      cells[a] := v;
    }

    /** The delegated copy of one block: block indices, so both ends are 32-byte aligned, and not the same place. */
    method CopyBlock(db: nat, sb: nat, ghost r: Reach)
      requires db != sb && 32 * db + 32 <= cells.Length && 32 * sb + 32 <= cells.Length
      requires Reaches(r, 32 * db, 32) && Reaches(r, 32 * sb, 32) && Ruled(log, r)
      modifies this, cells
      ensures Stored(cells[..], old(cells[..]), 32 * db, old(cells[..])[32 * sb..32 * sb + 32])
      ensures Ruled(log, r) && log == old(log) + [Access(32 * sb, 32), Access(32 * db, 32)]
    {
      hide Reaches, Ruled;
      RuledMore(log, r, 32 * sb, 32);
      RuledMore(log + [Access(32 * sb, 32)], r, 32 * db, 32);
      log := log + [Access(32 * sb, 32)] + [Access(32 * db, 32)];
      forall i | 0 <= i < 32 { cells[32 * db + i] := cells[32 * sb + i]; }
    }
  }

  lemma WordAligned(i: nat, w: WordSize)
    ensures Size(i, w) % w == 0
  {
  }
}
