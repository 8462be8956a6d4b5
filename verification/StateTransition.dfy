/**
  The guest's run over an envelope of bundles: `run_mfbd`, `run_one_bundle`, `engine_mismatch` and
  the anchoring step of `check_root` (zilk_core/dev/state_transition.cpp). Execution, the trie
  walks and the decoding of block bodies are an oracle that may answer anything.
  */
module StateTransition {
  import opened Basics
  import opened Bytes
  import opened Rlp
  import opened BlockRlp
  import opened Headers
  import opened FlatBundle
  import opened PublicOutput

  const RUN_FAILURE: nat := U64 - 1
  const RUN_SKIPPED: nat := U64 - 2

  /** The largest input this model covers: no offset into it wraps in a 32-bit size. */
  const INPUT_LIMIT: nat := 0x8000_0000

  // ---------- The oracle ----------

  /**
    What validating one block comes to: it is too large for its fork; its transactions' versioned
    hashes; execution accepts it; execution read what the witness lacks; the root check reaches the
    walk (no clash before it), with the root of the parent header it starts from; the walk ends in
    the header's root; and the witness holds the whole state.
    */
  datatype Verdict = Verdict(
    tooLarge: bool, blobHashes: seq<seq<byte>>, executed: bool, incomplete: bool,
    walked: bool, parentRoot: seq<byte>, rootOk: bool, wholeState: bool)

  /** `stray(i)` is what bundle `i` reads when it starts past the end of the input. */
  datatype Oracle = Oracle(
    decoders: Decoders, body: seq<byte> -> bool, sanitized: nat -> bool, networkKnown: nat -> bool,
    headersValid: nat -> bool, verdict: (nat, nat) -> Verdict, stray: nat -> seq<byte>)

  // ---------- Engine records ----------

  /** The record matches exactly when it names the block's hash and lists the block's versioned hashes. */
  method EngineMatches(hash: seq<byte>, blobHashes: seq<seq<byte>>, rec: EngineRecord) returns (ok: bool)
    requires forall i :: 0 <= i < |blobHashes| ==> |blobHashes[i]| == 32
    ensures ok <==> hash == rec.blockHash && Concat(blobHashes) == rec.versionedHashes
  {
    if hash != rec.blockHash { return false; }
    var off := 0;
    var expected := rec.versionedHashes;
    assert blobHashes[0..] == blobHashes && expected[0..] == expected;
    for i := 0 to |blobHashes|
      invariant 0 <= off <= |expected|
      invariant Concat(blobHashes) == expected <==> Concat(blobHashes[i..]) == expected[off..]
    {
      ghost var left := blobHashes[i..];
      assert Concat(left) == blobHashes[i] + Concat(blobHashes[i + 1..]) by { assert left[1..] == blobHashes[i + 1..]; }
      Peel(blobHashes[i], Concat(blobHashes[i + 1..]), expected[off..]);
      if off + 32 > |expected| || blobHashes[i] != expected[off..off + 32] { return false; }
      assert expected[off..][32..] == expected[off + 32..];
      off := off + 32;
    }
    ok := off == |expected|;
  }

  lemma Peel(head: seq<byte>, tail: seq<byte>, s: seq<byte>)
    ensures head + tail == s <==> |head| <= |s| && s[..|head|] == head && s[|head|..] == tail
  {
    if |head| <= |s| { assert s == s[..|head|] + s[|head|..]; }
  }

  // ---------- Accepted blocks ----------

  datatype Accepted = Accepted(bundle: nat, index: nat, header: Header, parentRoot: seq<byte>)

  function HeaderOf(o: Oracle, block: seq<byte>): Header {
    match DecodeBlock(block, o.body)
    case None => []
    case Some(h) => h
  }

  /** The blocks of a bundle without the expect-invalid flag, the first `i` of them. */
  ghost function Unflagged(o: Oracle, b: nat, bundle: Bundle, i: nat): seq<Accepted>
    requires i <= |bundle.blocks|
  {
    if i == 0 then []
    else if Flagged(bundle, i - 1) then Unflagged(o, b, bundle, i - 1)
    else Unflagged(o, b, bundle, i - 1)
         + [Accepted(b, i - 1, HeaderOf(o, bundle.blocks[i - 1]), o.verdict(b, i - 1).parentRoot)]
  }

  ghost predicate Sealed(h: Header) { WellFormed(h) && Encodable(h) }

  // ---------- Good bundles ----------

  ghost function HashOf(keccak: seq<byte> -> seq<byte>, o: Oracle, block: seq<byte>): seq<byte> {
    var h := HeaderOf(o, block);
    if Sealed(h) then keccak(EncodeHeader(h)) else []
  }

  /** The block passes everything short of the root check. */
  ghost predicate Passes(keccak: seq<byte> -> seq<byte>, o: Oracle, b: nat, loaded: Loaded, i: nat)
    requires i < |loaded.bundle.blocks|
  {
    var block, v := loaded.bundle.blocks[i], o.verdict(b, i);
    && (i == 0 ==> o.headersValid(b)) && DecodeBlock(block, o.body).Some? && !v.tooLarge && v.executed && !v.incomplete
    && (i < |loaded.engines| && loaded.engines[i].Some? ==>
          loaded.engines[i].value == EngineRecord(HashOf(keccak, o, block), Concat(v.blobHashes)))
  }

  /** Block `i` names the block before it in the bundle, whatever became of that one. */
  ghost predicate Linked(keccak: seq<byte> -> seq<byte>, o: Oracle, loaded: Loaded, i: nat)
    requires i < |loaded.bundle.blocks|
  {
    i > 0 ==> DecodeBlock(loaded.bundle.blocks[i], o.body).Some?
              && Sealed(HeaderOf(o, loaded.bundle.blocks[i]))
              && ParentHash(HeaderOf(o, loaded.bundle.blocks[i])) == HashOf(keccak, o, loaded.bundle.blocks[i - 1])
  }

  /** The root of block `i` holds: the first block's by the walk, a later one's by rebuilding. */
  ghost predicate RootHolds(o: Oracle, b: nat, i: nat) {
    o.verdict(b, i).rootOk && (i == 0 ==> o.verdict(b, i).walked)
  }

  /**
    What a bundle demands of its block `i`. An unflagged block is valid, and the first of several
    ran on the whole state. A flagged block is the last, and fails at any check but the link.
    */
  ghost predicate Settles(keccak: seq<byte> -> seq<byte>, o: Oracle, b: nat, loaded: Loaded, i: nat)
    requires i < |loaded.bundle.blocks|
  {
    if Flagged(loaded.bundle, i) then
      && i + 1 == |loaded.bundle.blocks|
      && (Passes(keccak, o, b, loaded, i) ==> Linked(keccak, o, loaded, i) && !RootHolds(o, b, i))
    else
      && Passes(keccak, o, b, loaded, i) && Linked(keccak, o, loaded, i) && RootHolds(o, b, i)
      && (i == 0 && |loaded.bundle.blocks| > 1 ==> o.verdict(b, i).wholeState)
  }

  ghost predicate GoodBundle(keccak: seq<byte> -> seq<byte>, o: Oracle, b: nat, loaded: Loaded) {
    && o.sanitized(b) && o.networkKnown(b)
    && forall i :: 0 <= i < |loaded.bundle.blocks| ==> Settles(keccak, o, b, loaded, i)
  }

  // ---------- What a run takes and where it anchors ----------

  function OrElse<T>(a: Option<T>, b: Option<T>): Option<T> {
    if a.Some? then a else b
  }

  /** The first accepted block anchors the run at the root it starts from. */
  ghost function AnchorOf(accepted: seq<Accepted>): Option<seq<byte>> {
    if accepted == [] then None else Some(accepted[0].parentRoot)
  }

  /**
    The root a bundle's first block anchors: it passes, its root check reaches the walk, and it is
    neither flagged with others behind it nor rejected as its flag demands.
    */
  ghost function BlockRoot(keccak: seq<byte> -> seq<byte>, o: Oracle, b: nat, loaded: Loaded): Option<seq<byte>> {
    if && |loaded.bundle.blocks| > 0 && Passes(keccak, o, b, loaded, 0) && o.verdict(b, 0).walked
       && !(Flagged(loaded.bundle, 0) && (|loaded.bundle.blocks| > 1 || !RootHolds(o, b, 0)))
    then Some(o.verdict(b, 0).parentRoot) else None
  }

  ghost function BundleRoot(keccak: seq<byte> -> seq<byte>, o: Oracle, b: nat, loaded: Loaded): Option<seq<byte>> {
    if o.sanitized(b) && o.networkKnown(b) then BlockRoot(keccak, o, b, loaded) else None
  }

  /** The first block from `i` on that does not settle. */
  ghost function FirstStop(keccak: seq<byte> -> seq<byte>, o: Oracle, b: nat, loaded: Loaded, i: nat): (k: nat)
    requires i <= |loaded.bundle.blocks|
    ensures i <= k <= |loaded.bundle.blocks|
    decreases |loaded.bundle.blocks| - i
  {
    if i == |loaded.bundle.blocks| || !Settles(keccak, o, b, loaded, i) then i else FirstStop(keccak, o, b, loaded, i + 1)
  }

  /** The blocks a bundle gets accepted: the unflagged ones before the first that does not settle. */
  ghost function Takes(keccak: seq<byte> -> seq<byte>, o: Oracle, b: nat, loaded: Loaded): seq<Accepted> {
    if o.sanitized(b) && o.networkKnown(b) then Unflagged(o, b, loaded.bundle, FirstStop(keccak, o, b, loaded, 0)) else []
  }

  lemma {:induction false} StopIs(keccak: seq<byte> -> seq<byte>, o: Oracle, b: nat, loaded: Loaded, k: nat, i: nat)
    requires k <= i <= |loaded.bundle.blocks| && forall j :: k <= j < i ==> Settles(keccak, o, b, loaded, j)
    requires i < |loaded.bundle.blocks| ==> !Settles(keccak, o, b, loaded, i)
    ensures FirstStop(keccak, o, b, loaded, k) == i
    decreases i - k
  {
    hide Settles;
    if k < i { StopIs(keccak, o, b, loaded, k + 1, i); }
  }

  lemma {:induction false} FirstUnflagged(o: Oracle, b: nat, bundle: Bundle, i: nat)
    requires 1 <= i <= |bundle.blocks| && !Flagged(bundle, 0)
    ensures Unflagged(o, b, bundle, i) != [] && Unflagged(o, b, bundle, i)[0].parentRoot == o.verdict(b, 0).parentRoot
  {
    hide HeaderOf;
    if i > 1 { FirstUnflagged(o, b, bundle, i - 1); }
  }

  /** Once its first block has settled, a bundle is anchored as its accepted blocks are. */
  lemma SettledRoot(keccak: seq<byte> -> seq<byte>, o: Oracle, b: nat, loaded: Loaded, i: nat)
    requires 1 <= i <= |loaded.bundle.blocks| && Settles(keccak, o, b, loaded, 0)
    ensures AnchorOf(Unflagged(o, b, loaded.bundle, i)) == BlockRoot(keccak, o, b, loaded)
  {
    hide HeaderOf, Passes, Linked;
    if Flagged(loaded.bundle, 0) {
      assert Unflagged(o, b, loaded.bundle, 1) == [];
    } else {
      FirstUnflagged(o, b, loaded.bundle, i);
    }
  }

  lemma {:induction false} UnflaggedOf(o: Oracle, b: nat, bundle: Bundle, i: nat)
    requires i <= |bundle.blocks|
    ensures forall k :: 0 <= k < |Unflagged(o, b, bundle, i)| ==> Unflagged(o, b, bundle, i)[k].bundle == b
  {
    hide HeaderOf, Flagged;
    if i > 0 { UnflaggedOf(o, b, bundle, i - 1); }
  }

  lemma TakesOf(keccak: seq<byte> -> seq<byte>, o: Oracle, b: nat, loaded: Loaded)
    ensures forall k :: 0 <= k < |Takes(keccak, o, b, loaded)| ==> Takes(keccak, o, b, loaded)[k].bundle == b
  {
    hide Unflagged, Settles;
    UnflaggedOf(o, b, loaded.bundle, FirstStop(keccak, o, b, loaded, 0));
  }

  lemma NotGood(keccak: seq<byte> -> seq<byte>, o: Oracle, b: nat, loaded: Loaded, i: nat)
    requires i < |loaded.bundle.blocks| && !Settles(keccak, o, b, loaded, i)
    ensures !GoodBundle(keccak, o, b, loaded)
  {
    hide Settles;
  }

  lemma AllSettled(keccak: seq<byte> -> seq<byte>, o: Oracle, b: nat, loaded: Loaded)
    requires o.sanitized(b) && o.networkKnown(b) && forall i :: 0 <= i < |loaded.bundle.blocks| ==> Settles(keccak, o, b, loaded, i)
    ensures GoodBundle(keccak, o, b, loaded)
  {
    hide Settles;
  }

  lemma BlockSize(o: Oracle, b: nat, loaded: Loaded, i: nat)
    requires Sane(o, b, loaded) && i < |loaded.bundle.blocks|
    ensures |loaded.bundle.blocks[i]| < U32
  {
  }

  lemma Unopened(keccak: seq<byte> -> seq<byte>, o: Oracle, b: nat, loaded: Loaded)
    requires !o.sanitized(b) || !o.networkKnown(b)
    ensures Takes(keccak, o, b, loaded) == [] && BundleRoot(keccak, o, b, loaded) == None && !GoodBundle(keccak, o, b, loaded)
  {
  }

  lemma StoppedAt(keccak: seq<byte> -> seq<byte>, o: Oracle, b: nat, loaded: Loaded, i: nat, before: seq<Accepted>)
    requires o.sanitized(b) && o.networkKnown(b) && i < |loaded.bundle.blocks| && !Settles(keccak, o, b, loaded, i)
    requires forall j :: 0 <= j < i ==> Settles(keccak, o, b, loaded, j)
    ensures Takes(keccak, o, b, loaded) == Unflagged(o, b, loaded.bundle, i)
    ensures OrElse(AnchorOf(before + Unflagged(o, b, loaded.bundle, i)), if i == 0 then BlockRoot(keccak, o, b, loaded) else None)
            == OrElse(AnchorOf(before), BundleRoot(keccak, o, b, loaded))
  {
    hide Settles, BlockRoot, HeaderOf;
    StopIs(keccak, o, b, loaded, 0, i);
    if i > 0 { SettledRoot(keccak, o, b, loaded, i); }
  }

  lemma RanThrough(keccak: seq<byte> -> seq<byte>, o: Oracle, b: nat, loaded: Loaded, before: seq<Accepted>)
    requires GoodBundle(keccak, o, b, loaded)
    ensures var all := Unflagged(o, b, loaded.bundle, |loaded.bundle.blocks|);
            && Takes(keccak, o, b, loaded) == all
            && AnchorOf(before + all) == OrElse(AnchorOf(before), BundleRoot(keccak, o, b, loaded))
  {
    hide Settles, HeaderOf;
    var n := |loaded.bundle.blocks|;
    StopIs(keccak, o, b, loaded, 0, n);
    if n > 0 { SettledRoot(keccak, o, b, loaded, n); }
  }

  /** The blocks a run accepts from bundle `i` on. */
  ghost function TakenFrom(keccak: seq<byte> -> seq<byte>, o: Oracle, envelope: seq<byte>, sizes: nat, i: nat, n: nat, cursor: nat): seq<Accepted>
    requires i <= n && sizes > 0
    decreases n - i
  {
    if i == n then []
    else match Load(Tail(o, envelope, i, cursor), sizes, o.decoders)
      case None => []
      case Some(loaded) =>
        Takes(keccak, o, i, loaded) +
        if GoodBundle(keccak, o, i, loaded)
        then TakenFrom(keccak, o, envelope, sizes, i + 1, n, NextStart(cursor, loaded.bundle.size, sizes)) else []
  }

  /** The root a run is anchored at from bundle `i` on: that of the first bundle that anchors one. */
  ghost function RootFrom(keccak: seq<byte> -> seq<byte>, o: Oracle, envelope: seq<byte>, sizes: nat, i: nat, n: nat, cursor: nat): Option<seq<byte>>
    requires i <= n && sizes > 0
    decreases n - i
  {
    if i == n then None
    else match Load(Tail(o, envelope, i, cursor), sizes, o.decoders)
      case None => None
      case Some(loaded) =>
        OrElse(BundleRoot(keccak, o, i, loaded),
               if GoodBundle(keccak, o, i, loaded)
               then RootFrom(keccak, o, envelope, sizes, i + 1, n, NextStart(cursor, loaded.bundle.size, sizes)) else None)
  }

  /** The bundle a run stops in, if it loads. */
  ghost function StopsAt(keccak: seq<byte> -> seq<byte>, o: Oracle, envelope: seq<byte>, sizes: nat, i: nat, n: nat, cursor: nat): Option<(nat, Loaded)>
    requires i <= n && sizes > 0
    decreases n - i
  {
    if i == n then None
    else match Load(Tail(o, envelope, i, cursor), sizes, o.decoders)
      case None => None
      case Some(loaded) =>
        if GoodBundle(keccak, o, i, loaded)
        then StopsAt(keccak, o, envelope, sizes, i + 1, n, NextStart(cursor, loaded.bundle.size, sizes)) else Some((i, loaded))
  }

  /**
    A run that accepts nothing leaves a pre-state root exactly if it stops at the first block of a
    bundle that anchors one.
    */
  lemma {:induction false} AnchoredAtStop(keccak: seq<byte> -> seq<byte>, o: Oracle, envelope: seq<byte>, sizes: nat, i: nat, n: nat, cursor: nat)
    requires i <= n && sizes > 0 && TakenFrom(keccak, o, envelope, sizes, i, n, cursor) == []
    ensures RootFrom(keccak, o, envelope, sizes, i, n, cursor) ==
            match StopsAt(keccak, o, envelope, sizes, i, n, cursor) case None => None case Some(s) => BundleRoot(keccak, o, s.0, s.1)
    ensures RootFrom(keccak, o, envelope, sizes, i, n, cursor).Some? ==>
            var s := StopsAt(keccak, o, envelope, sizes, i, n, cursor).value;
            |s.1.bundle.blocks| > 0 && !Settles(keccak, o, s.0, s.1, 0)
    decreases n - i
  {
    hide *;
    if i == n {
      RunEnds(keccak, o, envelope, sizes, n, cursor);
      return;
    }
    var loaded := Load(Tail(o, envelope, i, cursor), sizes, o.decoders);
    TakesSteps(keccak, o, envelope, sizes, i, n, cursor, loaded);
    RootSteps(keccak, o, envelope, sizes, i, n, cursor, loaded);
    StopSteps(keccak, o, envelope, sizes, i, n, cursor, loaded);
    if loaded.Some? {
      OrElseIs(BundleRoot(keccak, o, i, loaded.value), RootFrom(keccak, o, envelope, sizes, i + 1, n, NextStart(cursor, loaded.value.bundle.size, sizes)));
      OrElseIs(BundleRoot(keccak, o, i, loaded.value), None);
      if GoodBundle(keccak, o, i, loaded.value) {
        RanThrough(keccak, o, i, loaded.value, []);
        OrElseIs(AnchorOf([]), BundleRoot(keccak, o, i, loaded.value));
        NoAnchor();
        AnchoredAtStop(keccak, o, envelope, sizes, i + 1, n, NextStart(cursor, loaded.value.bundle.size, sizes));
      } else {
        if BundleRoot(keccak, o, i, loaded.value).Some? { NothingTaken(keccak, o, i, loaded.value); }
      }
    }
  }

  lemma OrElseIs<T>(a: Option<T>, b: Option<T>)
    ensures OrElse(a, b) == if a.Some? then a else b
  {
  }

  lemma StopSteps(keccak: seq<byte> -> seq<byte>, o: Oracle, envelope: seq<byte>, sizes: nat, i: nat, n: nat, cursor: nat,
                  loaded: Option<Loaded>)
    requires i < n && sizes > 0 && loaded == Load(Tail(o, envelope, i, cursor), sizes, o.decoders)
    ensures StopsAt(keccak, o, envelope, sizes, i, n, cursor) ==
            if loaded.None? then None
            else if GoodBundle(keccak, o, i, loaded.value)
            then StopsAt(keccak, o, envelope, sizes, i + 1, n, NextStart(cursor, loaded.value.bundle.size, sizes)) else Some((i, loaded.value))
  {
    hide Load, Tail, GoodBundle, NextStart, ParseBundle, EnginesOf;
  }

  lemma NothingTaken(keccak: seq<byte> -> seq<byte>, o: Oracle, b: nat, loaded: Loaded)
    requires Takes(keccak, o, b, loaded) == [] && !GoodBundle(keccak, o, b, loaded) && BundleRoot(keccak, o, b, loaded).Some?
    ensures |loaded.bundle.blocks| > 0 && !Settles(keccak, o, b, loaded, 0)
  {
    hide Settles, Passes, HeaderOf;
    if Settles(keccak, o, b, loaded, 0) {
      SettledRoot(keccak, o, b, loaded, FirstStop(keccak, o, b, loaded, 0));
    }
  }

  predicate Opens(envelope: seq<byte>) {
    |envelope| >= MFBD_HEADER && ReadU32(envelope, 4) == MFBD_VERSION
  }

  /** The blocks a run accepts, whether it succeeds or fails. */
  ghost function Taken(keccak: seq<byte> -> seq<byte>, o: Oracle, envelope: seq<byte>, sizes: nat): seq<Accepted>
    requires sizes > 0
  {
    if Opens(envelope) then TakenFrom(keccak, o, envelope, sizes, 0, ReadU64(envelope, 8), MFBD_HEADER) else []
  }

  /** The pre-state root a run leaves, whether it succeeds or fails. */
  ghost function RootLeft(keccak: seq<byte> -> seq<byte>, o: Oracle, envelope: seq<byte>, sizes: nat): Option<seq<byte>>
    requires sizes > 0
  {
    if Opens(envelope) then RootFrom(keccak, o, envelope, sizes, 0, ReadU64(envelope, 8), MFBD_HEADER) else None
  }

  /** The start of the next bundle, in the guest's size type. */
  function NextStart(cursor: nat, size: nat, sizes: nat): nat
    requires sizes > 0
  {
    (cursor + size + 7) % sizes / 8 * 8
  }

  /** Inside the input nothing wraps. */
  lemma NextInside(cursor: nat, size: nat, sizes: nat)
    requires cursor + size <= INPUT_LIMIT && (sizes == U32 || sizes == U64)
    ensures NextStart(cursor, size, sizes) == Align8(cursor + size)
  {
  }

  /** Bundles `i` to `n` load one behind the other from `cursor` on, and each is good. */
  ghost predicate GoodRun(keccak: seq<byte> -> seq<byte>, o: Oracle, envelope: seq<byte>, sizes: nat, i: nat, n: nat, cursor: nat)
    requires i <= n && sizes > 0
    decreases n - i
  {
    i == n || (
      match Load(Tail(o, envelope, i, cursor), sizes, o.decoders)
      case None => false
      case Some(loaded) =>
        && GoodBundle(keccak, o, i, loaded)
        && GoodRun(keccak, o, envelope, sizes, i + 1, n, NextStart(cursor, loaded.bundle.size, sizes)))
  }

  ghost predicate GoodEnvelope(keccak: seq<byte> -> seq<byte>, o: Oracle, envelope: seq<byte>, sizes: nat)
    requires sizes > 0
  {
    && Opens(envelope)
    && GoodRun(keccak, o, envelope, sizes, 0, ReadU64(envelope, 8), MFBD_HEADER)
  }

  lemma RunSteps(keccak: seq<byte> -> seq<byte>, o: Oracle, envelope: seq<byte>, sizes: nat, i: nat, n: nat, cursor: nat,
                 loaded: Option<Loaded>)
    requires i < n && sizes > 0 && loaded == Load(Tail(o, envelope, i, cursor), sizes, o.decoders)
    ensures GoodRun(keccak, o, envelope, sizes, i, n, cursor) <==>
              && loaded.Some? && GoodBundle(keccak, o, i, loaded.value)
              && GoodRun(keccak, o, envelope, sizes, i + 1, n, NextStart(cursor, loaded.value.bundle.size, sizes))
  {
    hide Load, Tail, GoodBundle, NextStart, ParseBundle, EnginesOf, Settles;
  }

  lemma TakesSteps(keccak: seq<byte> -> seq<byte>, o: Oracle, envelope: seq<byte>, sizes: nat, i: nat, n: nat, cursor: nat,
                   loaded: Option<Loaded>)
    requires i < n && sizes > 0 && loaded == Load(Tail(o, envelope, i, cursor), sizes, o.decoders)
    ensures TakenFrom(keccak, o, envelope, sizes, i, n, cursor) ==
            if loaded.None? then []
            else Takes(keccak, o, i, loaded.value) +
                 if GoodBundle(keccak, o, i, loaded.value)
                 then TakenFrom(keccak, o, envelope, sizes, i + 1, n, NextStart(cursor, loaded.value.bundle.size, sizes)) else []
  {
    hide Load, Tail, GoodBundle, NextStart, ParseBundle, EnginesOf, Takes;
  }

  lemma RootSteps(keccak: seq<byte> -> seq<byte>, o: Oracle, envelope: seq<byte>, sizes: nat, i: nat, n: nat, cursor: nat,
                  loaded: Option<Loaded>)
    requires i < n && sizes > 0 && loaded == Load(Tail(o, envelope, i, cursor), sizes, o.decoders)
    ensures RootFrom(keccak, o, envelope, sizes, i, n, cursor) ==
            if loaded.None? then None
            else OrElse(BundleRoot(keccak, o, i, loaded.value),
                        if GoodBundle(keccak, o, i, loaded.value)
                        then RootFrom(keccak, o, envelope, sizes, i + 1, n, NextStart(cursor, loaded.value.bundle.size, sizes)) else None)
  {
    hide Load, Tail, GoodBundle, NextStart, ParseBundle, EnginesOf, BundleRoot;
  }

  /** What a run takes and anchors from here on, over the next bundle. */
  lemma BundleJoins(keccak: seq<byte> -> seq<byte>, o: Oracle, envelope: seq<byte>, sizes: nat, i: nat, n: nat, cursor: nat,
                    loaded: Option<Loaded>, before: seq<Accepted>, anchor: Option<seq<byte>>)
    requires i < n && sizes > 0 && loaded == Load(Tail(o, envelope, i, cursor), sizes, o.decoders)
    ensures loaded.None? ==>
      && before + TakenFrom(keccak, o, envelope, sizes, i, n, cursor) == before
      && OrElse(anchor, RootFrom(keccak, o, envelope, sizes, i, n, cursor)) == anchor
    ensures loaded.Some? && !GoodBundle(keccak, o, i, loaded.value) ==>
      && before + TakenFrom(keccak, o, envelope, sizes, i, n, cursor) == before + Takes(keccak, o, i, loaded.value)
      && OrElse(anchor, RootFrom(keccak, o, envelope, sizes, i, n, cursor)) == OrElse(anchor, BundleRoot(keccak, o, i, loaded.value))
    ensures loaded.Some? && GoodBundle(keccak, o, i, loaded.value) ==>
      var next := NextStart(cursor, loaded.value.bundle.size, sizes);
      && before + TakenFrom(keccak, o, envelope, sizes, i, n, cursor)
         == (before + Takes(keccak, o, i, loaded.value)) + TakenFrom(keccak, o, envelope, sizes, i + 1, n, next)
      && OrElse(anchor, RootFrom(keccak, o, envelope, sizes, i, n, cursor))
         == OrElse(OrElse(anchor, BundleRoot(keccak, o, i, loaded.value)), RootFrom(keccak, o, envelope, sizes, i + 1, n, next))
  {
    hide *;
    TakesSteps(keccak, o, envelope, sizes, i, n, cursor, loaded);
    RootSteps(keccak, o, envelope, sizes, i, n, cursor, loaded);
    if loaded.None? {
      OrElseNone(anchor);
    } else {
      var next := NextStart(cursor, loaded.value.bundle.size, sizes);
      var taken, root := Takes(keccak, o, i, loaded.value), BundleRoot(keccak, o, i, loaded.value);
      OrElseNone(root);
      Associates(before, taken, TakenFrom(keccak, o, envelope, sizes, i + 1, n, next));
      OrElseAssociates(anchor, root, RootFrom(keccak, o, envelope, sizes, i + 1, n, next));
    }
  }

  lemma Associates<T>(a: seq<T>, b: seq<T>, c: seq<T>)
    ensures a + (b + c) == (a + b) + c && b + [] == b
  {
  }

  lemma OrElseNone<T>(a: Option<T>)
    ensures OrElse(a, None) == a
  {
  }

  lemma OrElseAssociates<T>(a: Option<T>, b: Option<T>, c: Option<T>)
    ensures OrElse(a, OrElse(b, c)) == OrElse(OrElse(a, b), c)
  {
  }

  lemma RunEnds(keccak: seq<byte> -> seq<byte>, o: Oracle, envelope: seq<byte>, sizes: nat, n: nat, cursor: nat)
    requires sizes > 0
    ensures GoodRun(keccak, o, envelope, sizes, n, n, cursor)
    ensures TakenFrom(keccak, o, envelope, sizes, n, n, cursor) == [] && RootFrom(keccak, o, envelope, sizes, n, n, cursor) == None
    ensures StopsAt(keccak, o, envelope, sizes, n, n, cursor) == None
  {
  }

  ghost predicate AllSealed(accepted: seq<Accepted>) {
    forall k :: 0 <= k < |accepted| ==> Sealed(accepted[k].header)
  }

  lemma NoAnchor()
    ensures AnchorOf([]) == None
  {
  }

  /** Within a bundle, each accepted block extends the accepted block before it. */
  ghost predicate Chained(keccak: seq<byte> -> seq<byte>, accepted: seq<Accepted>)
    requires AllSealed(accepted)
  {
    forall k :: 0 < k < |accepted| && accepted[k].bundle == accepted[k - 1].bundle ==>
      ParentHash(accepted[k].header) == keccak(EncodeHeader(accepted[k - 1].header))
  }

  class Transition {
    const keccak: seq<byte> -> seq<byte>
    var preStateRoot: seq<byte>
    var postStateRoot: seq<byte>
    var blockHash: seq<byte>
    var preRootSet: bool
    var failed: bool
    ghost var accepted: seq<Accepted>

    ghost predicate Valid()
      reads this
    {
      && AllSealed(accepted) && Chained(keccak, accepted)
      && (accepted == [] ==> blockHash == ZeroHash() && postStateRoot == ZeroHash())
      && (accepted != [] ==>
            var last := accepted[|accepted| - 1].header;
            blockHash == keccak(EncodeHeader(last)) && postStateRoot == StateRoot(last))
      && (accepted != [] ==> preRootSet && preStateRoot == accepted[0].parentRoot)
      && (!preRootSet ==> preStateRoot == ZeroHash())
      && (!failed ==> (preRootSet <==> accepted != []))
    }

    constructor (keccak: seq<byte> -> seq<byte>)
      ensures this.keccak == keccak && Valid() && !failed && accepted == []
    {
      this.keccak := keccak;
      preStateRoot, postStateRoot, blockHash := ZeroHash(), ZeroHash(), ZeroHash();
      preRootSet, failed := false, false;
      accepted := [];
    }

    lemma AnchorIs()
      requires Valid() && !failed
      ensures Anchor() == AnchorOf(accepted)
    {
    }

    /** The pre-state root the run has at this point, if any. */
    ghost function Anchor(): Option<seq<byte>>
      reads this
    {
      if preRootSet then Some(preStateRoot) else None
    }

    method Stop()
      requires Valid()
      modifies `failed
      ensures Valid() && failed
    {
      hide EncodeHeader, Encodable, WellFormed;
      failed := true;
    }

    /** The anchoring of `check_root`: the first walk of the run fixes the pre-state root. */
    method CheckRoot(v: Verdict) returns (ok: bool)
      modifies `preStateRoot, `preRootSet
      ensures ok <==> v.walked && v.rootOk
      ensures preRootSet == (old(preRootSet) || v.walked)
      ensures preStateRoot == if v.walked && !old(preRootSet) then v.parentRoot else old(preStateRoot)
    {
      if !v.walked { return false; }
      if !preRootSet {
        preStateRoot, preRootSet := v.parentRoot, true;
      }
      ok := v.rootOk;
    }

    /** The checks before the root: witness headers, decoding, size, engine record, execution. */
    method Precheck(o: Oracle, b: nat, loaded: Loaded, i: nat, headersValid: bool) returns (header: Option<Header>)
      requires i < |loaded.bundle.blocks| && |loaded.bundle.blocks[i]| < U32
      requires forall k :: 0 <= k < |o.verdict(b, i).blobHashes| ==> |o.verdict(b, i).blobHashes[k]| == 32
      requires headersValid == o.headersValid(b)
      ensures header.Some? <==> Passes(keccak, o, b, loaded, i)
      ensures header.Some? ==> DecodeBlock(loaded.bundle.blocks[i], o.body) == header && Sealed(header.value)
    {
      hide DecodeBlock, EncodeHeader, Concat, Encodable, WellFormed;
      if i == 0 && !headersValid { return None; }
      var v := o.verdict(b, i);
      var decoded := DecodeBlock(loaded.bundle.blocks[i], o.body);
      if decoded.None? || v.tooLarge { return None; }
      HostAgreesOnBlock(keccak, loaded.bundle.blocks[i], o.body);
      if i < |loaded.engines| && loaded.engines[i].Some? {
        var same := EngineMatches(keccak(EncodeHeader(decoded.value)), v.blobHashes, loaded.engines[i].value);
        if !same { return None; }
      }
      if v.incomplete || !v.executed { return None; }
      header := decoded;
    }

    /** The accepted list of the run so far ends in a block of bundle `b`. */
    ghost predicate InBundle(b: nat)
      reads this
    {
      accepted != [] && accepted[|accepted| - 1].bundle == b
    }

    /** The root check of a prechecked block, and what follows from it. `first` is the bundle's first. */
    method Conclude(header: Header, v: Verdict, flagged: bool, first: bool, alone: bool, ghost b: nat, ghost i: nat)
      returns (step: Step)
      requires Valid() && !failed && Sealed(header) && (first <==> !InBundle(b))
      modifies this
      ensures Valid() && (failed <==> step.Stopped?)
      ensures var linked := first || ParentHash(header) == old(blockHash);
              var holds := v.rootOk && (first ==> v.walked);
              && (step.Rejected? <==> flagged && linked && !holds)
              && (step.Took? <==> !flagged && linked && holds && (first && !alone ==> v.wholeState))
      ensures step.Stopped? ==> Anchor() == OrElse(old(Anchor()), if first && v.walked then Some(v.parentRoot) else None)
      ensures step.Rejected? ==> accepted == old(accepted) && blockHash == old(blockHash)
      ensures step.Took? ==> accepted == old(accepted) + [Accepted(b, i, header, v.parentRoot)]
      ensures step.Took? ==> blockHash == keccak(EncodeHeader(header)) && step.gas == GasUsed(header)
      ensures step.Stopped? ==> accepted == old(accepted)
    {
      hide EncodeHeader, Encodable, WellFormed;
      if !first && ParentHash(header) != blockHash {
        failed := true;
        return Stopped;
      }
      var wasAnchored := preRootSet;
      var rootOk := v.rootOk;
      if first { rootOk := CheckRoot(v); }
      if !rootOk {
        if flagged {
          if !wasAnchored {
            preRootSet, preStateRoot := false, ZeroHash();
          }
          return Rejected;
        }
        failed := true;
        return Stopped;
      }
      if (first && !alone && !v.wholeState) || flagged {
        failed := true;
        return Stopped;
      }
      postStateRoot, blockHash := StateRoot(header), keccak(EncodeHeader(header));
      ghost var entry := Accepted(b, i, header, v.parentRoot);
      ChainExtends(keccak, accepted, entry);
      accepted := accepted + [entry];
      step := Took(GasUsed(header));
    }

    /** One round of the block loop. */
    method RunBlock(o: Oracle, b: nat, loaded: Loaded, i: nat, headersValid: bool, first: bool) returns (step: Step)
      requires Valid() && !failed && Sane(o, b, loaded) && i < |loaded.bundle.blocks| && (first <==> !InBundle(b))
      requires headersValid == o.headersValid(b) && (first <==> i == 0)
      requires i > 0 ==> blockHash == HashOf(keccak, o, loaded.bundle.blocks[i - 1])
      modifies this
      ensures Valid() && (failed <==> step.Stopped?) && (step.Stopped? <==> !Settles(keccak, o, b, loaded, i))
      ensures step.Stopped? ==> accepted == old(accepted)
      ensures step.Stopped? ==> Anchor() == OrElse(old(Anchor()), if i == 0 then BlockRoot(keccak, o, b, loaded) else None)
      ensures step.Rejected? ==> Flagged(loaded.bundle, i) && i + 1 == |loaded.bundle.blocks|
      ensures step.Rejected? ==> accepted == old(accepted) && blockHash == old(blockHash)
      ensures step.Took? ==> TakenAs(keccak, o, b, loaded, i, step.gas, blockHash) && blockHash == HashOf(keccak, o, loaded.bundle.blocks[i])
      ensures step.Took? ==>
        accepted == old(accepted) + [Accepted(b, i, HeaderOf(o, loaded.bundle.blocks[i]), o.verdict(b, i).parentRoot)]
    {
      hide Valid, DecodeBlock, EncodeHeader, Encodable, WellFormed, Concat;
      var flagged := Flagged(loaded.bundle, i);
      if flagged && i + 1 < |loaded.bundle.blocks| {
        Stop();
        return Stopped;
      }
      var header := Precheck(o, b, loaded, i, headersValid);
      if header.None? {
        if flagged { return Rejected; }
        Stop();
        return Stopped;
      }
      step := Conclude(header.value, o.verdict(b, i), flagged, first, |loaded.bundle.blocks| == 1, b, i);
    }

    /**
      `run_one_bundle`. It succeeds exactly when the bundle is good. Then the accepted blocks of the
      bundle are exactly the unflagged ones, each bound to its engine record, and hash and gas are
      what the host folds in.
      */
    method RunOneBundle(o: Oracle, b: nat, loaded: Loaded, ghost gasBefore: nat) returns (gas: nat, ok: bool)
      requires Valid() && !failed && !InBundle(b) && gasBefore < U64
      requires Sane(o, b, loaded)
      modifies this
      ensures Valid() && ok == !failed && (ok <==> GoodBundle(keccak, o, b, loaded))
      ensures gas < U64 && accepted == old(accepted) + Takes(keccak, o, b, loaded)
      ensures Anchor() == OrElse(old(Anchor()), BundleRoot(keccak, o, b, loaded))
      ensures forall k :: |old(accepted)| <= k < |accepted| ==> accepted[k].bundle == b
      ensures ok ==> accepted == old(accepted) + Unflagged(o, b, loaded.bundle, |loaded.bundle.blocks|)
      ensures ok ==> BoundToRecords(keccak, o, b, loaded, |loaded.bundle.blocks|)
      ensures ok ==> FoldBlocks(keccak, loaded.bundle, 0, Expected(old(blockHash), gasBefore))
                     == Some(Expected(blockHash, Wrapped(gasBefore, gas)))
    {
      hide Valid, HeaderOf, Unflagged, FoldBlocks, BoundToRecords, TakenAs, Settles, HashOf, BundleRoot, BlockRoot, Takes, AnchorOf, Wrapped, OrElse,
           GoodBundle, Sane, Flagged;
      gas, ok := 0, false;
      TakesOf(keccak, o, b, loaded);
      AnchorIs();
      if !o.sanitized(b) || !o.networkKnown(b) {
        Stop();
        Unopened(keccak, o, b, loaded);
        OrElseNone(Anchor());
        return;
      }
      var bundle := loaded.bundle;
      var n := |bundle.blocks|;
      var first := true;
      assert BoundToRecords(keccak, o, b, loaded, 0) && Unflagged(o, b, bundle, 0) == [] by { NothingYet(keccak, o, b, loaded); }
      for i := 0 to n
        invariant Valid() && !failed && gas < U64
        invariant i < n ==> (first <==> !InBundle(b)) && (first <==> i == 0)
        invariant 0 < i < n ==> blockHash == HashOf(keccak, o, bundle.blocks[i - 1])
        invariant forall j :: 0 <= j < i ==> Settles(keccak, o, b, loaded, j)
        invariant accepted == old(accepted) + Unflagged(o, b, bundle, i)
        invariant BoundToRecords(keccak, o, b, loaded, i)
        invariant FoldBlocks(keccak, bundle, 0, Expected(old(blockHash), gasBefore))
                  == FoldBlocks(keccak, bundle, i, Expected(blockHash, Wrapped(gasBefore, gas)))
      {
        ghost var hash := blockHash;
        AnchorIs();
        var step := RunBlock(o, b, loaded, i, o.headersValid(b), first);
        if step.Stopped? {
          StoppedAt(keccak, o, b, loaded, i, old(accepted));
          NotGood(keccak, o, b, loaded, i);
          return 0, false;
        }
        BlockSize(o, b, loaded, i);
        if step.Took? {
          TookAdvances(keccak, o, b, loaded, i, hash, gasBefore, gas, step.gas, blockHash);
          gas := Wrapped(gas, step.gas);
          first := false;
        } else {
          RejectedAdvances(keccak, o, b, loaded, i, Expected(blockHash, Wrapped(gasBefore, gas)));
        }
      }
      FoldEnd(keccak, bundle, Expected(blockHash, Wrapped(gasBefore, gas)));
      AnchorIs();
      AllSettled(keccak, o, b, loaded);
      RanThrough(keccak, o, b, loaded, old(accepted));
      ok := true;
    }

    /** The next bundle: loaded from the tail of the input, run, and the cursor moved behind it. */
    method RunNext(o: Oracle, envelope: seq<byte>, sizes: nat, i: nat, cursor: nat, gas: nat, ghost n: nat, ghost trail: Trail)
      returns (ok: bool, cursor': nat, gas': nat, ghost trail': Trail)
      requires Valid() && !failed && SaneOracle(o) && |envelope| <= INPUT_LIMIT && (sizes == U32 || sizes == U64)
      requires gas < U64 && i < n && Reached(keccak, o, envelope, sizes, n, i, cursor, trail, Expected(blockHash, gas), accepted)
      modifies this
      ensures Valid() && ok == !failed && gas' < U64
      ensures OrElse(old(Anchor()), RootFrom(keccak, o, envelope, sizes, i, n, cursor))
              == if ok then OrElse(Anchor(), RootFrom(keccak, o, envelope, sizes, i + 1, n, cursor')) else Anchor()
      ensures old(accepted) + TakenFrom(keccak, o, envelope, sizes, i, n, cursor)
              == if ok then accepted + TakenFrom(keccak, o, envelope, sizes, i + 1, n, cursor') else accepted
      ensures GoodRun(keccak, o, envelope, sizes, i, n, cursor) <==> ok && GoodRun(keccak, o, envelope, sizes, i + 1, n, cursor')
      ensures ok ==> Reached(keccak, o, envelope, sizes, n, i + 1, cursor', trail', Expected(blockHash, gas'), accepted)
    {
      hide Valid, Load, Tail, Unflagged, FoldBlocks, Reached, SaneOracle, Sane, BoundToRecords, NextStart, GoodBundle, GoodRun, RootFrom, TakenFrom, BundleRoot, Takes, OrElse;
      ok, cursor', gas', trail' := false, cursor, gas, trail;
      var loaded := LoadNext(o, envelope, sizes, i, cursor);
      RunSteps(keccak, o, envelope, sizes, i, n, cursor, loaded);
      BundleJoins(keccak, o, envelope, sizes, i, n, cursor, loaded, accepted, Anchor());
      if loaded.None? {
        Stop();
        return;
      }
      OutsideBundle(keccak, o, envelope, sizes, n, i, cursor, trail, Expected(blockHash, gas), accepted);
      ghost var before, e := accepted, Expected(blockHash, gas);
      var used;
      used, ok := RunOneBundle(o, i, loaded.value, gas);
      if !ok { return; }
      gas' := Wrapped(gas, used);
      cursor' := NextStart(cursor, loaded.value.bundle.size, sizes);
      ReachedNext(keccak, o, envelope, sizes, n, i, cursor, trail, e, before, loaded.value, Expected(blockHash, gas'), accepted);
      trail' := Extend(trail, loaded.value.bundle, cursor');
    }

    /**
      `run_mfbd`. It succeeds exactly on a good envelope, and whether it does or not, the blocks it
      accepts and the pre-state root it leaves are those the envelope determines. On success the
      accepted blocks are exactly the unflagged blocks of the bundles, and the host derives a value
      from the input alone if and only if every bundle starts inside the input and claims a block
      count the guest's size type holds; that value is then the committed hash and the gas result.
      By their flag bytes and headers, the accepted blocks are those without an odd flag, in order;
      the result is the sum of their gas in 64 bits, hash and post-state root are the last one's,
      and each names the one before it in its bundle.
      */
    method RunMfbd(o: Oracle, envelope: seq<byte>, sizes: nat) returns (result: nat, ghost bundles: seq<Bundle>, ghost headers: seq<BlockHeader>)
      requires Valid() && !failed && accepted == [] && SaneOracle(o)
      requires 4 <= |envelope| <= INPUT_LIMIT && ReadU32(envelope, 0) == MFBD_MAGIC && (sizes == U32 || sizes == U64)
      modifies this
      ensures Valid() && (failed ==> result == 0xFFFF_FFFF_FFFF_FFFF) && (!failed <==> GoodEnvelope(keccak, o, envelope, sizes))
      ensures accepted == Taken(keccak, o, envelope, sizes) && Anchor() == RootLeft(keccak, o, envelope, sizes)
      ensures !failed ==> |envelope| >= MFBD_HEADER && |bundles| == ReadU64(envelope, 8)
      ensures !failed ==> (exists starts :: Walked(o, envelope, sizes, starts, bundles)) && accepted == AllUnflagged(o, bundles)
      ensures !failed ==>
        (ExpectedFor(keccak, envelope).Some? <==> HostReads(envelope, sizes, MFBD_HEADER, ReadU64(envelope, 8)))
      ensures !failed && ExpectedFor(keccak, envelope).Some? ==>
        var e := ExpectedFor(keccak, envelope).value;
        e.blockHash == blockHash && (if bundles == [] then e.gasUsed == 0 else result == e.gasUsed)
      ensures AllVouched(o, accepted) && (!failed ==> AllJudged(o, bundles))
      ensures !failed ==> InOrder(accepted) && forall b: nat, i: nat :: b < |bundles| && i < |bundles[b].blocks| ==>
        (InList(accepted, b, i) <==> i >= |bundles[b].flags| || bundles[b].flags[i] % 2 == 0)
      ensures !failed ==> Headed(o, bundles, accepted, headers) && NamesParent(keccak, accepted, headers)
      ensures !failed ==> result == if bundles == [] then 0xFFFF_FFFF_FFFF_FFFE else TotalGas(headers) % 0x1_0000_0000_0000_0000
      ensures !failed && headers != [] ==>
        var last := headers[|headers| - 1];
        Short(last) && blockHash == keccak(HeaderBytes(last)) && postStateRoot == last.stateRoot
    {
      hide Valid, GasSum, AllDecode, AllJudged, AllVouched, InOrder, Headed, NamesParent, TotalGas, InList, HeaderBytes, Short, ReadU32, ReadU64, FoldBundles, HostReads, Walked, AllUnflagged, SaneOracle, Reached, GoodRun, RootFrom, TakenFrom, AnchorOf;
      bundles, headers, result := [], [], RUN_FAILURE;
      RunVouched(keccak, o, envelope, sizes);
      AnchorIs();
      NoAnchor();
      if |envelope| < MFBD_HEADER || ReadU32(envelope, 4) != MFBD_VERSION {
        Stop();
        return;
      }
      var n := ReadU64(envelope, 8);
      var cursor: nat, gas: nat := MFBD_HEADER, 0;
      ghost var trail := Trail([], [MFBD_HEADER]);
      FreshHash();
      ReachedStart(keccak, o, envelope, sizes, n);
      for i := 0 to n
        invariant Valid() && !failed && gas < U64 && (i == 0 ==> gas == 0)
        invariant Reached(keccak, o, envelope, sizes, n, i, cursor, trail, Expected(blockHash, gas), accepted)
        invariant RootFrom(keccak, o, envelope, sizes, 0, n, MFBD_HEADER) == OrElse(Anchor(), RootFrom(keccak, o, envelope, sizes, i, n, cursor))
        invariant TakenFrom(keccak, o, envelope, sizes, 0, n, MFBD_HEADER) == accepted + TakenFrom(keccak, o, envelope, sizes, i, n, cursor)
        invariant GoodRun(keccak, o, envelope, sizes, 0, n, MFBD_HEADER) <==> GoodRun(keccak, o, envelope, sizes, i, n, cursor)
      {
        var ok;
        ok, cursor, gas, trail := RunNext(o, envelope, sizes, i, cursor, gas, n, trail);
        if !ok { return; }
      }
      ReachedEnd(keccak, o, envelope, sizes, n, cursor, trail, Expected(blockHash, gas), accepted);
      RunEnds(keccak, o, envelope, sizes, n, cursor);
      bundles := trail.bundles;
      result := if n == 0 then RUN_SKIPPED else gas;
      headers := Named(o, bundles);
    }

    /** The accepted blocks by their headers. */
    lemma Named(o: Oracle, bundles: seq<Bundle>) returns (headers: seq<BlockHeader>)
      requires Valid() && accepted == AllUnflagged(o, bundles) && AllDecode(o, bundles)
      ensures InOrder(accepted) && forall b: nat, i: nat :: b < |bundles| && i < |bundles[b].blocks| ==>
        (InList(accepted, b, i) <==> i >= |bundles[b].flags| || bundles[b].flags[i] % 2 == 0)
      ensures Headed(o, bundles, accepted, headers) && NamesParent(keccak, accepted, headers) && GasSum(accepted) == TotalGas(headers)
      ensures headers != [] ==>
        var last := headers[|headers| - 1];
        Short(last) && blockHash == keccak(HeaderBytes(last)) && postStateRoot == last.stateRoot
    {
      hide AllUnflagged, AllDecode, InOrder, Headed, CellsMatch, NamesParent, GasSum, TotalGas, HeaderBytes, Short, EncodeHeader, Sealed, Chained;
      assert bundles[..|bundles|] == bundles;
      ListsAll(o, bundles, |bundles|);
      Listed(o, bundles, accepted);
      headers := HeadersOf(o, bundles, accepted);
      SameLength(o, bundles, accepted, headers);
      GasByName(accepted, headers);
      ChainByName(keccak, accepted, headers);
      if headers != [] { LastByName(accepted, headers); }
    }

    lemma FreshHash()
      requires Valid() && accepted == []
      ensures blockHash == ZeroHash()
    {
    }
  }

  // ---------- Runs ----------

  /** The oracle's answers have the sizes their types give them. */
  ghost predicate SaneOracle(o: Oracle) {
    forall b: nat, i: nat, k :: 0 <= k < |o.verdict(b, i).blobHashes| ==> |o.verdict(b, i).blobHashes[k]| == 32
  }

  /** The bytes bundle `k` is read from. */
  ghost function Tail(o: Oracle, envelope: seq<byte>, k: nat, cursor: nat): seq<byte> {
    if cursor <= |envelope| then envelope[cursor..] else o.stray(k)
  }

  ghost predicate Walked(o: Oracle, envelope: seq<byte>, sizes: nat, starts: seq<nat>, bundles: seq<Bundle>)
    requires sizes > 0
  {
    && |starts| == |bundles| + 1 && starts[0] == MFBD_HEADER
    && forall k :: 0 <= k < |bundles| ==> Visited(o, envelope, sizes, k, starts[k], bundles[k], starts[k + 1])
  }

  /** Bundle `k` is what the guest loads at its start, and the next one starts right behind it. */
  ghost predicate Visited(o: Oracle, envelope: seq<byte>, sizes: nat, k: nat, start: nat, bundle: Bundle, next: nat)
    requires sizes > 0
  {
    && Load(Tail(o, envelope, k, start), sizes, o.decoders).Some?
    && Load(Tail(o, envelope, k, start), sizes, o.decoders).value.bundle == bundle
    && next == NextStart(start, bundle.size, sizes)
  }

  ghost function AllUnflagged(o: Oracle, bundles: seq<Bundle>): seq<Accepted> {
    if bundles == [] then []
    else
      var last := |bundles| - 1;
      AllUnflagged(o, bundles[..last]) + Unflagged(o, last, bundles[last], |bundles[last].blocks|)
  }

  /** Every bundle from `cursor` on starts inside the input and claims a count the guest's size type holds. */
  ghost predicate HostReads(envelope: seq<byte>, sizes: nat, cursor: nat, n: nat)
    decreases n
  {
    n == 0 || (
      && cursor <= |envelope|
      && var b := envelope[cursor..];
         && |b| >= BUNDLE_HEADER && InRange(b) && SectionAt(b, BLOCKS).size >= 8 && ClaimedBlocks(b) < sizes
         && HostReads(envelope, sizes, Align8(cursor + EndOf(b, SECTIONS)), n - 1))
  }

  /** The host is still in step with the run, or has given up for good where it cannot follow. */
  ghost predicate InStep(keccak: seq<byte> -> seq<byte>, envelope: seq<byte>, sizes: nat, n: nat, cursor: nat, left: nat, e: Expected) {
    var all := FoldBundles(keccak, envelope, MFBD_HEADER, n, Expected(ZeroHash(), 0));
    || (all == FoldBundles(keccak, envelope, cursor, left, e)
        && (HostReads(envelope, sizes, MFBD_HEADER, n) <==> HostReads(envelope, sizes, cursor, left)))
    || (all.None? && !HostReads(envelope, sizes, MFBD_HEADER, n))
  }

  /** The bundles run so far, and where each starts, the next one's start included. */
  datatype Trail = Trail(bundles: seq<Bundle>, starts: seq<nat>)

  ghost function Extend(trail: Trail, bundle: Bundle, next: nat): Trail {
    Trail(trail.bundles + [bundle], trail.starts + [next])
  }

  /** Where the run stands before bundle `i`. */
  ghost predicate Reached(keccak: seq<byte> -> seq<byte>, o: Oracle, envelope: seq<byte>, sizes: nat, n: nat, i: nat,
                          cursor: nat, trail: Trail, e: Expected, accepted: seq<Accepted>)
    requires sizes > 0
  {
    && i <= n && |trail.bundles| == i && |trail.starts| == i + 1 && trail.starts[i] == cursor
    && Walked(o, envelope, sizes, trail.starts, trail.bundles) && InStep(keccak, envelope, sizes, n, cursor, n - i, e)
    && accepted == AllUnflagged(o, trail.bundles) && AllBelow(accepted, i) && e.gasUsed == GasSum(accepted) % U64
    && AllDecode(o, trail.bundles) && AllJudged(o, trail.bundles)
  }

  ghost predicate AllBelow(accepted: seq<Accepted>, i: nat) {
    forall k :: 0 <= k < |accepted| ==> accepted[k].bundle < i
  }

  lemma BelowNext(before: seq<Accepted>, after: seq<Accepted>, i: nat)
    requires AllBelow(before, i) && before <= after && forall k :: |before| <= k < |after| ==> after[k].bundle == i
    ensures AllBelow(after, i + 1)
  {
    assert forall k :: 0 <= k < |before| ==> after[k] == before[k];
  }

  lemma ReachedStart(keccak: seq<byte> -> seq<byte>, o: Oracle, envelope: seq<byte>, sizes: nat, n: nat)
    requires sizes > 0
    ensures Reached(keccak, o, envelope, sizes, n, 0, MFBD_HEADER, Trail([], [MFBD_HEADER]), Expected(ZeroHash(), 0), [])
  {
    hide FoldBundles, HostReads;
  }

  lemma OutsideBundle(keccak: seq<byte> -> seq<byte>, o: Oracle, envelope: seq<byte>, sizes: nat, n: nat, i: nat,
                      cursor: nat, trail: Trail, e: Expected, accepted: seq<Accepted>)
    requires sizes > 0 && Reached(keccak, o, envelope, sizes, n, i, cursor, trail, e, accepted)
    ensures accepted != [] ==> accepted[|accepted| - 1].bundle != i
  {
    hide Walked, InStep, AllUnflagged;
  }

  lemma ReachedNext(keccak: seq<byte> -> seq<byte>, o: Oracle, envelope: seq<byte>, sizes: nat, n: nat, i: nat, cursor: nat,
                    trail: Trail, e: Expected, before: seq<Accepted>, loaded: Loaded, e': Expected, after: seq<Accepted>)
    requires |envelope| <= INPUT_LIMIT && (sizes == U32 || sizes == U64) && sizes > 0 && i < n
    requires Reached(keccak, o, envelope, sizes, n, i, cursor, trail, e, before)
    requires Load(Tail(o, envelope, i, cursor), sizes, o.decoders) == Some(loaded)
    requires FoldBlocks(keccak, loaded.bundle, 0, e) == Some(e')
    requires after == before + Unflagged(o, i, loaded.bundle, |loaded.bundle.blocks|)
    requires forall k :: |before| <= k < |after| ==> after[k].bundle == i
    requires GoodBundle(keccak, o, i, loaded) && Sane(o, i, loaded)
    ensures var next := NextStart(cursor, loaded.bundle.size, sizes);
            Reached(keccak, o, envelope, sizes, n, i + 1, next, Extend(trail, loaded.bundle, next), e', after)
  {
    hide *;
    ReachedParts(keccak, o, envelope, sizes, n, i, cursor, trail, e, before);
    var next := NextStart(cursor, loaded.bundle.size, sizes);
    WalkAdvances(o, envelope, sizes, trail.starts, trail.bundles, loaded);
    UnflaggedAppend(o, trail.bundles, loaded.bundle);
    BelowNext(before, after, i);
    GasAdds(keccak, o, i, loaded, e, e', before);
    GoodDecodes(keccak, o, i, loaded);
    DecodeAppend(o, trail.bundles, loaded.bundle);
    GoodJudged(keccak, o, i, Tail(o, envelope, i, cursor), sizes, loaded);
    JudgedAppend(o, trail.bundles, loaded.bundle);
    StepAdvances(keccak, o, envelope, sizes, n, cursor, n - i, i, loaded, e, e');
    ExtendHolds(trail, loaded.bundle, next);
    ReachedBy(keccak, o, envelope, sizes, n, i + 1, next, Extend(trail, loaded.bundle, next), e', after);
  }

  lemma ExtendHolds(trail: Trail, bundle: Bundle, next: nat)
    ensures var t := Extend(trail, bundle, next);
            && t.bundles == trail.bundles + [bundle] && t.starts == trail.starts + [next]
  {
  }

  lemma ReachedParts(keccak: seq<byte> -> seq<byte>, o: Oracle, envelope: seq<byte>, sizes: nat, n: nat, i: nat,
                     cursor: nat, trail: Trail, e: Expected, accepted: seq<Accepted>)
    requires sizes > 0 && Reached(keccak, o, envelope, sizes, n, i, cursor, trail, e, accepted)
    ensures i <= n && |trail.bundles| == i && |trail.starts| == i + 1 && trail.starts[i] == cursor
    ensures Walked(o, envelope, sizes, trail.starts, trail.bundles) && InStep(keccak, envelope, sizes, n, cursor, n - i, e)
    ensures accepted == AllUnflagged(o, trail.bundles) && AllBelow(accepted, i) && e.gasUsed == GasSum(accepted) % U64
    ensures AllDecode(o, trail.bundles) && AllJudged(o, trail.bundles)
  {
    hide Walked, InStep, AllUnflagged, AllBelow, GasSum, AllDecode, AllJudged;
  }

  lemma ReachedBy(keccak: seq<byte> -> seq<byte>, o: Oracle, envelope: seq<byte>, sizes: nat, n: nat, i: nat,
                  cursor: nat, trail: Trail, e: Expected, accepted: seq<Accepted>)
    requires sizes > 0 && i <= n && |trail.bundles| == i && |trail.starts| == i + 1 && trail.starts[i] == cursor
    requires Walked(o, envelope, sizes, trail.starts, trail.bundles) && InStep(keccak, envelope, sizes, n, cursor, n - i, e)
    requires accepted == AllUnflagged(o, trail.bundles) && AllBelow(accepted, i) && e.gasUsed == GasSum(accepted) % U64
    requires AllDecode(o, trail.bundles) && AllJudged(o, trail.bundles)
    ensures Reached(keccak, o, envelope, sizes, n, i, cursor, trail, e, accepted)
  {
    hide Walked, InStep, AllUnflagged, AllBelow, GasSum, AllDecode, AllJudged;
  }

  lemma ReachedEnd(keccak: seq<byte> -> seq<byte>, o: Oracle, envelope: seq<byte>, sizes: nat, n: nat, cursor: nat,
                   trail: Trail, e: Expected, accepted: seq<Accepted>)
    requires sizes > 0 && Reached(keccak, o, envelope, sizes, n, n, cursor, trail, e, accepted)
    ensures |trail.bundles| == n && Walked(o, envelope, sizes, trail.starts, trail.bundles) && accepted == AllUnflagged(o, trail.bundles)
    ensures e.gasUsed == GasSum(accepted) % U64 && AllDecode(o, trail.bundles) && AllJudged(o, trail.bundles)
    ensures var all := FoldBundles(keccak, envelope, MFBD_HEADER, n, Expected(ZeroHash(), 0));
            && (all.Some? <==> HostReads(envelope, sizes, MFBD_HEADER, n))
            && (all.Some? ==> all.value == e)
  {
    hide Walked, InStep, AllUnflagged, FoldBundles, HostReads, GasSum, AllDecode, AllJudged;
    StepEnds(keccak, envelope, sizes, n, cursor, e);
  }

  // ---------- The accepted blocks, by their headers ----------

  ghost function Gas(a: Accepted): nat { if WellFormed(a.header) then GasUsed(a.header) else 0 }

  ghost function GasSum(s: seq<Accepted>): nat {
    if s == [] then 0 else GasSum(s[..|s| - 1]) + Gas(s[|s| - 1])
  }

  lemma {:induction false} GasSumJoins(a: seq<Accepted>, b: seq<Accepted>)
    ensures GasSum(a + b) == GasSum(a) + GasSum(b)
  {
    hide Gas;
    if b == [] {
      assert a + b == a;
    } else {
      assert (a + b)[..|a + b| - 1] == a + b[..|b| - 1];
      GasSumJoins(a, b[..|b| - 1]);
    }
  }

  /** Every block without the flag decodes, and fits the input. */
  ghost predicate Decodes(o: Oracle, bundle: Bundle) {
    forall i :: 0 <= i < |bundle.blocks| && !Flagged(bundle, i) ==>
      |bundle.blocks[i]| < U32 && DecodeBlock(bundle.blocks[i], o.body).Some?
  }

  ghost predicate AllDecode(o: Oracle, bundles: seq<Bundle>) {
    forall b :: 0 <= b < |bundles| ==> Decodes(o, bundles[b])
  }

  lemma DecodeAppend(o: Oracle, bundles: seq<Bundle>, bundle: Bundle)
    requires AllDecode(o, bundles) && Decodes(o, bundle)
    ensures AllDecode(o, bundles + [bundle])
  {
    hide Decodes;
  }

  lemma GoodDecodes(keccak: seq<byte> -> seq<byte>, o: Oracle, b: nat, loaded: Loaded)
    requires GoodBundle(keccak, o, b, loaded) && Sane(o, b, loaded)
    ensures Decodes(o, loaded.bundle)
  {
    hide DecodeBlock, EncodeHeader, Concat, Linked, HashOf, Flagged;
    forall i | 0 <= i < |loaded.bundle.blocks| && !Flagged(loaded.bundle, i)
      ensures |loaded.bundle.blocks[i]| < U32 && DecodeBlock(loaded.bundle.blocks[i], o.body).Some?
    {
      assert Settles(keccak, o, b, loaded, i);
    }
  }

  /** Folding the blocks in adds the gas of the unflagged ones. */
  lemma {:induction false} FoldAdds(keccak: seq<byte> -> seq<byte>, o: Oracle, b: nat, bundle: Bundle, i: nat, e: Expected, e': Expected)
    requires i <= |bundle.blocks| && Decodes(o, bundle) && FoldBlocks(keccak, bundle, i, e) == Some(e') && e.gasUsed < U64
    ensures e'.gasUsed < U64
    ensures (e'.gasUsed + GasSum(Unflagged(o, b, bundle, i))) % U64 == (e.gasUsed + GasSum(Unflagged(o, b, bundle, |bundle.blocks|))) % U64
    decreases |bundle.blocks| - i
  {
    hide HostHashAndGas, DecodeBlock, GasSum, Flagged, Unflagged, Decodes;
    if i < |bundle.blocks| {
      UnflaggedGas(o, b, bundle, i);
      if Flagged(bundle, i) {
        FoldAdds(keccak, o, b, bundle, i + 1, e, e');
      } else {
        var x := HostHashAndGas(keccak, bundle.blocks[i]).value;
        HostGas(keccak, o, b, bundle, i);
        FoldAdds(keccak, o, b, bundle, i + 1, Add(e, x), e');
        Cancel(e'.gasUsed, GasSum(Unflagged(o, b, bundle, i)), x.gas, e.gasUsed, GasSum(Unflagged(o, b, bundle, |bundle.blocks|)));
      }
    }
  }

  lemma Cancel(p: nat, q: nat, x: nat, e: nat, t: nat)
    requires (p + (q + x)) % U64 == ((e + x) % U64 + t) % U64
    ensures (p + q) % U64 == (e + t) % U64
  {
    WrapsOnce(e + x, t, U64);
  }

  ghost function Entry(o: Oracle, b: nat, bundle: Bundle, i: nat): Accepted
    requires i < |bundle.blocks|
  {
    Accepted(b, i, HeaderOf(o, bundle.blocks[i]), o.verdict(b, i).parentRoot)
  }

  lemma UnflaggedGas(o: Oracle, b: nat, bundle: Bundle, i: nat)
    requires i < |bundle.blocks|
    ensures GasSum(Unflagged(o, b, bundle, i + 1)) ==
            GasSum(Unflagged(o, b, bundle, i)) + if Flagged(bundle, i) then 0 else Gas(Entry(o, b, bundle, i))
  {
    hide Gas, Flagged, HeaderOf;
    if !Flagged(bundle, i) {
      GasSumJoins(Unflagged(o, b, bundle, i), [Entry(o, b, bundle, i)]);
      OneGas(Entry(o, b, bundle, i));
    }
  }

  lemma HostGas(keccak: seq<byte> -> seq<byte>, o: Oracle, b: nat, bundle: Bundle, i: nat)
    requires i < |bundle.blocks| && Decodes(o, bundle) && !Flagged(bundle, i)
    ensures var x := HostHashAndGas(keccak, bundle.blocks[i]); x.Some? && x.value.gas == Gas(Entry(o, b, bundle, i))
  {
    hide HostHashAndGas, DecodeBlock, EncodeHeader, Encodable, WellFormed;
    HostAgreesOnBlock(keccak, bundle.blocks[i], o.body);
  }

  lemma OneGas(a: Accepted)
    ensures GasSum([a]) == Gas(a)
  {
    assert [a][..0] == [];
  }

  lemma GasAdds(keccak: seq<byte> -> seq<byte>, o: Oracle, b: nat, loaded: Loaded, e: Expected, e': Expected, before: seq<Accepted>)
    requires GoodBundle(keccak, o, b, loaded) && Sane(o, b, loaded) && FoldBlocks(keccak, loaded.bundle, 0, e) == Some(e')
    requires e.gasUsed == GasSum(before) % U64
    ensures e'.gasUsed == GasSum(before + Unflagged(o, b, loaded.bundle, |loaded.bundle.blocks|)) % U64
  {
    hide GoodBundle, Sane, FoldBlocks, GasSum, Decodes, Unflagged;
    var all := Unflagged(o, b, loaded.bundle, |loaded.bundle.blocks|);
    GoodDecodes(keccak, o, b, loaded);
    FoldAdds(keccak, o, b, loaded.bundle, 0, e, e');
    GasSumJoins(before, all);
    NoGas();
    UnflaggedNone(o, b, loaded.bundle);
    AddMod(e'.gasUsed, GasSum(before), GasSum(all));
  }

  lemma UnflaggedNone(o: Oracle, b: nat, bundle: Bundle)
    ensures Unflagged(o, b, bundle, 0) == []
  {
  }

  lemma AddMod(p: nat, q: nat, x: nat)
    requires p < U64 && p % U64 == (q % U64 + x) % U64
    ensures p == (q + x) % U64
  {
    WrapsOnce(q, x, U64);
  }

  lemma NoGas()
    ensures GasSum([]) == 0
  {
  }

  ghost predicate InList(s: seq<Accepted>, b: nat, i: nat) {
    exists k :: 0 <= k < |s| && s[k].bundle == b && s[k].index == i
  }

  ghost predicate Before(a: Accepted, b: nat, i: nat) { a.bundle < b || (a.bundle == b && a.index < i) }

  ghost predicate InOrder(s: seq<Accepted>) {
    forall j, k :: 0 <= j < k < |s| ==> Before(s[j], s[k].bundle, s[k].index)
  }

  /** The block has no flag byte, or one whose lowest bit is clear. */
  ghost predicate Clear(bundle: Bundle, i: nat) { i >= |bundle.flags| || bundle.flags[i] % 2 == 0 }

  ghost predicate From(o: Oracle, bundles: seq<Bundle>, a: Accepted) {
    && a.bundle < |bundles| && a.index < |bundles[a.bundle].blocks| && Clear(bundles[a.bundle], a.index)
    && a.header == HeaderOf(o, bundles[a.bundle].blocks[a.index])
  }

  /** The list is that of the clear blocks before block `i` of bundle `b`. */
  ghost predicate ListsTo(o: Oracle, bundles: seq<Bundle>, b: nat, i: nat, s: seq<Accepted>) {
    && InOrder(s)
    && (forall k :: 0 <= k < |s| ==> From(o, bundles, s[k]) && Before(s[k], b, i))
    && (forall c: nat, j: nat :: c < |bundles| && j < |bundles[c].blocks| && Clear(bundles[c], j) && (c < b || (c == b && j < i)) ==> InList(s, c, j))
  }

  lemma ListGrows(o: Oracle, bundles: seq<Bundle>, b: nat, i: nat, s: seq<Accepted>, a: Accepted)
    requires ListsTo(o, bundles, b, i, s) && From(o, bundles, a) && a.bundle == b && a.index == i
    ensures ListsTo(o, bundles, b, i + 1, s + [a])
  {
    hide From, Clear;
    assert (s + [a])[|s|] == a;
    forall c: nat, j: nat | c < |bundles| && j < |bundles[c].blocks| && Clear(bundles[c], j) && (c < b || (c == b && j < i + 1))
      ensures InList(s + [a], c, j)
    {
      if c < b || j < i {
        var k :| 0 <= k < |s| && s[k].bundle == c && s[k].index == j;
        assert (s + [a])[k] == s[k];
      }
    }
  }

  lemma {:induction false} ListsBundle(o: Oracle, bundles: seq<Bundle>, b: nat, i: nat, before: seq<Accepted>)
    requires b < |bundles| && i <= |bundles[b].blocks| && ListsTo(o, bundles, b, 0, before)
    ensures ListsTo(o, bundles, b, i, before + Unflagged(o, b, bundles[b], i))
  {
    hide ListsTo, HeaderOf;
    if i == 0 {
      assert before + [] == before;
    } else {
      ListsBundle(o, bundles, b, i - 1, before);
      var s := before + Unflagged(o, b, bundles[b], i - 1);
      if Flagged(bundles[b], i - 1) {
        ListStays(o, bundles, b, i - 1, s);
      } else {
        var a := Accepted(b, i - 1, HeaderOf(o, bundles[b].blocks[i - 1]), o.verdict(b, i - 1).parentRoot);
        ListGrows(o, bundles, b, i - 1, s, a);
        assert s + [a] == before + Unflagged(o, b, bundles[b], i);
      }
    }
  }

  lemma ListStays(o: Oracle, bundles: seq<Bundle>, b: nat, i: nat, s: seq<Accepted>)
    requires ListsTo(o, bundles, b, i, s) && b < |bundles| && !Clear(bundles[b], i)
    ensures ListsTo(o, bundles, b, i + 1, s)
  {
    hide From, Clear, InList;
  }

  lemma ListTurns(o: Oracle, bundles: seq<Bundle>, b: nat, s: seq<Accepted>)
    requires b < |bundles| && ListsTo(o, bundles, b, |bundles[b].blocks|, s)
    ensures ListsTo(o, bundles, b + 1, 0, s)
  {
    hide From, Clear, InList;
  }

  lemma {:induction false} ListsAll(o: Oracle, bundles: seq<Bundle>, b: nat)
    requires b <= |bundles|
    ensures ListsTo(o, bundles, b, 0, AllUnflagged(o, bundles[..b]))
  {
    hide ListsTo, Unflagged;
    if b == 0 {
      ListsNone(o, bundles);
    } else {
      ListsAll(o, bundles, b - 1);
      ListsBundle(o, bundles, b - 1, |bundles[b - 1].blocks|, AllUnflagged(o, bundles[..b - 1]));
      ListTurns(o, bundles, b - 1, AllUnflagged(o, bundles[..b - 1]) + Unflagged(o, b - 1, bundles[b - 1], |bundles[b - 1].blocks|));
      assert bundles[..b] == bundles[..b - 1] + [bundles[b - 1]];
      UnflaggedAppend(o, bundles[..b - 1], bundles[b - 1]);
    }
  }

  lemma ListsNone(o: Oracle, bundles: seq<Bundle>)
    ensures ListsTo(o, bundles, 0, 0, [])
  {
  }

  /** The block is this header, followed by a body the guest accepts. */
  ghost predicate Carries(o: Oracle, block: seq<byte>, h: BlockHeader) {
    exists rest :: Short(h) && |HeaderBytes(h)| + |rest| < U64 && o.body(rest) && block == EncodeBlock(HeaderBytes(h), rest)
  }

  ghost predicate HeadedBy(o: Oracle, bundles: seq<Bundle>, a: Accepted, h: BlockHeader) {
    a.bundle < |bundles| && a.index < |bundles[a.bundle].blocks| && Carries(o, bundles[a.bundle].blocks[a.index], h)
  }

  /** These are the headers of the accepted blocks, one by one. */
  ghost predicate Headed(o: Oracle, bundles: seq<Bundle>, s: seq<Accepted>, headers: seq<BlockHeader>) {
    |headers| == |s| && forall k :: 0 <= k < |s| ==> HeadedBy(o, bundles, s[k], headers[k])
  }

  /** The cells of the accepted headers, which the run works on, are those of the headers. */
  ghost predicate CellsMatch(s: seq<Accepted>, headers: seq<BlockHeader>) {
    |headers| == |s| && forall k :: 0 <= k < |s| ==> Short(headers[k]) && s[k].header == CellsOf(headers[k])
  }

  lemma Listed(o: Oracle, bundles: seq<Bundle>, s: seq<Accepted>)
    requires ListsTo(o, bundles, |bundles|, 0, s)
    ensures InOrder(s) && forall k :: 0 <= k < |s| ==> From(o, bundles, s[k])
    ensures forall b: nat, i: nat :: b < |bundles| && i < |bundles[b].blocks| ==>
      (InList(s, b, i) <==> i >= |bundles[b].flags| || bundles[b].flags[i] % 2 == 0)
  {
    hide InOrder;
  }

  lemma SameLength(o: Oracle, bundles: seq<Bundle>, s: seq<Accepted>, headers: seq<BlockHeader>)
    requires Headed(o, bundles, s, headers)
    ensures |headers| == |s|
  {
  }

  lemma {:induction false} HeadersOf(o: Oracle, bundles: seq<Bundle>, s: seq<Accepted>) returns (headers: seq<BlockHeader>)
    requires AllDecode(o, bundles) && forall k :: 0 <= k < |s| ==> From(o, bundles, s[k])
    ensures Headed(o, bundles, s, headers) && CellsMatch(s, headers)
  {
    hide CellsOf, Short, HeadedBy, From, AllDecode;
    if s == [] {
      headers := [];
    } else {
      var last := s[|s| - 1];
      var before := HeadersOf(o, bundles, s[..|s| - 1]);
      var h := HeaderAt(o, bundles, last);
      headers := before + [h];
    }
  }

  lemma HeaderAt(o: Oracle, bundles: seq<Bundle>, a: Accepted) returns (h: BlockHeader)
    requires AllDecode(o, bundles) && From(o, bundles, a)
    ensures Short(h) && a.header == CellsOf(h) && HeadedBy(o, bundles, a, h)
  {
    hide CellsOf, Short, DecodeBlock, HeaderBytes, EncodeBlock;
    assert Decodes(o, bundles[a.bundle]);
    var rest;
    h, rest := DecodedIsHeader(bundles[a.bundle].blocks[a.index], o.body);
  }

  lemma {:induction false} GasByName(s: seq<Accepted>, headers: seq<BlockHeader>)
    requires CellsMatch(s, headers)
    ensures GasSum(s) == TotalGas(headers)
  {
    hide CellsOf, Short;
    if s != [] {
      GasByName(s[..|s| - 1], headers[..|s| - 1]);
      FieldsByName(headers[|s| - 1]);
    }
  }

  /** Each header of a bundle names the hash of the one before it. */
  ghost predicate NamesParent(keccak: seq<byte> -> seq<byte>, s: seq<Accepted>, headers: seq<BlockHeader>) {
    |headers| == |s| && forall k :: 0 < k < |s| && s[k].bundle == s[k - 1].bundle ==>
      Short(headers[k - 1]) && headers[k].parentHash == keccak(HeaderBytes(headers[k - 1]))
  }

  lemma ChainByName(keccak: seq<byte> -> seq<byte>, s: seq<Accepted>, headers: seq<BlockHeader>)
    requires CellsMatch(s, headers) && AllSealed(s) && Chained(keccak, s)
    ensures NamesParent(keccak, s, headers)
  {
    hide CellsOf, Short, HeaderBytes, Sealed, EncodeHeader, ParentHash;
    forall k | 0 < k < |s| && s[k].bundle == s[k - 1].bundle
      ensures headers[k].parentHash == keccak(HeaderBytes(headers[k - 1]))
    {
      assert Sealed(s[k].header) && Sealed(s[k - 1].header);
      FieldsByName(headers[k]);
      CellsEncode(headers[k - 1]);
    }
  }

  lemma LastByName(s: seq<Accepted>, headers: seq<BlockHeader>)
    requires CellsMatch(s, headers) && s != []
    ensures var a, h := s[|s| - 1], headers[|s| - 1];
            && Short(h) && Sealed(a.header) && EncodeHeader(a.header) == HeaderBytes(h) && StateRoot(a.header) == h.stateRoot
  {
    hide CellsOf, Short, HeaderBytes, EncodeHeader;
    var h := headers[|s| - 1];
    FieldsByName(h);
    CellsEncode(h);
    WrittenIsEncodable(Required(h), Groups(h, FORKS));
    CellsAre(h);
  }

  lemma CellsAre(h: BlockHeader)
    ensures CellsOf(h) == Required(h) + Flat(Groups(h, FORKS))
  {
  }

  // ---------- What every accepted block passed, and no flagged one did ----------

  /** Nothing is wrong with the block: it decodes, fits its fork, executes on a complete witness and ends in its root. */
  ghost predicate Faultless(o: Oracle, b: nat, bundle: Bundle, i: nat)
    requires i < |bundle.blocks|
  {
    var v := o.verdict(b, i);
    && DecodeBlock(bundle.blocks[i], o.body).Some? && !v.tooLarge && v.executed && !v.incomplete && v.rootOk
    && (i == 0 ==> o.headersValid(b) && v.walked)
  }

  /**
    An odd flag is the last block's; without a record, which may fail too, the block it marks has
    a fault. The first of several blocks ran on the whole state.
    */
  ghost predicate Judged(o: Oracle, b: nat, bundle: Bundle) {
    && (forall i :: 0 <= i < |bundle.blocks| && i < |bundle.flags| && bundle.flags[i] % 2 == 1 ==>
          i + 1 == |bundle.blocks| && (bundle.flags[i] == 1 ==> !Faultless(o, b, bundle, i)))
    && (|bundle.blocks| > 1 ==> o.verdict(b, 0).wholeState)
  }

  ghost predicate AllJudged(o: Oracle, bundles: seq<Bundle>) {
    forall b :: 0 <= b < |bundles| ==> Judged(o, b, bundles[b])
  }

  lemma JudgedAppend(o: Oracle, bundles: seq<Bundle>, bundle: Bundle)
    requires AllJudged(o, bundles) && Judged(o, |bundles|, bundle)
    ensures AllJudged(o, bundles + [bundle])
  {
    hide Judged;
  }

  lemma GoodJudged(keccak: seq<byte> -> seq<byte>, o: Oracle, b: nat, tail: seq<byte>, sizes: nat, loaded: Loaded)
    requires GoodBundle(keccak, o, b, loaded) && sizes > 0 && Load(tail, sizes, o.decoders) == Some(loaded)
    ensures Judged(o, b, loaded.bundle)
  {
    hide Load, DecodeBlock, EncodeHeader, Concat, Linked, HashOf;
    LoadedRecords(tail, sizes, o.decoders);
    forall i | 0 <= i < |loaded.bundle.blocks| && i < |loaded.bundle.flags| && loaded.bundle.flags[i] % 2 == 1
      ensures i + 1 == |loaded.bundle.blocks| && (loaded.bundle.flags[i] == 1 ==> !Faultless(o, b, loaded.bundle, i))
    {
      assert Settles(keccak, o, b, loaded, i);
    }
    if |loaded.bundle.blocks| > 1 { assert Settles(keccak, o, b, loaded, 0); }
  }


  ghost predicate Vouched(o: Oracle, a: Accepted) {
    var v := o.verdict(a.bundle, a.index);
    && v.executed && !v.incomplete && !v.tooLarge && v.rootOk && a.parentRoot == v.parentRoot
    && (a.index == 0 ==> o.headersValid(a.bundle) && v.walked)
  }

  ghost predicate AllVouched(o: Oracle, s: seq<Accepted>) {
    forall k :: 0 <= k < |s| ==> Vouched(o, s[k])
  }

  /** Block `i` by its header: it names the header before it, and its record, if any, names its own hash and its blobs' hashes. */
  ghost predicate Bound(keccak: seq<byte> -> seq<byte>, o: Oracle, b: nat, loaded: Loaded, headers: seq<BlockHeader>, i: nat)
    requires i < |headers| == |loaded.bundle.blocks| && Short(headers[i]) && (i > 0 ==> Short(headers[i - 1]))
  {
    && (i > 0 ==> headers[i].parentHash == keccak(HeaderBytes(headers[i - 1])))
    && (i < |loaded.engines| && loaded.engines[i].Some? ==>
          && loaded.engines[i].value.blockHash == keccak(HeaderBytes(headers[i]))
          && loaded.engines[i].value.versionedHashes == Concat(o.verdict(b, i).blobHashes))
  }

  /** These are the headers of the bundle's blocks, and no block is flagged. */
  ghost predicate Plain(o: Oracle, bundle: Bundle, headers: seq<BlockHeader>) {
    && |headers| == |bundle.blocks|
    && forall i :: 0 <= i < |headers| ==> Short(headers[i]) && Carries(o, bundle.blocks[i], headers[i]) && Clear(bundle, i)
  }

  /**
    A bundle without odd flags is good if and only if it is sanitized for a known network, nothing
    is wrong with any block, each is bound to the one before it and to its record, and with several
    blocks the first ran on the whole state.
    */
  lemma PlainIsGood(keccak: seq<byte> -> seq<byte>, o: Oracle, b: nat, loaded: Loaded, headers: seq<BlockHeader>)
    requires Plain(o, loaded.bundle, headers)
    ensures GoodBundle(keccak, o, b, loaded) <==>
      && o.sanitized(b) && o.networkKnown(b) && (|headers| > 1 ==> o.verdict(b, 0).wholeState)
      && forall i :: 0 <= i < |headers| ==> Faultless(o, b, loaded.bundle, i) && Bound(keccak, o, b, loaded, headers, i)
  {
    hide Settles, Faultless, Bound, Short, HeaderBytes, Carries;
    forall i | 0 <= i < |headers|
      ensures Settles(keccak, o, b, loaded, i) <==>
        && Faultless(o, b, loaded.bundle, i) && Bound(keccak, o, b, loaded, headers, i)
        && (i == 0 && |headers| > 1 ==> o.verdict(b, 0).wholeState)
    {
      PlainSettles(keccak, o, b, loaded, headers, i);
    }
    if GoodBundle(keccak, o, b, loaded) && |headers| > 1 { assert Settles(keccak, o, b, loaded, 0); }
  }

  lemma CarriedDecodes(keccak: seq<byte> -> seq<byte>, o: Oracle, block: seq<byte>, h: BlockHeader)
    requires Carries(o, block, h)
    ensures Short(h) && DecodeBlock(block, o.body).Some? && Sealed(HeaderOf(o, block))
    ensures HashOf(keccak, o, block) == keccak(HeaderBytes(h)) && ParentHash(HeaderOf(o, block)) == h.parentHash
  {
    hide DecodeBlock, EncodeHeader, Encodable, HeaderBytes, EncodeBlock, Short, HostHashAndGas, CellsOf;
    var rest :| Short(h) && |HeaderBytes(h)| + |rest| < U64 && o.body(rest) && block == EncodeBlock(HeaderBytes(h), rest);
    BlockOfHeader(keccak, h, rest, o.body);
    FieldsByName(h);
  }

  lemma PlainSettles(keccak: seq<byte> -> seq<byte>, o: Oracle, b: nat, loaded: Loaded, headers: seq<BlockHeader>, i: nat)
    requires Plain(o, loaded.bundle, headers) && i < |headers|
    ensures Settles(keccak, o, b, loaded, i) <==>
      && Faultless(o, b, loaded.bundle, i) && Bound(keccak, o, b, loaded, headers, i)
      && (i == 0 && |headers| > 1 ==> o.verdict(b, 0).wholeState)
  {
    hide DecodeBlock, HashOf, Sealed, HeaderBytes, Short, Concat, Carries, HeaderOf, ParentHash;
    CarriedDecodes(keccak, o, loaded.bundle.blocks[i], headers[i]);
    if i > 0 { CarriedDecodes(keccak, o, loaded.bundle.blocks[i - 1], headers[i - 1]); }
  }

  lemma {:induction false} UnflaggedVouched(keccak: seq<byte> -> seq<byte>, o: Oracle, b: nat, loaded: Loaded, i: nat)
    requires i <= |loaded.bundle.blocks| && forall j :: 0 <= j < i ==> Settles(keccak, o, b, loaded, j)
    ensures AllVouched(o, Unflagged(o, b, loaded.bundle, i))
  {
    hide HeaderOf, DecodeBlock, HashOf, Linked, Flagged;
    if i > 0 {
      UnflaggedVouched(keccak, o, b, loaded, i - 1);
      assert Settles(keccak, o, b, loaded, i - 1);
    }
  }

  lemma {:induction false} SettledBeforeStop(keccak: seq<byte> -> seq<byte>, o: Oracle, b: nat, loaded: Loaded, i: nat)
    requires i <= |loaded.bundle.blocks|
    ensures forall j :: i <= j < FirstStop(keccak, o, b, loaded, i) ==> Settles(keccak, o, b, loaded, j)
    decreases |loaded.bundle.blocks| - i
  {
    hide Settles;
    if i < |loaded.bundle.blocks| && Settles(keccak, o, b, loaded, i) { SettledBeforeStop(keccak, o, b, loaded, i + 1); }
  }

  lemma TakesVouched(keccak: seq<byte> -> seq<byte>, o: Oracle, b: nat, loaded: Loaded)
    ensures AllVouched(o, Takes(keccak, o, b, loaded))
  {
    hide Settles, Unflagged;
    SettledBeforeStop(keccak, o, b, loaded, 0);
    UnflaggedVouched(keccak, o, b, loaded, FirstStop(keccak, o, b, loaded, 0));
  }

  lemma VouchedJoins(o: Oracle, s: seq<Accepted>, t: seq<Accepted>)
    requires AllVouched(o, s) && AllVouched(o, t)
    ensures AllVouched(o, s + t)
  {
    hide Vouched;
  }

  lemma NoneVouched(o: Oracle)
    ensures AllVouched(o, [])
  {
  }

  lemma {:induction false} TakenVouched(keccak: seq<byte> -> seq<byte>, o: Oracle, envelope: seq<byte>, sizes: nat, i: nat, n: nat, cursor: nat)
    requires i <= n && sizes > 0
    ensures AllVouched(o, TakenFrom(keccak, o, envelope, sizes, i, n, cursor))
    decreases n - i
  {
    hide *;
    NoneVouched(o);
    if i == n {
      RunEnds(keccak, o, envelope, sizes, n, cursor);
    } else {
      var loaded := Load(Tail(o, envelope, i, cursor), sizes, o.decoders);
      TakesSteps(keccak, o, envelope, sizes, i, n, cursor, loaded);
      if loaded.Some? {
        var next := NextStart(cursor, loaded.value.bundle.size, sizes);
        TakesVouched(keccak, o, i, loaded.value);
        TakenVouched(keccak, o, envelope, sizes, i + 1, n, next);
        var rest := if GoodBundle(keccak, o, i, loaded.value) then TakenFrom(keccak, o, envelope, sizes, i + 1, n, next) else [];
        VouchedJoins(o, Takes(keccak, o, i, loaded.value), rest);
      }
    }
  }

  lemma RunVouched(keccak: seq<byte> -> seq<byte>, o: Oracle, envelope: seq<byte>, sizes: nat)
    requires sizes > 0
    ensures AllVouched(o, Taken(keccak, o, envelope, sizes))
  {
    hide TakenFrom, AllVouched;
    NoneVouched(o);
    if Opens(envelope) { TakenVouched(keccak, o, envelope, sizes, 0, ReadU64(envelope, 8), MFBD_HEADER); }
  }

  lemma WalkAdvances(o: Oracle, envelope: seq<byte>, sizes: nat, starts: seq<nat>, bundles: seq<Bundle>, loaded: Loaded)
    requires sizes > 0 && |starts| == |bundles| + 1 && Walked(o, envelope, sizes, starts, bundles)
    requires Load(Tail(o, envelope, |bundles|, starts[|bundles|]), sizes, o.decoders) == Some(loaded)
    ensures Walked(o, envelope, sizes, starts + [NextStart(starts[|bundles|], loaded.bundle.size, sizes)], bundles + [loaded.bundle])
  {
    hide *;
    IsVisited(o, envelope, sizes, |bundles|, starts[|bundles|], loaded);
    AppendVisited(o, envelope, sizes, starts, bundles, loaded.bundle, NextStart(starts[|bundles|], loaded.bundle.size, sizes));
  }

  lemma IsVisited(o: Oracle, envelope: seq<byte>, sizes: nat, k: nat, start: nat, loaded: Loaded)
    requires sizes > 0 && Load(Tail(o, envelope, k, start), sizes, o.decoders) == Some(loaded)
    ensures Visited(o, envelope, sizes, k, start, loaded.bundle, NextStart(start, loaded.bundle.size, sizes))
  {
    hide Load, Tail, NextStart, ParseBundle;
  }

  lemma AppendVisited(o: Oracle, envelope: seq<byte>, sizes: nat, starts: seq<nat>, bundles: seq<Bundle>, bundle: Bundle, next: nat)
    requires sizes > 0 && Walked(o, envelope, sizes, starts, bundles)
    requires Visited(o, envelope, sizes, |bundles|, starts[|bundles|], bundle, next)
    ensures Walked(o, envelope, sizes, starts + [next], bundles + [bundle])
  {
    hide Visited;
  }

  lemma UnflaggedAppend(o: Oracle, bundles: seq<Bundle>, bundle: Bundle)
    ensures AllUnflagged(o, bundles + [bundle]) == AllUnflagged(o, bundles) + Unflagged(o, |bundles|, bundle, |bundle.blocks|)
  {
    hide Unflagged;
    assert (bundles + [bundle])[..|bundles|] == bundles;
  }

  method LoadNext(o: Oracle, envelope: seq<byte>, sizes: nat, i: nat, cursor: nat) returns (loaded: Option<Loaded>)
    requires SaneOracle(o) && sizes > 0
    ensures loaded == Load(Tail(o, envelope, i, cursor), sizes, o.decoders)
    ensures loaded.Some? ==> Sane(o, i, loaded.value)
  {
    hide Load, SaneOracle, Sane;
    var tail := if cursor <= |envelope| then envelope[cursor..] else o.stray(i);
    loaded := LoadFlatBundle(tail, sizes, o.decoders);
    if loaded.Some? {
      LoadedIsSane(o, i, tail, sizes, loaded.value);
    }
  }

  lemma LoadedIsSane(o: Oracle, b: nat, tail: seq<byte>, sizes: nat, loaded: Loaded)
    requires SaneOracle(o) && sizes > 0 && Load(tail, sizes, o.decoders) == Some(loaded)
    ensures Sane(o, b, loaded)
  {
    hide ParseBundle;
    BundleBlockSizes(false, tail, sizes);
  }

  lemma StepAdvances(keccak: seq<byte> -> seq<byte>, o: Oracle, envelope: seq<byte>, sizes: nat, n: nat, cursor: nat,
                     left: nat, b: nat, loaded: Loaded, e: Expected, e': Expected)
    requires InStep(keccak, envelope, sizes, n, cursor, left, e) && left > 0
    requires |envelope| <= INPUT_LIMIT && (sizes == U32 || sizes == U64)
    requires Load(Tail(o, envelope, b, cursor), sizes, o.decoders) == Some(loaded)
    requires FoldBlocks(keccak, loaded.bundle, 0, e) == Some(e')
    ensures InStep(keccak, envelope, sizes, n, NextStart(cursor, loaded.bundle.size, sizes), left - 1, e')
  {
    hide ParseBlocks, FlagsOf, FoldBlocks, ReadU32, ReadU64, Counted, Align8, NextStart;
    if cursor <= |envelope| {
      var tail := envelope[cursor..];
      HostParsesGuestBundle(tail, sizes);
      NextInside(cursor, loaded.bundle.size, sizes);
    }
  }

  lemma StepEnds(keccak: seq<byte> -> seq<byte>, envelope: seq<byte>, sizes: nat, n: nat, cursor: nat, e: Expected)
    requires InStep(keccak, envelope, sizes, n, cursor, 0, e)
    ensures var all := FoldBundles(keccak, envelope, MFBD_HEADER, n, Expected(ZeroHash(), 0));
            && (all.Some? <==> HostReads(envelope, sizes, MFBD_HEADER, n))
            && (all.Some? ==> all.value == e)
  {
    hide FoldBundle;
  }

  lemma NothingYet(keccak: seq<byte> -> seq<byte>, o: Oracle, b: nat, loaded: Loaded)
    ensures BoundToRecords(keccak, o, b, loaded, 0) && Unflagged(o, b, loaded.bundle, 0) == []
  {
  }

  lemma FoldEnd(keccak: seq<byte> -> seq<byte>, bundle: Bundle, e: Expected)
    ensures FoldBlocks(keccak, bundle, |bundle.blocks|, e) == Some(e)
  {
  }

  /** The sum of two gas amounts, in 64 bits. */
  function Wrapped(a: nat, b: nat): (r: nat)
    ensures r < U64 && (b == 0 && a < U64 ==> r == a)
  {
    (a + b) % U64
  }

  lemma WrappingSum(g: nat, c: nat, x: nat)
    ensures Wrapped(Wrapped(g, c), x) == Wrapped(g, Wrapped(c, x))
  {
    WrapsOnce(g + c, x, U64);
    WrapsOnce(c + x, g, U64);
  }

  lemma TookAdvances(keccak: seq<byte> -> seq<byte>, o: Oracle, b: nat, loaded: Loaded, i: nat,
                     hash: seq<byte>, g: nat, c: nat, gas: nat, hash': seq<byte>)
    requires TakenAs(keccak, o, b, loaded, i, gas, hash') && |loaded.bundle.blocks[i]| < U32
    requires BoundToRecords(keccak, o, b, loaded, i)
    ensures FoldBlocks(keccak, loaded.bundle, i, Expected(hash, Wrapped(g, c)))
            == FoldBlocks(keccak, loaded.bundle, i + 1, Expected(hash', Wrapped(g, Wrapped(c, gas))))
    ensures Unflagged(o, b, loaded.bundle, i + 1) == Unflagged(o, b, loaded.bundle, i)
              + [Accepted(b, i, HeaderOf(o, loaded.bundle.blocks[i]), o.verdict(b, i).parentRoot)]
    ensures BoundToRecords(keccak, o, b, loaded, i + 1)
  {
    hide DecodeBlock, EncodeHeader, Encodable, WellFormed, Concat, HostHashAndGas;
    HostAgreesOnBlock(keccak, loaded.bundle.blocks[i], o.body);
    WrappingSum(g, c, gas);
  }

  lemma RejectedAdvances(keccak: seq<byte> -> seq<byte>, o: Oracle, b: nat, loaded: Loaded, i: nat, e: Expected)
    requires i < |loaded.bundle.blocks| && Flagged(loaded.bundle, i) && BoundToRecords(keccak, o, b, loaded, i)
    ensures FoldBlocks(keccak, loaded.bundle, i, e) == FoldBlocks(keccak, loaded.bundle, i + 1, e)
    ensures Unflagged(o, b, loaded.bundle, i + 1) == Unflagged(o, b, loaded.bundle, i)
    ensures BoundToRecords(keccak, o, b, loaded, i + 1)
  {
    hide HeaderOf, Sealed, EncodeHeader, Concat, HostHashAndGas;
  }

  /** An accepted block: unflagged, decoded, with its own gas and hash, and bound to its engine record. */
  ghost predicate TakenAs(keccak: seq<byte> -> seq<byte>, o: Oracle, b: nat, loaded: Loaded, i: nat, gas: nat, hash: seq<byte>) {
    && i < |loaded.bundle.blocks| && !Flagged(loaded.bundle, i) && DecodeBlock(loaded.bundle.blocks[i], o.body).Some?
    && var header := HeaderOf(o, loaded.bundle.blocks[i]);
       && Sealed(header) && gas == GasUsed(header) && hash == keccak(EncodeHeader(header))
       && (i < |loaded.engines| && loaded.engines[i].Some? ==>
             loaded.engines[i].value == EngineRecord(hash, Concat(o.verdict(b, i).blobHashes)))
  }

  /** The oracle's answers have the sizes their types give them, and blocks fit the input. */
  ghost predicate Sane(o: Oracle, b: nat, loaded: Loaded) {
    && (forall i: nat, k :: 0 <= k < |o.verdict(b, i).blobHashes| ==> |o.verdict(b, i).blobHashes[k]| == 32)
    && (forall i :: 0 <= i < |loaded.bundle.blocks| ==> |loaded.bundle.blocks[i]| < U32)
  }

  /** Each accepted block with an engine record has the hash and the versioned hashes the record lists. */
  ghost predicate BoundToRecords(keccak: seq<byte> -> seq<byte>, o: Oracle, b: nat, loaded: Loaded, n: nat) {
    forall i :: 0 <= i < n && i < |loaded.bundle.blocks| && i < |loaded.engines| && loaded.engines[i].Some? && !Flagged(loaded.bundle, i) ==>
      && Sealed(HeaderOf(o, loaded.bundle.blocks[i]))
      && loaded.engines[i].value == EngineRecord(keccak(EncodeHeader(HeaderOf(o, loaded.bundle.blocks[i]))), Concat(o.verdict(b, i).blobHashes))
  }

  /** What came of one block. */
  datatype Step = Stopped | Rejected | Took(gas: nat)

  lemma ChainExtends(keccak: seq<byte> -> seq<byte>, accepted: seq<Accepted>, entry: Accepted)
    requires AllSealed(accepted) && Chained(keccak, accepted) && Sealed(entry.header)
    requires accepted != [] && accepted[|accepted| - 1].bundle == entry.bundle ==>
      ParentHash(entry.header) == keccak(EncodeHeader(accepted[|accepted| - 1].header))
    ensures AllSealed(accepted + [entry]) && Chained(keccak, accepted + [entry])
  {
    hide EncodeHeader, Encodable, WellFormed;
  }
}
