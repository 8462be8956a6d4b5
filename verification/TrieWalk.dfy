/**
  The witness walk of prover/stateless_validator/src/mfbd.rs (`walk_tree`, `for_each_leaf`) over
  an encoded Merkle Patricia tree (Appendices B and D of the Ethereum Yellow Paper), of which the
  node map may hold a part only.
  */
module TrieWalk {
  import opened Basics
  import opened Bytes
  import opened Rlp
  import opened TrieNodes
  import Hex = HexPrefix

  type nibble = Hex.nibble

  // ---------- The walk ----------

  datatype Status = Done | Failed | Panicked | Exhausted

  datatype Leaf = Leaf(path: seq<nibble>, value: seq<byte>)

  /** How a walk ended, and the leaves it reported before that. */
  datatype Walked = Walked(status: Status, leaves: seq<Leaf>)

  type Nodes = map<seq<byte>, seq<byte>>

  function Then(first: Walked, second: Walked): Walked {
    if first.status.Done? then Walked(second.status, first.leaves + second.leaves) else first
  }

  /** The walk from a reference: a hash not in the map is passed over. */
  function WalkRef(nodes: Nodes, form: seq<byte>, prefix: seq<nibble>, fuel: nat): Walked
    decreases fuel, 1
  {
    if |form| != HASH then Walk(nodes, form, prefix, fuel)
    else if form in nodes then Walk(nodes, nodes[form], prefix, fuel)
    else Walked(Done, [])
  }

  function WalkBranch(nodes: Nodes, forms: seq<seq<byte>>, slot: nat, prefix: seq<nibble>, fuel: nat): Walked
    requires |forms| == WIDTH && slot <= WIDTH
    decreases fuel, 2, WIDTH - slot
  {
    if slot == WIDTH then Walked(Done, [])
    else if forms[slot] == [] then WalkBranch(nodes, forms, slot + 1, prefix, fuel)
    else if |prefix| >= Hex.PATH_LIMIT then Walked(Panicked, [])
    else Then(WalkRef(nodes, forms[slot], prefix + [slot], fuel), WalkBranch(nodes, forms, slot + 1, prefix, fuel))
  }

  function WalkShort(nodes: Nodes, short: Short, prefix: seq<nibble>, fuel: nat): Walked
    decreases fuel, 2
  {
    var path := prefix + short.path.nibbles;
    if |path| > Hex.PATH_LIMIT then Walked(Done, [])
    else if short.path.leaf then Walked(Done, [Leaf(path, short.second)])
    else WalkRef(nodes, short.second, path, fuel)
  }

  /** Branches first; what does not decode as one is an extension or a leaf. `fuel` bounds the depth of the recursion. */
  function Walk(nodes: Nodes, rlp: seq<byte>, prefix: seq<nibble>, fuel: nat): Walked
    decreases fuel, 0
  {
    if fuel == 0 then Walked(Exhausted, [])
    else match Head(rlp)
      case None => Walked(Failed, [])
      case Some(h) =>
        if !h.list then Walked(Done, [])
        else if h.Len() > |rlp| then Walked(Panicked, [])
        else
          var body := rlp[h.prefix..h.Len()];
          match DecodedBranch(body)
          case Panic => Walked(Panicked, [])
          case Ok(forms) => WalkBranch(nodes, forms, 0, prefix, fuel - 1)
          case Err =>
            match DecodedShort(body)
            case Panic => Walked(Panicked, [])
            case Err => Walked(Failed, [])
            case Ok(short) => WalkShort(nodes, short, prefix, fuel - 1)
  }

  /** `walk_tree`, writing the path it is on into a shared buffer. */
  method WalkTree(nodes: Nodes, rlp: seq<byte>, path: array<nibble>, depth: nat, fuel: nat) returns (r: Walked)
    requires path.Length == Hex.PATH_LIMIT && depth <= path.Length
    modifies path
    ensures r == Walk(nodes, rlp, old(path[..depth]), fuel) && path[..depth] == old(path[..depth])
    decreases fuel, 0
  {
    hide DecodedBranch, DecodedShort, Head;
    if fuel == 0 { return Walked(Exhausted, []); }
    var head := Head(rlp);
    if head.None? { return Walked(Failed, []); }
    var h := head.value;
    if !h.list { return Walked(Done, []); }
    if h.Len() > |rlp| { return Walked(Panicked, []); }
    var branch := DecodeBranch(rlp[h.prefix..h.Len()]);
    if branch.Panic? { return Walked(Panicked, []); }
    if branch.Ok? {
      r := WalkSlots(nodes, branch.value, path, depth, fuel - 1);
      return;
    }
    var short := DecodedShort(rlp[h.prefix..h.Len()]);
    if short.Panic? { return Walked(Panicked, []); }
    if short.Err? { return Walked(Failed, []); }
    r := WalkOne(nodes, short.value, path, depth, fuel - 1);
  }

  method WalkOne(nodes: Nodes, short: Short, path: array<nibble>, depth: nat, fuel: nat) returns (r: Walked)
    requires path.Length == Hex.PATH_LIMIT && depth <= path.Length
    modifies path
    ensures r == WalkShort(nodes, short, old(path[..depth]), fuel) && path[..depth] == old(path[..depth])
    decreases fuel, 2
  {
    hide Walk;
    var n := |short.path.nibbles|;
    if depth + n > path.Length { return Walked(Done, []); }
    ghost var prefix := path[..depth];
    CopyPath(path, depth, short.path.nibbles);
    assert path[..depth + n][..depth] == path[..depth];
    if short.path.leaf { return Walked(Done, [Leaf(path[..depth + n], short.second)]); }
    r := FollowRef(nodes, short.second, path, depth + n, fuel);
    assert path[..depth + n][..depth] == path[..depth];
  }

  method CopyPath(path: array<nibble>, depth: nat, nibbles: seq<nibble>)
    requires depth + |nibbles| <= path.Length
    modifies path
    ensures path[..depth + |nibbles|] == old(path[..depth]) + nibbles
  {
    for i := 0 to |nibbles|
      invariant path[..depth + i] == old(path[..depth]) + nibbles[..i]
    {
      path[depth + i] := nibbles[i];
      assert path[..depth + i + 1] == path[..depth + i] + [nibbles[i]];
    }
    assert nibbles[..|nibbles|] == nibbles;
  }

  method FollowRef(nodes: Nodes, form: seq<byte>, path: array<nibble>, depth: nat, fuel: nat) returns (r: Walked)
    requires path.Length == Hex.PATH_LIMIT && depth <= path.Length
    modifies path
    ensures r == WalkRef(nodes, form, old(path[..depth]), fuel) && path[..depth] == old(path[..depth])
    decreases fuel, 1
  {
    hide Walk;
    if |form| != HASH {
      r := WalkTree(nodes, form, path, depth, fuel);
    } else if form in nodes {
      r := WalkTree(nodes, nodes[form], path, depth, fuel);
    } else {
      r := Walked(Done, []);
    }
  }

  method WalkSlots(nodes: Nodes, forms: seq<seq<byte>>, path: array<nibble>, depth: nat, fuel: nat) returns (r: Walked)
    requires path.Length == Hex.PATH_LIMIT && depth <= path.Length && |forms| == WIDTH
    modifies path
    ensures r == WalkBranch(nodes, forms, 0, old(path[..depth]), fuel) && path[..depth] == old(path[..depth])
    decreases fuel, 2
  {
    hide WalkRef;
    ghost var prefix := path[..depth];
    r := Walked(Done, []);
    ThenNothing(WalkBranch(nodes, forms, 0, prefix, fuel));
    for slot := 0 to WIDTH
      invariant path[..depth] == prefix && r.status.Done?
      invariant Then(r, WalkBranch(nodes, forms, slot, prefix, fuel)) == WalkBranch(nodes, forms, 0, prefix, fuel)
    {
      if forms[slot] == [] { continue; }
      if depth >= path.Length {
        assert r.leaves + [] == r.leaves;
        return Walked(Panicked, r.leaves);
      }
      path[depth] := slot;
      assert path[..depth + 1] == prefix + [slot];
      var child := FollowRef(nodes, forms[slot], path, depth + 1, fuel);
      assert path[..depth] == path[..depth + 1][..depth] == prefix;
      ThenBoth(r, child, WalkBranch(nodes, forms, slot + 1, prefix, fuel));
      r := Then(r, child);
      if !r.status.Done? { return; }
    }
    assert r.leaves + [] == r.leaves;
  }

  lemma ThenNothing(w: Walked)
    ensures Then(Walked(Done, []), w) == w
  {
    assert [] + w.leaves == w.leaves;
  }

  lemma ThenBoth(a: Walked, b: Walked, c: Walked)
    ensures Then(a, Then(b, c)) == Then(Then(a, b), c)
  {
    assert a.leaves + (b.leaves + c.leaves) == a.leaves + b.leaves + c.leaves;
  }
}
