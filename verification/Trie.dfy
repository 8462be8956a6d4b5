/**
  What the witness walk has to find: the leaves of a Merkle Patricia tree keyed by 64 nibbles,
  encoded as Appendix D of the Ethereum Yellow Paper says, as far as the node map leads to them.
  */
module Trie {
  import opened Basics
  import opened Bytes
  import opened Rlp
  import opened TrieNodes
  import opened TrieWalk
  import Hex = HexPrefix

  datatype Tree =
    | Empty
    | Short(path: seq<nibble>, value: seq<byte>)
    | Extension(path: seq<nibble>, child: Tree)
    | Branch(children: seq<Tree>)

  type Hash = seq<byte> -> seq<byte>

  ghost predicate HashSize(hash: Hash) {
    forall x :: |hash(x)| == HASH
  }

  /** Keys are 64 nibbles long, and values are shorter than 4 GiB. */
  ghost predicate Keyed(t: Tree, depth: nat) {
    match t
    case Empty => true
    case Short(path, value) => depth + |path| == Hex.PATH_LIMIT && |value| < U32
    case Extension(path, child) => child != Empty && depth + |path| < Hex.PATH_LIMIT && Keyed(child, depth + |path|)
    case Branch(children) =>
      |children| == WIDTH && depth < Hex.PATH_LIMIT && forall i :: 0 <= i < WIDTH ==> Keyed(children[i], depth + 1)
  }

  // ---------- Encoding ----------

  function ListOf(payload: seq<byte>): seq<byte> {
    if |payload| < U64 then EncodeHead(true, |payload|) + payload else []
  }

  function StringOf(s: seq<byte>): seq<byte> {
    if |s| < U32 then Str(s) else []
  }

  /** A node's encoding. */
  function Encode(hash: Hash, t: Tree): seq<byte>
    decreases t, 1
  {
    ListOf(Payload(hash, t))
  }

  function Payload(hash: Hash, t: Tree): seq<byte>
    decreases t, 0
  {
    match t
    case Empty => []
    case Short(path, value) => StringOf(Hex.Encode(path, true)) + StringOf(value)
    case Extension(path, child) => StringOf(Hex.Encode(path, false)) + Reference(hash, child)
    case Branch(children) => References(hash, children, 0) + [0x80]
  }

  /** Nodes of less than 32 bytes stand in their parent, others by their hash. */
  predicate Embedded(hash: Hash, t: Tree)
    decreases t, 2
  {
    |Encode(hash, t)| < HASH
  }

  function Reference(hash: Hash, t: Tree): seq<byte>
    decreases t, 3
  {
    if t == Empty then [0x80]
    else if Embedded(hash, t) then Encode(hash, t)
    else StringOf(hash(Encode(hash, t)))
  }

  function References(hash: Hash, children: seq<Tree>, k: nat): seq<byte>
    requires k <= |children|
    decreases children, |children| - k
  {
    if k == |children| then [] else Reference(hash, children[k]) + References(hash, children, k + 1)
  }

  // ---------- What there is to find ----------

  /** The node behind a reference is embedded or in the map. */
  predicate Present(hash: Hash, nodes: Nodes, t: Tree) {
    Embedded(hash, t) || hash(Encode(hash, t)) in nodes
  }

  /** The map answers for the tree's own nodes only with those nodes. */
  ghost predicate Serves(hash: Hash, nodes: Nodes, t: Tree) {
    && (t != Empty && hash(Encode(hash, t)) in nodes ==> nodes[hash(Encode(hash, t))] == Encode(hash, t))
    && match t
       case Empty => true
       case Short(_, _) => true
       case Extension(_, child) => Serves(hash, nodes, child)
       case Branch(children) => forall i :: 0 <= i < |children| ==> Serves(hash, nodes, children[i])
  }

  /** The value stored under a key, if present nodes lead to it. */
  function Lookup(hash: Hash, nodes: Nodes, t: Tree, key: seq<nibble>): Option<seq<byte>>
    decreases t
  {
    match t
    case Empty => None
    case Short(path, value) => if key == path then Some(value) else None
    case Extension(path, child) =>
      if path <= key && Present(hash, nodes, child) then Lookup(hash, nodes, child, key[|path|..]) else None
    case Branch(children) =>
      if key != [] && key[0] < |children| && Present(hash, nodes, children[key[0]])
      then Lookup(hash, nodes, children[key[0]], key[1..])
      else None
  }

  /** The leaves a walk reports, in slot order. */
  ghost function Reported(hash: Hash, nodes: Nodes, t: Tree, prefix: seq<nibble>): seq<Leaf>
    decreases t, 0
  {
    match t
    case Empty => []
    case Short(path, value) => [Leaf(prefix + path, value)]
    case Extension(path, child) =>
      if Present(hash, nodes, child) then Reported(hash, nodes, child, prefix + path) else []
    case Branch(children) => ReportedFrom(hash, nodes, children, 0, prefix)
  }

  ghost function ReportedFrom(hash: Hash, nodes: Nodes, children: seq<Tree>, k: nat, prefix: seq<nibble>): seq<Leaf>
    requires k <= |children|
    decreases children, |children| - k
  {
    if k == |children| || k >= WIDTH then []
    else (if children[k] != Empty && Present(hash, nodes, children[k]) then Reported(hash, nodes, children[k], prefix + [k]) else [])
         + ReportedFrom(hash, nodes, children, k + 1, prefix)
  }

  /** Every extension on the way has its child behind a hash. */
  ghost predicate HashedExtensions(hash: Hash, nodes: Nodes, t: Tree) {
    match t
    case Empty => true
    case Short(_, _) => true
    case Extension(_, child) => !Embedded(hash, child) && (Present(hash, nodes, child) ==> HashedExtensions(hash, nodes, child))
    case Branch(children) =>
      forall i :: 0 <= i < |children| && children[i] != Empty && Present(hash, nodes, children[i]) ==> HashedExtensions(hash, nodes, children[i])
  }

  ghost function Height(t: Tree): nat
    decreases t, 0
  {
    match t
    case Empty => 1
    case Short(_, _) => 1
    case Extension(_, child) => 1 + Height(child)
    case Branch(children) => 1 + HeightFrom(children, 0)
  }

  ghost function HeightFrom(children: seq<Tree>, k: nat): nat
    requires k <= |children|
    decreases children, |children| - k
  {
    if k == |children| then 0
    else if Height(children[k]) > HeightFrom(children, k + 1) then Height(children[k]) else HeightFrom(children, k + 1)
  }

  // ---------- Sizes ----------

  lemma HeadSize(list: bool, n: nat)
    requires n < U64
    ensures 1 <= |EncodeHead(list, n)| <= 9 && (n < 56 ==> |EncodeHead(list, n)| == 1)
  {
    PowersOfWidths();
    CompactRoundTrip(n, 8);
  }

  lemma StringSize(s: seq<byte>)
    requires |s| < U32
    ensures 1 <= |StringOf(s)| <= |s| + 9 && |StringOf(s)| >= |s|
    ensures |s| == HASH ==> StringOf(s) == [0xA0] + s
  {
    hide EncodeHead;
    HeadSize(false, |s|);
    if |s| == HASH { HashHead(); }
  }

  lemma HashHead()
    ensures EncodeHead(false, HASH) == [0xA0]
  {
  }

  lemma PathSize(path: seq<nibble>, leaf: bool)
    requires |path| <= Hex.PATH_LIMIT
    ensures 1 <= |Hex.Encode(path, leaf)| <= 33
  {
    hide Hex.Encode;
  }

  lemma ReferenceSize(hash: Hash, t: Tree, depth: nat)
    requires HashSize(hash) && Keyed(t, depth)
    ensures 1 <= |Reference(hash, t)| <= 33
    decreases t, 2
  {
    hide Payload, ListOf;
    if t != Empty {
      if Embedded(hash, t) {
        EncodeIsList(hash, t, depth);
      } else {
        StringSize(hash(Encode(hash, t)));
      }
    }
  }

  lemma {:induction false} ReferencesSize(hash: Hash, children: seq<Tree>, k: nat, depth: nat)
    requires HashSize(hash) && k <= |children| && forall i :: 0 <= i < |children| ==> Keyed(children[i], depth)
    ensures |References(hash, children, k)| <= 33 * (|children| - k)
    decreases children, |children| - k
  {
    hide Reference, Keyed;
    if k < |children| {
      ReferenceSize(hash, children[k], depth);
      ReferencesSize(hash, children, k + 1, depth);
    }
  }

  lemma PayloadSize(hash: Hash, t: Tree, depth: nat)
    requires HashSize(hash) && Keyed(t, depth) && t != Empty
    ensures 1 <= |Payload(hash, t)| < U64
    decreases t, 0
  {
    hide Reference, References, Hex.Encode, StringOf;
    match t
    case Short(path, value) =>
      PathSize(path, true);
      StringSize(Hex.Encode(path, true));
      StringSize(value);
    case Extension(path, child) =>
      PathSize(path, false);
      StringSize(Hex.Encode(path, false));
      ReferenceSize(hash, child, depth + |path|);
    case Branch(children) =>
      ReferencesSize(hash, children, 0, depth + 1);
  }

  /** A node is one list item around its payload. */
  lemma EncodeIsList(hash: Hash, t: Tree, depth: nat)
    requires HashSize(hash) && Keyed(t, depth) && t != Empty
    ensures 1 <= |Payload(hash, t)| < U64 && Encode(hash, t) == EncodeHead(true, |Payload(hash, t)|) + Payload(hash, t)
    ensures |Encode(hash, t)| >= 2
    decreases t, 1
  {
    hide Payload, EncodeHead;
    PayloadSize(hash, t, depth);
    HeadSize(true, |Payload(hash, t)|);
  }

  lemma NodeHead(hash: Hash, t: Tree, depth: nat, rest: seq<byte>)
    requires HashSize(hash) && Keyed(t, depth) && t != Empty
    ensures var n := |Payload(hash, t)|;
            && n > 0 && |Encode(hash, t)| > n
            && Head(Encode(hash, t) + rest) == Some(Item(true, |Encode(hash, t)| - n, n))
            && Encode(hash, t)[|Encode(hash, t)| - n..] == Payload(hash, t)
  {
    hide Payload, EncodeHead, Head, Encode;
    EncodeIsList(hash, t, depth);
    var payload := Payload(hash, t);
    HeadOfEncoding(true, |payload|, payload + rest);
    HeadSize(true, |payload|);
    assert Encode(hash, t) + rest == EncodeHead(true, |payload|) + (payload + rest);
  }

  // ---------- Branches decode ----------

  /** The form a walker keeps of a reference. */
  ghost function Form(hash: Hash, t: Tree): seq<byte> {
    if t == Empty then [] else if Embedded(hash, t) then Encode(hash, t) else hash(Encode(hash, t))
  }

  lemma EmbeddedChild(hash: Hash, t: Tree, depth: nat, rest: seq<byte>)
    requires HashSize(hash) && Keyed(t, depth) && t != Empty && Embedded(hash, t)
    ensures DecodeChild(Encode(hash, t) + rest) == Ok(Children([Encode(hash, t)], rest))
  {
    hide Payload, Head, Encode, ListOf;
    var x, payload := Encode(hash, t), Payload(hash, t);
    EncodeIsList(hash, t, depth);
    NodeHead(hash, t, depth, rest);
    ShortHead(|payload|, |x|);
    assert x == [x[0]] + payload;
    assert (x + rest)[1..][..|payload|] == payload && (x + rest)[1..][|payload|..] == rest;
  }

  /** A list of less than 32 bytes has a one-byte head. */
  lemma ShortHead(n: nat, size: nat)
    requires n < U64 && size == |EncodeHead(true, n)| + n < HASH
    ensures EncodeHead(true, n) == [0xC0 + n] && n < 31
  {
  }

  lemma HashedChild(h: seq<byte>, rest: seq<byte>)
    requires |h| == HASH
    ensures DecodeChild(StringOf(h) + rest) == Ok(Children([h], rest))
  {
    hide Head, EncodeBytes;
    StringSize(h);
    HeadOfString(h, rest);
    var x := StringOf(h) + rest;
    assert x[1..][..HASH] == h && x[1..][HASH..] == rest;
  }

  lemma EmptyChild(rest: seq<byte>)
    ensures DecodeChild([0x80] + rest) == Ok(Children([[]], rest))
  {
  }

  /** Each reference is read back as the form of its child. */
  lemma ChildDecodes(hash: Hash, t: Tree, depth: nat, rest: seq<byte>)
    requires HashSize(hash) && Keyed(t, depth)
    ensures DecodeChild(Reference(hash, t) + rest) == Ok(Children([Form(hash, t)], rest))
  {
    hide Encode, DecodeChild, StringOf;
    if t == Empty {
      EmptyChild(rest);
    } else if Embedded(hash, t) {
      EmbeddedChild(hash, t, depth, rest);
    } else {
      HashedChild(hash(Encode(hash, t)), rest);
    }
  }

  ghost function Forms(hash: Hash, children: seq<Tree>, k: nat): (forms: seq<seq<byte>>)
    requires k <= |children|
    ensures |forms| == |children| - k
    ensures forall i :: k <= i < |children| ==> forms[i - k] == Form(hash, children[i])
    decreases |children| - k
  {
    if k == |children| then [] else [Form(hash, children[k])] + Forms(hash, children, k + 1)
  }

  lemma {:induction false} ChildrenDecode(hash: Hash, children: seq<Tree>, k: nat, depth: nat, rest: seq<byte>)
    requires HashSize(hash) && k <= |children| && forall i :: 0 <= i < |children| ==> Keyed(children[i], depth)
    ensures DecodeChildren(References(hash, children, k) + rest, |children| - k) == Ok(Children(Forms(hash, children, k), rest))
    decreases |children| - k
  {
    hide Reference, Keyed, DecodeChild, Form;
    if k < |children| {
      var more := References(hash, children, k + 1);
      ChildDecodes(hash, children[k], depth, more + rest);
      assert References(hash, children, k) + rest == Reference(hash, children[k]) + (more + rest);
      ChildrenDecode(hash, children, k + 1, depth, rest);
    } else {
      assert [] + rest == rest;
    }
  }

  lemma BranchDecodes(hash: Hash, children: seq<Tree>, depth: nat)
    requires HashSize(hash) && |children| == WIDTH && forall i :: 0 <= i < WIDTH ==> Keyed(children[i], depth)
    ensures DecodedBranch(Payload(hash, Branch(children))) == Ok(Forms(hash, children, 0))
  {
    hide References, DecodeChildren, Forms, Keyed;
    ChildrenDecode(hash, children, 0, depth, [0x80]);
  }

  // ---------- Short nodes decode ----------

  lemma PathDecodes(path: seq<nibble>, leaf: bool, second: seq<byte>)
    requires |path| <= Hex.PATH_LIMIT
    ensures DecodedShort(StringOf(Hex.Encode(path, leaf)) + second) == DecodeSecond(Hex.Path(leaf, path), second)
  {
    hide Head, Hex.Encode, DecodeSecond, EncodeBytes;
    var hp := Hex.Encode(path, leaf);
    PathSize(path, leaf);
    Hex.DecodeInverts(path, leaf);
    HeadOfString(hp, second);
    var first := StringOf(hp);
    assert (first + second)[|first| - |hp|..|first|] == hp && (first + second)[|first|..] == second;
  }

  lemma StringSecond(path: Hex.Path, s: seq<byte>)
    requires |s| < U32 && (path.leaf || |s| == HASH)
    ensures DecodeSecond(path, StringOf(s)) == Ok(TrieNodes.Short(path, s))
  {
    hide Head, EncodeBytes;
    HeadOfString(s, []);
    var x := StringOf(s);
    assert x + [] == x;
    assert x[|x| - |s|..|x|] == s;
  }

  /** The second element's header covers it, whichever of the three it is. */
  lemma SecondHead(hash: Hash, t: Tree, depth: nat)
    requires HashSize(hash) && Keyed(t, depth) && t != Empty
    ensures var x := Reference(hash, t); x != [] && Head(x).Some? && Head(x).value.Len() == |x|
    ensures Embedded(hash, t) ==> Head(Reference(hash, t)).value.list
  {
    hide Head, Encode, Payload, EncodeBytes;
    ReferenceSize(hash, t, depth);
    if Embedded(hash, t) {
      NodeHead(hash, t, depth, []);
      assert Encode(hash, t) + [] == Encode(hash, t);
    } else {
      HeadOfString(hash(Encode(hash, t)), []);
      var x := StringOf(hash(Encode(hash, t)));
      assert x + [] == x;
    }
  }

  lemma PathIsNoBranch(path: seq<nibble>, leaf: bool, second: seq<byte>, h: Item)
    requires |path| <= Hex.PATH_LIMIT && second != [] && Head(second) == Some(h) && h.Len() == |second|
    ensures DecodedBranch(StringOf(Hex.Encode(path, leaf)) + second).Err?
  {
    hide Head, Hex.Encode, DecodedBranch, EncodeBytes;
    var hp := Hex.Encode(path, leaf);
    PathSize(path, leaf);
    StringSize(hp);
    HeadOfString(hp, second);
    ShortIsNoBranch(StringOf(hp), Head(StringOf(hp) + second).value, second, h);
  }

  // ---------- The walk finds the leaves ----------

  /** The walk of a tree ends well exactly when no extension on the way has an embedded child, and then reports its leaves. */
  ghost predicate Finds(w: Walked, clean: bool, leaves: seq<Leaf>) {
    (w.status == if clean then Done else Failed) && (clean ==> w.leaves == leaves)
  }

  lemma {:induction false} WalkFinds(hash: Hash, nodes: Nodes, t: Tree, prefix: seq<nibble>, fuel: nat)
    requires HashSize(hash) && t != Empty && Keyed(t, |prefix|) && Serves(hash, nodes, t) && fuel >= Height(t)
    ensures Finds(Walk(nodes, Encode(hash, t), prefix, fuel), HashedExtensions(hash, nodes, t), Reported(hash, nodes, t, prefix))
    decreases t, 1
  {
    hide Head, Encode, Payload, DecodedBranch, DecodedShort, WalkBranch, WalkShort, Serves, Forms, HeightFrom;
    NodeOpens(hash, nodes, t, prefix, fuel);
    match t
    case Short(path, value) =>
      LeafOpens(hash, t, |prefix|);
      LeafWalks(nodes, path, value, prefix, fuel - 1);
    case Extension(path, child) =>
      ExtensionOpens(hash, t, |prefix|);
      if !Embedded(hash, child) {
        ServesChild(hash, nodes, t);
        RefFinds(hash, nodes, child, prefix + path, fuel - 1);
        ExtensionWalks(nodes, path, hash(Encode(hash, child)), prefix, fuel - 1);
      }
    case Branch(children) =>
      BranchDecodes(hash, children, |prefix| + 1);
      ServesChildren(hash, nodes, children);
      BranchFinds(hash, nodes, children, 0, prefix, fuel - 1);
  }

  /** Opening a node's encoding gives its payload. */
  lemma NodeOpens(hash: Hash, nodes: Nodes, t: Tree, prefix: seq<nibble>, fuel: nat)
    requires HashSize(hash) && t != Empty && Keyed(t, |prefix|) && fuel > 0
    ensures Walk(nodes, Encode(hash, t), prefix, fuel) ==
      match DecodedBranch(Payload(hash, t))
      case Panic => Walked(Panicked, [])
      case Ok(forms) => WalkBranch(nodes, forms, 0, prefix, fuel - 1)
      case Err =>
        (match DecodedShort(Payload(hash, t))
         case Panic => Walked(Panicked, [])
         case Err => Walked(Failed, [])
         case Ok(short) => WalkShort(nodes, short, prefix, fuel - 1))
  {
    hide Head, Encode, Payload, DecodedBranch, DecodedShort, WalkBranch, WalkShort;
    NodeHead(hash, t, |prefix|, []);
    var x := Encode(hash, t);
    assert x + [] == x;
    assert x[|x| - |Payload(hash, t)|..|x|] == Payload(hash, t);
  }

  lemma LeafOpens(hash: Hash, t: Tree, depth: nat)
    requires t.Short? && Keyed(t, depth)
    ensures DecodedBranch(Payload(hash, t)).Err?
    ensures DecodedShort(Payload(hash, t)) == Ok(TrieNodes.Short(Hex.Path(true, t.path), t.value))
  {
    hide Head, Hex.Encode, DecodedBranch, DecodedShort, EncodeBytes;
    StringSize(t.value);
    HeadOfString(t.value, []);
    assert StringOf(t.value) + [] == StringOf(t.value);
    PathIsNoBranch(t.path, true, StringOf(t.value), Head(StringOf(t.value)).value);
    PathDecodes(t.path, true, StringOf(t.value));
    StringSecond(Hex.Path(true, t.path), t.value);
  }

  lemma ExtensionOpens(hash: Hash, t: Tree, depth: nat)
    requires t.Extension? && Keyed(t, depth) && HashSize(hash)
    ensures DecodedBranch(Payload(hash, t)).Err?
    ensures Embedded(hash, t.child) ==> DecodedShort(Payload(hash, t)).Err?
    ensures !Embedded(hash, t.child) ==>
      DecodedShort(Payload(hash, t)) == Ok(TrieNodes.Short(Hex.Path(false, t.path), hash(Encode(hash, t.child))))
  {
    hide Head, Hex.Encode, DecodedBranch, DecodedShort, Encode;
    var second := Reference(hash, t.child);
    SecondHead(hash, t.child, depth + |t.path|);
    PathIsNoBranch(t.path, false, second, Head(second).value);
    PathDecodes(t.path, false, second);
    if !Embedded(hash, t.child) {
      StringSecond(Hex.Path(false, t.path), hash(Encode(hash, t.child)));
    }
  }

  lemma LeafWalks(nodes: Nodes, path: seq<nibble>, value: seq<byte>, prefix: seq<nibble>, fuel: nat)
    requires |prefix| + |path| <= Hex.PATH_LIMIT
    ensures WalkShort(nodes, TrieNodes.Short(Hex.Path(true, path), value), prefix, fuel) == Walked(Done, [Leaf(prefix + path, value)])
  {
  }

  lemma ExtensionWalks(nodes: Nodes, path: seq<nibble>, h: seq<byte>, prefix: seq<nibble>, fuel: nat)
    requires |prefix| + |path| <= Hex.PATH_LIMIT
    ensures WalkShort(nodes, TrieNodes.Short(Hex.Path(false, path), h), prefix, fuel) == WalkRef(nodes, h, prefix + path, fuel)
  {
    hide WalkRef;
  }

  lemma ServesChild(hash: Hash, nodes: Nodes, t: Tree)
    requires t.Extension? && Serves(hash, nodes, t)
    ensures Serves(hash, nodes, t.child)
  {
    hide Encode;
  }

  lemma ServesChildren(hash: Hash, nodes: Nodes, children: seq<Tree>)
    requires Serves(hash, nodes, Branch(children))
    ensures forall i :: 0 <= i < |children| ==> Serves(hash, nodes, children[i])
  {
    hide Encode;
  }

  /** A reference leads to its child if the child is present, and to nothing else. */
  lemma {:induction false} RefFinds(hash: Hash, nodes: Nodes, t: Tree, prefix: seq<nibble>, fuel: nat)
    requires HashSize(hash) && t != Empty && Keyed(t, |prefix|) && Serves(hash, nodes, t) && fuel >= Height(t)
    ensures var clean := Present(hash, nodes, t) ==> HashedExtensions(hash, nodes, t);
            var leaves := if Present(hash, nodes, t) then Reported(hash, nodes, t, prefix) else [];
            Finds(WalkRef(nodes, Form(hash, t), prefix, fuel), clean, leaves)
    ensures Form(hash, t) != []
    decreases t, 2
  {
    hide Encode, Walk, HashedExtensions, Reported, Keyed, Height;
    WalkFinds(hash, nodes, t, prefix, fuel);
    EncodeIsList(hash, t, |prefix|);
    ServesSelf(hash, nodes, t);
  }

  lemma ServesSelf(hash: Hash, nodes: Nodes, t: Tree)
    requires t != Empty && Serves(hash, nodes, t)
    ensures hash(Encode(hash, t)) in nodes ==> nodes[hash(Encode(hash, t))] == Encode(hash, t)
  {
    hide Encode;
  }

  ghost predicate CleanFrom(hash: Hash, nodes: Nodes, children: seq<Tree>, k: nat) {
    forall i :: k <= i < |children| && children[i] != Empty && Present(hash, nodes, children[i]) ==> HashedExtensions(hash, nodes, children[i])
  }

  lemma CleanStep(hash: Hash, nodes: Nodes, children: seq<Tree>, k: nat)
    requires k < |children|
    ensures CleanFrom(hash, nodes, children, k) <==>
      CleanFrom(hash, nodes, children, k + 1)
      && (children[k] != Empty && Present(hash, nodes, children[k]) ==> HashedExtensions(hash, nodes, children[k]))
  {
    hide Present, HashedExtensions;
  }

  lemma {:induction false} HeightBounds(children: seq<Tree>, k: nat, i: nat)
    requires k <= i < |children|
    ensures Height(children[i]) <= HeightFrom(children, k)
    decreases i - k
  {
    hide Height;
    if k < i { HeightBounds(children, k + 1, i); }
  }

  lemma {:induction false} BranchFinds(hash: Hash, nodes: Nodes, children: seq<Tree>, k: nat, prefix: seq<nibble>, fuel: nat)
    requires HashSize(hash) && |children| == WIDTH && k <= WIDTH && |prefix| < Hex.PATH_LIMIT
    requires forall i :: 0 <= i < WIDTH ==> Keyed(children[i], |prefix| + 1) && Serves(hash, nodes, children[i])
    requires fuel >= HeightFrom(children, 0)
    ensures Finds(WalkBranch(nodes, Forms(hash, children, 0), k, prefix, fuel), CleanFrom(hash, nodes, children, k),
                  ReportedFrom(hash, nodes, children, k, prefix))
    decreases children, WIDTH - k
  {
    hide Keyed, Serves, WalkRef, Present, HashedExtensions, Reported, HeightFrom, CleanFrom, Form;
    if k == WIDTH {
      AllClean(hash, nodes, children);
    } else {
      BranchFinds(hash, nodes, children, k + 1, prefix, fuel);
      CleanStep(hash, nodes, children, k);
      if children[k] == Empty {
        EmptyForm(hash);
      } else {
        HeightBounds(children, 0, k);
        RefFinds(hash, nodes, children[k], prefix + [k], fuel);
      }
    }
  }

  lemma AllClean(hash: Hash, nodes: Nodes, children: seq<Tree>)
    ensures CleanFrom(hash, nodes, children, |children|)
  {
  }

  lemma EmptyForm(hash: Hash)
    ensures Form(hash, Empty) == []
  {
  }

  // ---------- What the reported leaves are ----------

  /** Lexicographic order of paths of one length. */
  ghost predicate Before(a: seq<nibble>, b: seq<nibble>) {
    exists i :: 0 <= i < |a| && i < |b| && a[..i] == b[..i] && a[i] < b[i]
  }

  ghost predicate Ascending(leaves: seq<Leaf>) {
    forall i, j :: 0 <= i < j < |leaves| ==> Before(leaves[i].path, leaves[j].path)
  }

  ghost predicate Under(leaves: seq<Leaf>, prefix: seq<nibble>) {
    forall i :: 0 <= i < |leaves| ==> |leaves[i].path| == Hex.PATH_LIMIT && prefix <= leaves[i].path
  }

  lemma {:induction false} ReportedUnder(hash: Hash, nodes: Nodes, t: Tree, prefix: seq<nibble>)
    requires Keyed(t, |prefix|)
    ensures Under(Reported(hash, nodes, t, prefix), prefix)
    decreases t, 1
  {
    hide Present;
    match t
    case Empty =>
    case Short(_, _) =>
    case Extension(path, child) => ReportedUnder(hash, nodes, child, prefix + path);
    case Branch(children) => FromUnder(hash, nodes, children, 0, prefix);
  }

  lemma {:induction false} FromUnder(hash: Hash, nodes: Nodes, children: seq<Tree>, k: nat, prefix: seq<nibble>)
    requires |children| == WIDTH && k <= WIDTH && forall i :: 0 <= i < WIDTH ==> Keyed(children[i], |prefix| + 1)
    ensures Under(ReportedFrom(hash, nodes, children, k, prefix), prefix)
    decreases children, WIDTH - k
  {
    hide Present, Keyed;
    if k < WIDTH {
      ReportedUnder(hash, nodes, children[k], prefix + [k]);
      FromUnder(hash, nodes, children, k + 1, prefix);
    }
  }

  /** The leaves of later slots are not under an earlier slot. */
  ghost predicate FromSlot(leaves: seq<Leaf>, prefix: seq<nibble>, k: nat) {
    forall i :: 0 <= i < |leaves| ==> |leaves[i].path| > |prefix| && prefix <= leaves[i].path && leaves[i].path[|prefix|] >= k
  }

  lemma {:induction false} FromSlots(hash: Hash, nodes: Nodes, children: seq<Tree>, k: nat, prefix: seq<nibble>)
    requires |children| == WIDTH && k <= WIDTH && forall i :: 0 <= i < WIDTH ==> Keyed(children[i], |prefix| + 1)
    ensures FromSlot(ReportedFrom(hash, nodes, children, k, prefix), prefix, k)
    decreases WIDTH - k
  {
    hide Present, Keyed, Reported;
    if k < WIDTH {
      ReportedUnder(hash, nodes, children[k], prefix + [k]);
      FromSlots(hash, nodes, children, k + 1, prefix);
    }
  }

  lemma SlotBefore(a: seq<nibble>, b: seq<nibble>, prefix: seq<nibble>, k: nibble)
    requires prefix + [k] <= a && |b| > |prefix| && prefix <= b && b[|prefix|] > k
    ensures Before(a, b)
  {
    var i := |prefix|;
    assert a[..i] == prefix == b[..i];
    assert a[i] == (prefix + [k])[i] == k;
  }

  /** The walk's order is the order of the keys, and no key comes twice. */
  lemma {:induction false} ReportedAscends(hash: Hash, nodes: Nodes, t: Tree, prefix: seq<nibble>)
    requires Keyed(t, |prefix|)
    ensures Ascending(Reported(hash, nodes, t, prefix))
    decreases t, 1
  {
    hide Present, Before;
    match t
    case Empty =>
    case Short(_, _) =>
    case Extension(path, child) => ReportedAscends(hash, nodes, child, prefix + path);
    case Branch(children) => FromAscends(hash, nodes, children, 0, prefix);
  }

  lemma {:induction false} FromAscends(hash: Hash, nodes: Nodes, children: seq<Tree>, k: nat, prefix: seq<nibble>)
    requires |children| == WIDTH && k <= WIDTH && forall i :: 0 <= i < WIDTH ==> Keyed(children[i], |prefix| + 1)
    ensures Ascending(ReportedFrom(hash, nodes, children, k, prefix))
    decreases children, WIDTH - k
  {
    hide Present, Keyed, Ascending, Reported, FromSlot, Under;
    if k == WIDTH {
      NoneAscend();
    } else {
      FromAscends(hash, nodes, children, k + 1, prefix);
      if children[k] != Empty && Present(hash, nodes, children[k]) {
        ReportedAscends(hash, nodes, children[k], prefix + [k]);
        ReportedUnder(hash, nodes, children[k], prefix + [k]);
        FromSlots(hash, nodes, children, k + 1, prefix);
        AscendingConcat(Reported(hash, nodes, children[k], prefix + [k]), ReportedFrom(hash, nodes, children, k + 1, prefix), prefix, k);
      } else {
        assert [] + ReportedFrom(hash, nodes, children, k + 1, prefix) == ReportedFrom(hash, nodes, children, k + 1, prefix);
      }
    }
  }

  lemma NoneAscend()
    ensures Ascending([])
  {
  }

  lemma AscendingConcat(first: seq<Leaf>, second: seq<Leaf>, prefix: seq<nibble>, k: nat)
    requires k < WIDTH && Ascending(first) && Ascending(second)
    requires Under(first, prefix + [k]) && FromSlot(second, prefix, k + 1)
    ensures Ascending(first + second)
  {
    hide Before;
    forall i, j | 0 <= i < |first| && 0 <= j < |second|
      ensures Before(first[i].path, second[j].path)
    {
      SlotBefore(first[i].path, second[j].path, prefix, k);
    }
  }

  lemma SamePath(prefix: seq<nibble>, a: seq<nibble>, b: seq<nibble>)
    ensures prefix + a == prefix + b <==> a == b
  {
    if prefix + a == prefix + b {
      assert a == (prefix + a)[|prefix|..] && b == (prefix + b)[|prefix|..];
    }
  }

  lemma Splits(prefix: seq<nibble>, path: seq<nibble>, key: seq<nibble>)
    ensures path <= key <==> prefix + path <= prefix + key
    ensures path <= key ==> prefix + key == prefix + path + key[|path|..]
  {
    if path <= key {
      assert key == path + key[|path|..];
    }
    if prefix + path <= prefix + key {
      assert |path| <= |key|;
      forall i | 0 <= i < |path|
        ensures path[i] == key[i]
      {
        assert (prefix + path)[|prefix| + i] == (prefix + key)[|prefix| + i];
      }
    }
  }

  /** A leaf is reported exactly for each key that present nodes lead to, with the value stored there. */
  lemma {:induction false} ReportedIsStored(hash: Hash, nodes: Nodes, t: Tree, prefix: seq<nibble>, key: seq<nibble>, value: seq<byte>)
    requires Keyed(t, |prefix|) && |prefix| + |key| == Hex.PATH_LIMIT
    ensures Leaf(prefix + key, value) in Reported(hash, nodes, t, prefix) <==> Lookup(hash, nodes, t, key) == Some(value)
    decreases t, 1
  {
    hide Present;
    match t
    case Empty =>
    case Short(path, _) => SamePath(prefix, key, path);
    case Extension(path, child) =>
      Splits(prefix, path, key);
      if Present(hash, nodes, child) {
        if path <= key {
          ReportedIsStored(hash, nodes, child, prefix + path, key[|path|..], value);
        } else {
          ReportedUnder(hash, nodes, child, prefix + path);
        }
      }
    case Branch(children) => FromIsStored(hash, nodes, children, 0, prefix, key, value);
  }

  lemma {:induction false} FromIsStored(hash: Hash, nodes: Nodes, children: seq<Tree>, k: nat, prefix: seq<nibble>, key: seq<nibble>, value: seq<byte>)
    requires |children| == WIDTH && k <= WIDTH && forall i :: 0 <= i < WIDTH ==> Keyed(children[i], |prefix| + 1)
    requires |prefix| + |key| == Hex.PATH_LIMIT && key != []
    ensures Leaf(prefix + key, value) in ReportedFrom(hash, nodes, children, k, prefix) <==>
      key[0] >= k && Lookup(hash, nodes, Branch(children), key) == Some(value)
    decreases children, WIDTH - k
  {
    hide Present, Keyed, Reported, Under;
    if k < WIDTH {
      FromIsStored(hash, nodes, children, k + 1, prefix, key, value);
      var here := Reported(hash, nodes, children[k], prefix + [k]);
      assert (prefix + key)[|prefix|] == key[0];
      if key[0] == k {
        assert prefix + key == prefix + [k] + key[1..];
        ReportedIsStored(hash, nodes, children[k], prefix + [k], key[1..], value);
        NothingInEmpty(hash, nodes, children[k], key[1..]);
      } else {
        ReportedUnder(hash, nodes, children[k], prefix + [k]);
        NotUnder(here, prefix, k, prefix + key, value);
      }
    }
  }

  lemma NothingInEmpty(hash: Hash, nodes: Nodes, t: Tree, key: seq<nibble>)
    ensures t == Empty ==> Lookup(hash, nodes, t, key).None?
  {
  }

  lemma NotUnder(leaves: seq<Leaf>, prefix: seq<nibble>, k: nibble, path: seq<nibble>, value: seq<byte>)
    requires Under(leaves, prefix + [k]) && |path| > |prefix| && path[|prefix|] != k
    ensures Leaf(path, value) !in leaves
  {
    assert forall i :: 0 <= i < |leaves| ==> leaves[i].path[|prefix|] == (prefix + [k])[|prefix|];
  }

  // ---------- The whole walk ----------

  function WalkFrom(nodes: Nodes, root: seq<byte>, emptyRoot: seq<byte>, fuel: nat): Walked {
    if root == emptyRoot || root == seq(HASH, _ => 0) || root !in nodes then Walked(Done, [])
    else Walk(nodes, nodes[root], [], fuel)
  }

  /** `for_each_leaf`. */
  method ForEachLeaf(nodes: Nodes, root: seq<byte>, emptyRoot: seq<byte>, fuel: nat) returns (r: Walked)
    ensures r == WalkFrom(nodes, root, emptyRoot, fuel)
    ensures forall hash: Hash, t: Tree ::
      HashSize(hash) && Keyed(t, 0) && Serves(hash, nodes, t) && fuel >= Height(t) && root == RootOf(hash, emptyRoot, t) ==>
      Reports(hash, nodes, emptyRoot, t, r)
  {
    hide Walk, Keyed, Serves, Height, RootOf, Reports, HashSize;
    forall hash: Hash, t: Tree |
      HashSize(hash) && Keyed(t, 0) && Serves(hash, nodes, t) && fuel >= Height(t) && root == RootOf(hash, emptyRoot, t)
    {
      WalkReportsStoredKeys(hash, nodes, t, emptyRoot, fuel);
    }
    if root == emptyRoot || root == seq(HASH, _ => 0) || root !in nodes { return Walked(Done, []); }
    var path := new nibble[Hex.PATH_LIMIT](_ => 0);
    assert path[..0] == [];
    r := WalkTree(nodes, nodes[root], path, 0, fuel);
  }

  ghost function RootOf(hash: Hash, emptyRoot: seq<byte>, t: Tree): seq<byte> {
    if t == Empty then emptyRoot else hash(Encode(hash, t))
  }

  /** The root is a node the walk can start from: not that of the empty tree, not all zeros, and present. */
  ghost predicate RootThere(nodes: Nodes, emptyRoot: seq<byte>, root: seq<byte>) {
    root in nodes && root != emptyRoot && !(|root| == 32 && forall i :: 0 <= i < 32 ==> root[i] == 0)
  }

  /**
    What a walk from the root of a tree comes to: it fails exactly if the root is there and an
    embedded extension child is on the way. Otherwise it reports each key that present nodes, the
    root among them, lead to, once, in ascending order, with its full path and its value.
    */
  ghost predicate Reports(hash: Hash, nodes: Nodes, emptyRoot: seq<byte>, t: Tree, w: Walked) {
    var there := RootThere(nodes, emptyRoot, RootOf(hash, emptyRoot, t));
    && w.status == (if there && !HashedExtensions(hash, nodes, t) then Failed else Done)
    && (w.status.Done? ==>
          && Ascending(w.leaves) && Under(w.leaves, [])
          && forall key: seq<nibble>, value: seq<byte> :: |key| == Hex.PATH_LIMIT ==>
               (Leaf(key, value) in w.leaves <==> there && Lookup(hash, nodes, t, key) == Some(value)))
  }

  lemma WalkReportsStoredKeys(hash: Hash, nodes: Nodes, t: Tree, emptyRoot: seq<byte>, fuel: nat)
    requires HashSize(hash) && Keyed(t, 0) && Serves(hash, nodes, t) && fuel >= Height(t)
    ensures Reports(hash, nodes, emptyRoot, t, WalkFrom(nodes, RootOf(hash, emptyRoot, t), emptyRoot, fuel))
  {
    hide Encode, Walk, HashedExtensions, Reported, Keyed, Height, Lookup, Ascending, Under;
    var root := RootOf(hash, emptyRoot, t);
    assert root == seq(HASH, _ => 0) <==> |root| == 32 && forall i :: 0 <= i < 32 ==> root[i] == 0;
    if RootThere(nodes, emptyRoot, root) {
      PresentReports(hash, nodes, t, fuel);
      ServesSelf(hash, nodes, t);
    } else {
      NoneAscend();
      NoneUnder();
    }
  }

  lemma NoneUnder()
    ensures Under([], [])
  {
  }

  lemma PresentReports(hash: Hash, nodes: Nodes, t: Tree, fuel: nat)
    requires HashSize(hash) && t != Empty && Keyed(t, 0) && Serves(hash, nodes, t) && fuel >= Height(t) && hash(Encode(hash, t)) in nodes
    ensures var w := Walk(nodes, Encode(hash, t), [], fuel);
            && w.status == (if HashedExtensions(hash, nodes, t) then Done else Failed)
            && (w.status.Done? ==>
                  && Ascending(w.leaves) && Under(w.leaves, [])
                  && forall key: seq<nibble>, value: seq<byte> :: |key| == Hex.PATH_LIMIT ==>
                       (Leaf(key, value) in w.leaves <==> Lookup(hash, nodes, t, key) == Some(value)))
  {
    hide Encode, Walk, HashedExtensions, Reported, Keyed, Height, Lookup, Ascending, Under;
    WalkFinds(hash, nodes, t, [], fuel);
    ReportedAscends(hash, nodes, t, []);
    ReportedUnder(hash, nodes, t, []);
    forall key: seq<nibble>, value: seq<byte> | |key| == Hex.PATH_LIMIT
      ensures Leaf(key, value) in Reported(hash, nodes, t, []) <==> Lookup(hash, nodes, t, key) == Some(value)
    {
      assert [] + key == key;
      ReportedIsStored(hash, nodes, t, [], key, value);
    }
  }

  // ---------- A tree the walk fails on ----------

  /** The leaf of a key that ends where its parent does. */
  function Stub(v: byte): Tree { Tree.Short([], [v]) }

  function TwoStubs(): (children: seq<Tree>)
    ensures |children| == WIDTH && children[0] == Stub(1) && children[1] == Stub(2)
    ensures forall i :: 2 <= i < WIDTH ==> children[i] == Empty
  {
    [Stub(1), Stub(2)] + seq(WIDTH - 2, _ => Empty)
  }

  /** Two keys that part in their last nibble: a branch small enough to stand in its extension. */
  function TwoKeys(): Tree {
    Extension(seq(Hex.PATH_LIMIT - 1, _ => 0), Branch(TwoStubs()))
  }

  lemma StubSize(hash: Hash, v: byte)
    requires v < 0x80
    ensures |Reference(hash, Stub(v))| == 3 && Stub(v) != Empty
  {
    assert Hex.Encode([], true) == [0x20];
    assert StringOf([0x20]) == [0x20] && StringOf([v]) == [v];
    assert Payload(hash, Stub(v)) == [0x20, v];
    assert Encode(hash, Stub(v)) == [0xC2, 0x20, v];
  }

  lemma {:induction false} EmptySlots(hash: Hash, children: seq<Tree>, k: nat)
    requires k <= |children| && forall i :: k <= i < |children| ==> children[i] == Empty
    ensures |References(hash, children, k)| == |children| - k
    decreases |children| - k
  {
    if k < |children| { EmptySlots(hash, children, k + 1); }
  }

  lemma StubsAreEmbedded(hash: Hash)
    ensures Embedded(hash, Branch(TwoStubs()))
  {
    hide Reference, TwoStubs, Stub;
    var children := TwoStubs();
    StubSize(hash, 1);
    StubSize(hash, 2);
    EmptySlots(hash, children, 2);
    assert |References(hash, children, 1)| == 3 + |References(hash, children, 2)|;
    assert |References(hash, children, 0)| == 3 + |References(hash, children, 1)|;
  }

  /** The walk fails on this tree, whatever the hash and the node map. */
  lemma TwoKeysFail(hash: Hash, nodes: Nodes, fuel: nat)
    requires HashSize(hash) && Serves(hash, nodes, TwoKeys()) && fuel >= Height(TwoKeys())
    ensures Keyed(TwoKeys(), 0) && Embedded(hash, TwoKeys().child)
    ensures Walk(nodes, Encode(hash, TwoKeys()), [], fuel).status == Failed
  {
    hide Encode, Walk, Serves, Height, TwoStubs;
    StubsAreEmbedded(hash);
    assert Keyed(TwoKeys(), 0);
    WalkFinds(hash, nodes, TwoKeys(), [], fuel);
  }
}
