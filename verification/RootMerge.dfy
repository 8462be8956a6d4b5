/**
  The account updates of `check_root` (zilk_core/dev/state_transition.cpp): the created accounts
  sorted by hash, merged with the sorted accounts of the witness. A hash is the number its
  thirty-two bytes spell, which is the order `memcmp` gives.
  */
module RootMerge {
  import opened Basics
  import opened Sorting

  datatype Account = Account(hash: nat, deleted: bool, modified: bool)

  ghost predicate Ascending(s: seq<Account>) {
    forall i, j :: 0 <= i < j < |s| ==> s[i].hash <= s[j].hash
  }

  ghost predicate StrictlyAscending(s: seq<Account>) {
    forall i, j :: 0 <= i < j < |s| ==> s[i].hash < s[j].hash
  }

  // ---------- The sort ----------

  /** Moving element `j - 1` up over the hole at `j` keeps the elements, the key in the hole counted. */
  lemma ShiftKeeps(s: seq<Account>, j: nat, key: Account)
    requires 0 < j < |s|
    ensures multiset(s[j := s[j - 1]][j - 1 := key]) == multiset(s[j := key])
  {
    var a, b := s[j := key], s[j := s[j - 1]][j - 1 := key];
    assert a == s[..j - 1] + [s[j - 1], key] + s[j + 1..];
    assert b == s[..j - 1] + [key, s[j - 1]] + s[j + 1..];
    assert multiset([s[j - 1], key]) == multiset([key, s[j - 1]]);
  }

  /** The elements up to `i`, a hole at `j` for the key: sorted without the hole, the key below all that moved up. */
  ghost predicate Holed(s: seq<Account>, i: nat, j: nat, key: Account, all: multiset<Account>) {
    && j <= i < |s| && multiset(s[j := key]) == all
    && (forall x, y :: 0 <= x < y <= i && x != j && y != j ==> s[x].hash <= s[y].hash)
    && (forall x :: j < x <= i ==> key.hash < s[x].hash)
  }

  lemma HoleOpens(s: seq<Account>, i: nat)
    requires i < |s| && Ascending(s[..i])
    ensures Holed(s, i, i, s[i], multiset(s))
  {
    assert s[i := s[i]] == s;
    forall x, y | 0 <= x < y < i
      ensures s[x].hash <= s[y].hash
    {
      assert s[..i][x].hash <= s[..i][y].hash;
    }
  }

  lemma HoleMoves(s: seq<Account>, i: nat, j: nat, key: Account, all: multiset<Account>)
    requires Holed(s, i, j, key, all) && 0 < j && key.hash < s[j - 1].hash
    ensures Holed(s[j := s[j - 1]], i, j - 1, key, all)
  {
    ShiftKeeps(s, j, key);
  }

  lemma HoleFills(s: seq<Account>, i: nat, j: nat, key: Account, all: multiset<Account>)
    requires Holed(s, i, j, key, all) && (j > 0 ==> s[j - 1].hash <= key.hash)
    ensures Ascending(s[j := key][..i + 1]) && multiset(s[j := key]) == all
  {
    var t := s[j := key];
    forall x, y | 0 <= x < y < i + 1
      ensures t[x].hash <= t[y].hash
    {
      if y == j && x < j - 1 { assert s[x].hash <= s[j - 1].hash; }
    }
  }

  /** Element `i` into the sorted elements before it. */
  method SinkIn(data: array<Account>, i: nat)
    requires i < data.Length && Ascending(data[..i])
    modifies data
    ensures Ascending(data[..i + 1]) && multiset(data[..]) == multiset(old(data[..]))
  {
    hide Holed, Ascending;
    ghost var all := multiset(data[..]);
    var key := data[i];
    var j := i;
    assert data[..][..i] == data[..i];
    HoleOpens(data[..], i);
    while j > 0 && key.hash < data[j - 1].hash
      invariant 0 <= j <= i && Holed(data[..], i, j, key, all)
    {
      ghost var before := data[..];
      HoleMoves(before, i, j, key, all);
      data[j] := data[j - 1];
      assert data[..] == before[j := before[j - 1]];
      j := j - 1;
    }
    ghost var before := data[..];
    HoleFills(before, i, j, key, all);
    data[j] := key;
    assert data[..] == before[j := key] && data[..i + 1] == data[..][..i + 1];
  }

  /** The insertion sort of up to sixteen created accounts. */
  method InsertionSort(data: array<Account>)
    requires data.Length > 0
    modifies data
    ensures Ascending(data[..]) && multiset(data[..]) == multiset(old(data[..]))
  {
    var i := 1;
    while i < data.Length
      invariant 1 <= i <= data.Length && Ascending(data[..i]) && multiset(data[..]) == multiset(old(data[..]))
    {
      SinkIn(data, i);
      i := i + 1;
    }
    assert data[..data.Length] == data[..];
  }

  /** The created accounts in hash order, by whichever sort their number calls for. */
  method SortCreated(created: seq<Account>) returns (r: seq<Account>)
    ensures Ascending(r) && multiset(r) == multiset(created)
  {
    if |created| <= 1 { return created; }
    if |created| <= 16 {
      var data := new Account[|created|](i requires 0 <= i < |created| => created[i]);
      assert data[..] == created;
      InsertionSort(data);
      r := data[..];
    } else {
      var key := (a: Account) => a.hash as int;
      r := SortBy(created, key);
    }
  }

  // ---------- The merge ----------

  /** A leaf deletion, a claim that no leaf is there, a leaf read and kept, or a leaf written. */
  datatype Kind = Delete | ClaimAbsent | Keep | Write

  datatype Update = Update(hash: nat, kind: Kind)

  function UpdateFor(a: Account, existing: bool): Update {
    if a.deleted then Update(a.hash, if existing then Delete else ClaimAbsent)
    else Update(a.hash, if existing && !a.modified then Keep else Write)
  }

  function UpdatesFor(s: seq<Account>, existing: bool): (r: seq<Update>)
    ensures |r| == |s| && forall i :: 0 <= i < |s| ==> r[i] == UpdateFor(s[i], existing)
  {
    seq(|s|, i requires 0 <= i < |s| => UpdateFor(s[i], existing))
  }

  ghost predicate Shared(existing: seq<Account>, created: seq<Account>, i: nat, j: nat) {
    i < |existing| && j < |created| && existing[i].hash == created[j].hash
  }

  /** In hash order, strictly if the hashes of each side are distinct. */
  ghost predicate InOrder(out: seq<Update>, strict: bool) {
    forall x, y :: 0 <= x < y < |out| ==> Below(out[x].hash, out[y].hash, strict)
  }

  ghost predicate Below(a: nat, b: nat, strict: bool) { if strict then a < b else a <= b }

  ghost predicate Distinct(existing: seq<Account>, created: seq<Account>) {
    StrictlyAscending(existing) && StrictlyAscending(created)
  }

  /** How the merge ends: a shared hash, a storage walk that failed, or the updates. */
  datatype Outcome = Clash | WalkFailed | Merged(updates: seq<Update>)

  /** Everything emitted so far, from both sides, and nothing above what is left. */
  ghost predicate Emitted(existing: seq<Account>, created: seq<Account>, i: nat, j: nat, out: seq<Update>) {
    && i <= |existing| && j <= |created|
    && multiset(out) == multiset(UpdatesFor(existing[..i], true)) + multiset(UpdatesFor(created[..j], false))
    && InOrder(out, Distinct(existing, created))
    && (forall x :: 0 <= x < |out| ==>
          && (i < |existing| ==> Below(out[x].hash, existing[i].hash, Distinct(existing, created)))
          && (j < |created| ==> Below(out[x].hash, created[j].hash, Distinct(existing, created))))
    && (forall x, y :: 0 <= x < |existing| && 0 <= y < |created| && (x < i || y < j) ==> existing[x].hash != created[y].hash)
  }

  lemma UpdatesAppend(s: seq<Account>, i: nat, existing: bool)
    requires i < |s|
    ensures multiset(UpdatesFor(s[..i + 1], existing)) == multiset(UpdatesFor(s[..i], existing)) + multiset{UpdateFor(s[i], existing)}
  {
    assert UpdatesFor(s[..i + 1], existing) == UpdatesFor(s[..i], existing) + [UpdateFor(s[i], existing)];
  }

  lemma TakeExisting(existing: seq<Account>, created: seq<Account>, i: nat, j: nat, out: seq<Update>)
    requires Emitted(existing, created, i, j, out) && Ascending(existing) && Ascending(created)
    requires i < |existing| && (j < |created| ==> existing[i].hash < created[j].hash)
    ensures Emitted(existing, created, i + 1, j, out + [UpdateFor(existing[i], true)])
  {
    hide UpdatesFor;
    UpdatesAppend(existing, i, true);
    assert multiset(out + [UpdateFor(existing[i], true)]) == multiset(out) + multiset{UpdateFor(existing[i], true)};
    forall x, y | 0 <= x < |existing| && 0 <= y < |created| && (x < i + 1 || y < j)
      ensures existing[x].hash != created[y].hash
    {
      if x == i && j < y { assert created[j].hash <= created[y].hash; }
    }
  }

  lemma TakeCreated(existing: seq<Account>, created: seq<Account>, i: nat, j: nat, out: seq<Update>)
    requires Emitted(existing, created, i, j, out) && Ascending(existing) && Ascending(created)
    requires j < |created| && (i < |existing| ==> created[j].hash < existing[i].hash)
    ensures Emitted(existing, created, i, j + 1, out + [UpdateFor(created[j], false)])
  {
    hide UpdatesFor;
    UpdatesAppend(created, j, false);
    assert multiset(out + [UpdateFor(created[j], false)]) == multiset(out) + multiset{UpdateFor(created[j], false)};
    forall x, y | 0 <= x < |existing| && 0 <= y < |created| && (x < i || y < j + 1)
      ensures existing[x].hash != created[y].hash
    {
      if y == j && i < x { assert existing[i].hash <= existing[x].hash; }
    }
  }

  /** The updates of a merge that went through. */
  ghost predicate Merges(existing: seq<Account>, created: seq<Account>, out: seq<Update>) {
    && multiset(out) == multiset(UpdatesFor(existing, true)) + multiset(UpdatesFor(created, false))
    && InOrder(out, Distinct(existing, created))
  }

  lemma EmittedAll(existing: seq<Account>, created: seq<Account>, out: seq<Update>)
    requires Emitted(existing, created, |existing|, |created|, out)
    ensures Merges(existing, created, out) && forall x: nat, y: nat :: !Shared(existing, created, x, y)
  {
    assert existing[..|existing|] == existing && created[..|created|] == created;
  }

  ghost predicate Any(s: seq<Account>, hash: nat, deleted: bool, modified: bool) {
    Account(hash, deleted, modified) in s
  }

  /**
    What each update stands for: an existing account that is gone, a created one that is gone, an
    existing one nobody changed, and an existing one changed or a created one alive.
    */
  ghost predicate Says(existing: seq<Account>, created: seq<Account>, updates: seq<Update>) {
    && (forall h :: Update(h, Delete) in updates <==> Any(existing, h, true, false) || Any(existing, h, true, true))
    && (forall h :: Update(h, ClaimAbsent) in updates <==> Any(created, h, true, false) || Any(created, h, true, true))
    && (forall h :: Update(h, Keep) in updates <==> Any(existing, h, false, false))
    && (forall h :: Update(h, Write) in updates <==> Any(existing, h, false, true) || Any(created, h, false, false) || Any(created, h, false, true))
  }

  lemma UpdateIn(s: seq<Account>, side: bool, u: Update)
    ensures u in UpdatesFor(s, side) <==> exists a :: a in s && UpdateFor(a, side) == u
  {
    hide UpdateFor;
    if a :| a in s && UpdateFor(a, side) == u {
      var i :| 0 <= i < |s| && s[i] == a;
      assert UpdatesFor(s, side)[i] == u;
    }
  }

  lemma UpdateOf(s: seq<Account>, side: bool, h: nat, kind: Kind)
    ensures Update(h, kind) in UpdatesFor(s, side) <==>
            match kind
            case Delete => side && (Any(s, h, true, false) || Any(s, h, true, true))
            case ClaimAbsent => !side && (Any(s, h, true, false) || Any(s, h, true, true))
            case Keep => side && Any(s, h, false, false)
            case Write => Any(s, h, false, true) || (!side && Any(s, h, false, false))
  {
    hide UpdatesFor;
    UpdateIn(s, side, Update(h, kind));
    assert forall a :: a in s && a.hash == h ==> Any(s, h, a.deleted, a.modified);
    assert forall deleted, modified :: Any(s, h, deleted, modified) ==> Account(h, deleted, modified) in s;
  }

  lemma SaysByKind(existing: seq<Account>, created: seq<Account>, updates: seq<Update>)
    requires multiset(updates) == multiset(UpdatesFor(existing, true)) + multiset(UpdatesFor(created, false))
    ensures Says(existing, created, updates)
  {
    hide UpdatesFor, Any;
    forall h: nat, kind: Kind
      ensures Update(h, kind) in updates <==>
              Update(h, kind) in UpdatesFor(existing, true) || Update(h, kind) in UpdatesFor(created, false)
      ensures Update(h, kind) in UpdatesFor(existing, true) || Update(h, kind) in UpdatesFor(created, false) <==>
              match kind
              case Delete => Any(existing, h, true, false) || Any(existing, h, true, true)
              case ClaimAbsent => Any(created, h, true, false) || Any(created, h, true, true)
              case Keep => Any(existing, h, false, false)
              case Write => Any(existing, h, false, true) || Any(created, h, false, false) || Any(created, h, false, true)
    {
      InEither(updates, UpdatesFor(existing, true), UpdatesFor(created, false), Update(h, kind));
      UpdateOf(existing, true, h, kind);
      UpdateOf(created, false, h, kind);
    }
  }

  lemma InEither<T>(s: seq<T>, a: seq<T>, b: seq<T>, x: T)
    requires multiset(s) == multiset(a) + multiset(b)
    ensures x in s <==> x in a || x in b
  {
    assert x in s <==> x in multiset(s);
    assert x in a <==> x in multiset(a);
    assert x in b <==> x in multiset(b);
  }

  /**
    The merge of `check_root`. It ends in the updates of all accounts of both sides in hash order
    (strictly, where each side's hashes are distinct), and never does so when the two sides share a hash; a clash is reported for a shared hash only.
    */
  method Merge(existing: seq<Account>, created: seq<Account>, walks: nat -> bool) returns (r: Outcome)
    requires Ascending(existing) && Ascending(created)
    ensures r.Merged? ==> Merges(existing, created, r.updates) && Says(existing, created, r.updates)
    ensures r.Merged? ==> forall x: nat, y: nat :: !Shared(existing, created, x, y)
    ensures r.Clash? ==> exists x: nat, y: nat :: Shared(existing, created, x, y)
    ensures r.WalkFailed? ==> exists a :: (a in existing || a in created) && !a.deleted && !walks(a.hash)
  {
    hide Emitted, Ascending, Merges, Says;
    var i: nat, j: nat := 0, 0;
    var out: seq<Update> := [];
    assert Emitted(existing, created, 0, 0, out) by { NothingEmitted(existing, created); }
    while i < |existing| || j < |created|
      invariant i <= |existing| && j <= |created| && Emitted(existing, created, i, j, out)
      decreases |existing| - i + |created| - j
    {
      if i < |existing| && j < |created| && existing[i].hash == created[j].hash {
        assert Shared(existing, created, i, j);
        return Clash;
      }
      var hasExisting := if j == |created| then true else if i == |existing| then false else existing[i].hash < created[j].hash;
      var a := if hasExisting then existing[i] else created[j];
      if !a.deleted && !walks(a.hash) { return WalkFailed; }
      if hasExisting {
        TakeExisting(existing, created, i, j, out);
        out, i := out + [UpdateFor(a, true)], i + 1;
      } else {
        TakeCreated(existing, created, i, j, out);
        out, j := out + [UpdateFor(a, false)], j + 1;
      }
    }
    EmittedAll(existing, created, out);
    SaysByKind(existing, created, out);
    r := Merged(out);
  }

  lemma NothingEmitted(existing: seq<Account>, created: seq<Account>)
    ensures Emitted(existing, created, 0, 0, [])
  {
    assert UpdatesFor(existing[..0], true) == [] && UpdatesFor(created[..0], false) == [];
  }

  // ---------- Sort and merge ----------

  lemma UpdatesJoin(a: seq<Account>, b: seq<Account>, existing: bool)
    ensures multiset(UpdatesFor(a + b, existing)) == multiset(UpdatesFor(a, existing)) + multiset(UpdatesFor(b, existing))
  {
    assert UpdatesFor(a + b, existing) == UpdatesFor(a, existing) + UpdatesFor(b, existing);
  }

  lemma {:induction false} PermutedUpdates(a: seq<Account>, b: seq<Account>, existing: bool)
    requires multiset(a) == multiset(b)
    ensures multiset(UpdatesFor(a, existing)) == multiset(UpdatesFor(b, existing))
  {
    hide UpdatesFor;
    if a == [] {
      assert |b| == |multiset(b)| == 0;
    } else {
      var k := TakeOut(a, b);
      PermutedUpdates(a[1..], b[..k] + b[k + 1..], existing);
      UpdatesJoin([a[0]], a[1..], existing);
      UpdatesJoin(b[..k], b[k + 1..], existing);
      UpdatesJoin(b[..k], [b[k]] + b[k + 1..], existing);
      UpdatesJoin([b[k]], b[k + 1..], existing);
      assert a == [a[0]] + a[1..] && b == b[..k] + ([b[k]] + b[k + 1..]);
    }
  }

  ghost predicate Distinctly(s: seq<Account>) {
    forall i, j :: 0 <= i < j < |s| ==> s[i].hash != s[j].hash
  }

  /** A permutation of accounts with distinct hashes has distinct hashes. */
  lemma {:induction false} StaysDistinct(a: seq<Account>, b: seq<Account>)
    requires multiset(a) == multiset(b) && Distinctly(b)
    ensures Distinctly(a)
  {
    if a != [] {
      var k := TakeOut(a, b);
      var rest := b[..k] + b[k + 1..];
      WithoutOne(b, k);
      StaysDistinct(a[1..], rest);
      forall j | 0 < j < |a|
        ensures a[j].hash != a[0].hash
      {
        assert a[j] == a[1..][j - 1];
        SameMembers(a[1..], rest, a[j]);
      }
    }
  }

  lemma WithoutOne(b: seq<Account>, k: nat)
    requires Distinctly(b) && k < |b|
    ensures Distinctly(b[..k] + b[k + 1..]) && forall x :: x in b[..k] + b[k + 1..] ==> x.hash != b[k].hash
  {
    var rest := b[..k] + b[k + 1..];
    assert forall l :: 0 <= l < |rest| ==> rest[l] == b[if l < k then l else l + 1];
  }

  /**
    What `check_root` makes of its accounts: the created ones sorted, then the merge. With every
    walk ending well, it reports a clash exactly if the two sides share a hash, and emits the
    update of each account once otherwise, in strictly ascending hash order where the hashes of
    each side are distinct.
    */
  method SortAndMerge(existing: seq<Account>, created: seq<Account>, walks: nat -> bool) returns (r: Outcome)
    requires Ascending(existing)
    ensures r.Merged? ==> multiset(r.updates) == multiset(UpdatesFor(existing, true)) + multiset(UpdatesFor(created, false))
    ensures r.Merged? ==> InOrder(r.updates, StrictlyAscending(existing) && Distinctly(created)) && Says(existing, created, r.updates)
    ensures r.Merged? ==> forall x: nat, y: nat :: !Shared(existing, created, x, y)
    ensures r.Clash? ==> exists x: nat, y: nat :: Shared(existing, created, x, y)
    ensures r.WalkFailed? ==> exists a :: (a in existing || a in created) && !a.deleted && !walks(a.hash)
  {
    hide Ascending, Distinctly, UpdatesFor, Says;
    var sorted := SortCreated(created);
    r := Merge(existing, sorted, walks);
    PermutedUpdates(sorted, created, false);
    if Distinctly(created) {
      StaysDistinct(sorted, created);
      SortedDistinct(sorted);
    }
    SharedSame(existing, sorted, created);
    forall a | a in sorted
      ensures a in created
    {
      SameMembers(sorted, created, a);
    }
    if r.Merged? {
      StillInOrder(r.updates, Distinct(existing, sorted), StrictlyAscending(existing) && Distinctly(created));
      SaysByKind(existing, created, r.updates);
    }
  }

  lemma SortedDistinct(s: seq<Account>)
    requires Ascending(s) && Distinctly(s)
    ensures StrictlyAscending(s)
  {
  }

  lemma StillInOrder(out: seq<Update>, strict: bool, strict': bool)
    requires InOrder(out, strict) && (strict' ==> strict)
    ensures InOrder(out, strict')
  {
  }

  lemma SharedSame(existing: seq<Account>, a: seq<Account>, b: seq<Account>)
    requires multiset(a) == multiset(b)
    ensures (exists x: nat, y: nat :: Shared(existing, a, x, y)) <==> (exists x: nat, y: nat :: Shared(existing, b, x, y))
  {
    SharedAlso(existing, a, b);
    SharedAlso(existing, b, a);
  }

  lemma SharedAlso(existing: seq<Account>, a: seq<Account>, b: seq<Account>)
    requires multiset(a) == multiset(b)
    ensures (exists x: nat, y: nat :: Shared(existing, a, x, y)) ==> (exists x: nat, y: nat :: Shared(existing, b, x, y))
  {
    if x: nat, y: nat :| Shared(existing, a, x, y) {
      SameMembers(a, b, a[y]);
      var z :| 0 <= z < |b| && b[z] == a[y];
      assert Shared(existing, b, x, z);
    }
  }

  // ---------- What the updates do to the state ----------

  /** The leaves after the updates, `current` the new values; none if a claim of absence fails. */
  function Applied<V>(leaves: map<nat, V>, updates: seq<Update>, current: nat -> V): Option<map<nat, V>>
    decreases |updates|
  {
    if updates == [] then Some(leaves)
    else
      var u := updates[0];
      match u.kind
      case Delete => Applied(leaves - {u.hash}, updates[1..], current)
      case ClaimAbsent => if u.hash in leaves then None else Applied(leaves, updates[1..], current)
      case Keep => Applied(leaves, updates[1..], current)
      case Write => Applied(leaves[u.hash := current(u.hash)], updates[1..], current)
  }

  ghost function Leaf<V>(leaves: map<nat, V>, h: nat): Option<V> { if h in leaves then Some(leaves[h]) else None }

  ghost predicate HashesDiffer(updates: seq<Update>) {
    forall i, j :: 0 <= i < j < |updates| ==> updates[i].hash != updates[j].hash
  }

  ghost predicate ClaimsHold<V>(leaves: map<nat, V>, updates: seq<Update>) {
    forall h :: Update(h, ClaimAbsent) in updates ==> h !in leaves
  }

  /** Each leaf afterwards, whatever the order of the updates. */
  lemma {:induction false} AppliedAt<V>(leaves: map<nat, V>, updates: seq<Update>, current: nat -> V, h: nat)
    requires HashesDiffer(updates)
    ensures Applied(leaves, updates, current).Some? <==> ClaimsHold(leaves, updates)
    ensures Applied(leaves, updates, current).Some? ==>
      Leaf(Applied(leaves, updates, current).value, h) ==
      if Update(h, Write) in updates then Some(current(h)) else if Update(h, Delete) in updates then None else Leaf(leaves, h)
    decreases |updates|
  {
    if updates != [] {
      var u, rest := updates[0], updates[1..];
      var next := match u.kind
        case Delete => leaves - {u.hash}
        case Write => leaves[u.hash := current(u.hash)]
        case _ => leaves;
      AppliedAt(next, rest, current, h);
      assert updates == [u] + rest;
      forall v | v in rest
        ensures v.hash != u.hash && (v.hash in next <==> v.hash in leaves)
      {
        var i :| 0 <= i < |rest| && rest[i] == v;
        assert updates[i + 1] == v;
      }
    }
  }

  /** An account has one update, and so one kind. */
  lemma OneKind(updates: seq<Update>, h: nat)
    requires HashesDiffer(updates)
    ensures forall k, l :: Update(h, k) in updates && Update(h, l) in updates ==> k == l
  {
  }

  lemma AccountLeaf<V>(existing: seq<Account>, created: seq<Account>, updates: seq<Update>, leaves: map<nat, V>, current: nat -> V, a: Account)
    requires Says(existing, created, updates) && HashesDiffer(updates) && Applied(leaves, updates, current).Some?
    ensures var leaf := Leaf(Applied(leaves, updates, current).value, a.hash);
            && (a in existing ==> leaf == if a.deleted then None else if a.modified then Some(current(a.hash)) else Leaf(leaves, a.hash))
            && (a in created ==> leaf == if a.deleted then None else Some(current(a.hash)))
  {
    hide Applied, HashesDiffer;
    var h := a.hash;
    AppliedAt(leaves, updates, current, h);
    OneKind(updates, h);
    assert a in existing ==> Any(existing, h, a.deleted, a.modified);
    assert a in created ==> Any(created, h, a.deleted, a.modified);
    assert Says(existing, created, updates);
  }

  lemma OtherLeaf<V>(existing: seq<Account>, created: seq<Account>, updates: seq<Update>, leaves: map<nat, V>, current: nat -> V, h: nat)
    requires Says(existing, created, updates) && HashesDiffer(updates) && Applied(leaves, updates, current).Some?
    requires forall a :: a in existing + created ==> a.hash != h
    ensures Leaf(Applied(leaves, updates, current).value, h) == Leaf(leaves, h)
  {
    hide Applied, HashesDiffer;
    AppliedAt(leaves, updates, current, h);
    forall deleted, modified
      ensures !Any(existing, h, deleted, modified) && !Any(created, h, deleted, modified)
    {
      var a := Account(h, deleted, modified);
      assert a !in existing + created;
    }
  }

  lemma ClaimsAre<V>(existing: seq<Account>, created: seq<Account>, updates: seq<Update>, leaves: map<nat, V>)
    requires Says(existing, created, updates)
    ensures ClaimsHold(leaves, updates) <==> forall a :: a in created && a.deleted ==> a.hash !in leaves
  {
    forall a | a in created && a.deleted
      ensures Update(a.hash, ClaimAbsent) in updates
    {
      assert Any(created, a.hash, true, a.modified);
    }
    forall h | Update(h, ClaimAbsent) in updates
      ensures exists a :: a in created && a.deleted && a.hash == h
    {
      var m := Any(created, h, true, true);
      assert Account(h, true, m) in created;
    }
  }

  /**
    The updates turn the leaves of the state before into those of the accounts: a live account
    that was changed or created gets its new value, one that is gone has no leaf, and every other
    leaf stays. They apply exactly if no created account that is gone has a leaf.
    */
  lemma UpdatesYieldState<V>(existing: seq<Account>, created: seq<Account>, updates: seq<Update>, leaves: map<nat, V>, current: nat -> V)
    requires Says(existing, created, updates) && InOrder(updates, true)
    ensures Applied(leaves, updates, current).Some? <==> forall a :: a in created && a.deleted ==> a.hash !in leaves
    ensures Applied(leaves, updates, current).Some? ==>
      var after := Applied(leaves, updates, current).value;
      && (forall a :: a in existing ==>
            Leaf(after, a.hash) == if a.deleted then None else if a.modified then Some(current(a.hash)) else Leaf(leaves, a.hash))
      && (forall a :: a in created ==> Leaf(after, a.hash) == if a.deleted then None else Some(current(a.hash)))
      && (forall h: nat :: (forall a :: a in existing + created ==> a.hash != h) ==> Leaf(after, h) == Leaf(leaves, h))
  {
    hide Says, Applied, Leaf;
    assert HashesDiffer(updates);
    ClaimsAre(existing, created, updates, leaves);
    AppliedAt(leaves, updates, current, 0);
    if Applied(leaves, updates, current).Some? {
      forall a: Account { AccountLeaf(existing, created, updates, leaves, current, a); }
      forall h: nat | forall a :: a in existing + created ==> a.hash != h { OtherLeaf(existing, created, updates, leaves, current, h); }
    }
  }
}
