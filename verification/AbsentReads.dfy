/**
  The distinct keys of a record's absent reads (`absent_read_keys` of
  zilk_core/dev/state_transition.cpp): the reads sorted by a fold of their keys, and keys compared
  within runs of equal folds only.
  */
module AbsentReads {
  import opened Bytes
  import opened Sorting

  type Key = seq<byte>

  /** A read, and one more than the number of the record's read before it; zero for none. */
  datatype Read = Read(key: Key, prev: nat)

  /** Reads are appended, so each links to an earlier one. */
  ghost predicate Linked(log: seq<Read>, head: nat) {
    && head <= |log| < U32
    && forall i :: 0 <= i < |log| ==> log[i].prev <= i
  }

  /** Read number `i` is on the list that starts at `head`. */
  ghost predicate OnList(log: seq<Read>, head: nat, i: nat)
    requires Linked(log, head)
  {
    head != 0 && (i == head - 1 || OnList(log, log[head - 1].prev, i))
  }

  // ---------- Packed entries ----------

  /** `fold << 32 | i`. */
  function Pack(fold: nat, i: nat): nat { fold * U32 + i }

  function Fold(x: nat): nat { x / U32 }
  function Number(x: nat): nat { x % U32 }

  lemma Unpacks(fold: nat, i: nat)
    requires i < U32
    ensures Fold(Pack(fold, i)) == fold && Number(Pack(fold, i)) == i
  {
  }

  /** Entries name reads, under the fold of their key. */
  ghost predicate Named(log: seq<Read>, fold: Key -> nat, order: seq<nat>) {
    forall j :: 0 <= j < |order| ==> Number(order[j]) < |log| && Fold(order[j]) == fold(log[Number(order[j])].key)
  }

  /** The list, packed. */
  method Collect(log: seq<Read>, head: nat, fold: Key -> nat) returns (order: seq<nat>)
    requires Linked(log, head)
    ensures Named(log, fold, order)
    ensures forall x :: x in order ==> OnList(log, head, Number(x))
    ensures forall i: nat :: OnList(log, head, i) ==> exists x :: x in order && Number(x) == i
  {
    hide Pack, Fold, Number;
    order := [];
    var i: nat := head;
    while i != 0
      invariant i <= head && Named(log, fold, order)
      invariant forall x :: x in order ==> OnList(log, head, Number(x))
      invariant forall n: nat :: OnList(log, head, n) ==> OnList(log, i, n) || exists x :: x in order && Number(x) == n
      invariant forall n: nat :: OnList(log, i, n) ==> OnList(log, head, n)
      decreases i
    {
      var x := Pack(fold(log[i - 1].key), i - 1);
      Unpacks(fold(log[i - 1].key), i - 1);
      assert OnList(log, i, i - 1);
      ghost var before := order;
      order := order + [x];
      assert order[|before|] == x;
      assert forall y :: y in before ==> y in order;
      i := log[i - 1].prev;
    }
  }

  // ---------- Distinct keys ----------

  function KeyAt(log: seq<Read>, x: nat): Key {
    if Number(x) < |log| then log[Number(x)].key else []
  }

  ghost predicate Ascending(order: seq<nat>) {
    forall i, j :: 0 <= i < j < |order| ==> order[i] <= order[j]
  }

  /** In the sorted order, an earlier read of the same key stands in the run of equal folds. */
  lemma SameKeySameRun(log: seq<Read>, fold: Key -> nat, order: seq<nat>, k: nat, m: nat, j: nat)
    requires Named(log, fold, order) && Ascending(order) && k <= m <= j < |order|
    requires KeyAt(log, order[k]) == KeyAt(log, order[j])
    ensures Fold(order[m]) == Fold(order[j])
  {
    hide Number;
    assert Fold(order[k]) == Fold(order[j]);
    Between(order[k], order[m], order[j]);
  }

  lemma Between(a: nat, b: nat, c: nat)
    requires a <= b <= c && Fold(a) == Fold(c)
    ensures Fold(b) == Fold(c)
  {
  }

  /** The backward scan of the run of equal folds finds every earlier read of the key. */
  method Repeats(log: seq<Read>, fold: Key -> nat, order: seq<nat>, j: nat) returns (repeat: bool)
    requires Named(log, fold, order) && Ascending(order) && j < |order|
    ensures repeat <==> exists k :: 0 <= k < j && KeyAt(log, order[k]) == KeyAt(log, order[j])
  {
    hide Fold, Number, KeyAt, Ascending, Named;
    repeat := false;
    var k := j;
    while k > 0 && Fold(order[k - 1]) == Fold(order[j]) && !repeat
      invariant 0 <= k <= j
      invariant repeat ==> k < j && KeyAt(log, order[k]) == KeyAt(log, order[j])
      invariant !repeat ==> forall i :: k <= i < j ==> KeyAt(log, order[i]) != KeyAt(log, order[j])
    {
      repeat := KeyAt(log, order[k - 1]) == KeyAt(log, order[j]);
      k := k - 1;
    }
    if !repeat && k > 0 {
      forall i | 0 <= i < k
        ensures KeyAt(log, order[i]) != KeyAt(log, order[j])
      {
        if KeyAt(log, order[i]) == KeyAt(log, order[j]) {
          SameKeySameRun(log, fold, order, i, k - 1, j);
          assert false;
        }
      }
    }
  }

  ghost predicate Distinct(keys: seq<Key>) {
    forall i, j :: 0 <= i < j < |keys| ==> keys[i] != keys[j]
  }

  /** The keys of the first `n` entries that are not written. */
  ghost predicate KeysOf(log: seq<Read>, order: seq<nat>, n: nat, written: set<Key>, keys: seq<Key>) {
    n <= |order| && Distinct(keys)
    && forall key :: key in keys <==> key !in written && exists k :: 0 <= k < n && KeyAt(log, order[k]) == key
  }

  lemma OneMoreKey(log: seq<Read>, order: seq<nat>, n: nat, written: set<Key>, keys: seq<Key>)
    requires KeysOf(log, order, n, written, keys) && n < |order|
    ensures var key := KeyAt(log, order[n]);
            var repeat := exists k :: 0 <= k < n && KeyAt(log, order[k]) == key;
            KeysOf(log, order, n + 1, written, if repeat || key in written then keys else keys + [key])
  {
    hide KeyAt;
    var key := KeyAt(log, order[n]);
    var repeat := exists k :: 0 <= k < n && KeyAt(log, order[k]) == key;
    var keys' := if repeat || key in written then keys else keys + [key];
    forall x
      ensures x in keys' <==> x !in written && exists k :: 0 <= k < n + 1 && KeyAt(log, order[k]) == x
    {
      if x == key {
        assert exists k :: 0 <= k < n + 1 && KeyAt(log, order[k]) == x;
      } else if exists k :: 0 <= k < n + 1 && KeyAt(log, order[k]) == x {
        var k :| 0 <= k < n + 1 && KeyAt(log, order[k]) == x;
        assert 0 <= k < n;
      }
    }
  }

  /** Each distinct key of the list that is not written, once, and nothing else. */
  method AbsentReadKeys(log: seq<Read>, head: nat, written: set<Key>, fold: Key -> nat) returns (keys: seq<Key>)
    requires Linked(log, head)
    ensures Distinct(keys)
    ensures forall key :: key in keys <==> key !in written && ReadOnList(log, head, key)
  {
    hide Fold, Number, KeyAt, OnList, Named, Ascending, KeysOf, ReadOnList;
    var raw := Collect(log, head, fold);
    var order := SortOrder(raw);
    SortedNames(log, fold, raw, order);
    keys := [];
    NoKeysYet(log, order, written);
    for j := 0 to |order|
      invariant KeysOf(log, order, j, written, keys)
    {
      OneMoreKey(log, order, j, written, keys);
      var key := KeyAt(log, order[j]);
      var repeat := Repeats(log, fold, order, j);
      if repeat || key in written { continue; }
      keys := keys + [key];
    }
    AllKeys(log, head, fold, raw, order, written, keys);
  }

  ghost predicate ReadOnList(log: seq<Read>, head: nat, key: Key)
    requires Linked(log, head)
  {
    exists i: nat :: OnList(log, head, i) && i < |log| && log[i].key == key
  }

  method SortOrder(raw: seq<nat>) returns (order: seq<nat>)
    ensures Ascending(order) && multiset(order) == multiset(raw)
  {
    var key := (x: nat) => x as int;
    order := SortBy(raw, key);
  }

  lemma SortedNames(log: seq<Read>, fold: Key -> nat, raw: seq<nat>, order: seq<nat>)
    requires Named(log, fold, raw) && multiset(order) == multiset(raw)
    ensures Named(log, fold, order)
  {
    hide Number, Fold;
    forall j | 0 <= j < |order|
      ensures Number(order[j]) < |log| && Fold(order[j]) == fold(log[Number(order[j])].key)
    {
      SameMembers(order, raw, order[j]);
      var i :| 0 <= i < |raw| && raw[i] == order[j];
    }
  }

  lemma NoKeysYet(log: seq<Read>, order: seq<nat>, written: set<Key>)
    ensures KeysOf(log, order, 0, written, [])
  {
  }

  lemma AllKeys(log: seq<Read>, head: nat, fold: Key -> nat, raw: seq<nat>, order: seq<nat>, written: set<Key>, keys: seq<Key>)
    requires Linked(log, head) && Named(log, fold, raw) && multiset(order) == multiset(raw)
    requires forall x :: x in raw ==> OnList(log, head, Number(x))
    requires forall i: nat :: OnList(log, head, i) ==> exists x :: x in raw && Number(x) == i
    requires KeysOf(log, order, |order|, written, keys)
    ensures Distinct(keys) && forall key :: key in keys <==> key !in written && ReadOnList(log, head, key)
  {
    hide Number, Fold, OnList;
    forall key
      ensures (exists k :: 0 <= k < |order| && KeyAt(log, order[k]) == key) <==> ReadOnList(log, head, key)
    {
      if k :| 0 <= k < |order| && KeyAt(log, order[k]) == key {
        SameMembers(order, raw, order[k]);
        var j :| 0 <= j < |raw| && raw[j] == order[k];
        assert OnList(log, head, Number(order[k]));
      }
      if ReadOnList(log, head, key) {
        var i: nat :| OnList(log, head, i) && i < |log| && log[i].key == key;
        var x :| x in raw && Number(x) == i;
        SameMembers(order, raw, x);
        var k :| 0 <= k < |order| && order[k] == x;
        assert KeyAt(log, order[k]) == key;
      }
    }
  }
}
