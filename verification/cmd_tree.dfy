/** The command tree of the core (`cmd_core_key_insert`, `cmd_core_key_find`,
    `cli_traverse_node`): an unbalanced binary search tree ordered by
    `strcmp`, whose nodes are handed out one by one from a pre-counted arena.
    Nodes are never freed or moved, so the tree is modelled as an inductive
    value; the arena shows up as the `room` flag of `Insert` (a free slot is
    left) and as the node count `Size`. */
module CmdTree {
  import opened CStrings

  /** The empty-command marker: exempt from the duplicate check and skipped
      by the traversal. */
  const EmptyCmd: string := " "

  /** The handler stored with a command: the union of the two function-pointer
      shapes, tagged by the output mode it was registered for. */
  datatype Handler = BufFct(bufId: nat) | FileFct(fileId: nat)

  /** `struct cli_cmd_data_s`. */
  datatype CmdData = CmdData(help: string, mask: bv32, fct: Handler)

  datatype Tree = Leaf | Node(left: Tree, key: string, data: CmdData, right: Tree)

  /** `enum cli_cmd_status_e`. */
  datatype Status = StatusOk | MemExhausted | DuplicateKey | KeyNotFound | KeyInvalid

  function Size(t: Tree): nat {
    match t
    case Leaf => 0
    case Node(l, _, _, r) => Size(l) + 1 + Size(r)
  }

  function Keys(t: Tree): set<string> {
    match t
    case Leaf => {}
    case Node(l, k, _, r) => Keys(l) + {k} + Keys(r)
  }

  /** Every (key, data) pair stored in the tree, with multiplicity. */
  function Entries(t: Tree): multiset<(string, CmdData)> {
    match t
    case Leaf => multiset{}
    case Node(l, k, d, r) => Entries(l) + multiset{(k, d)} + Entries(r)
  }

  /** The search-tree order `cmd_core_key_insert` keeps: keys left of a node
      are `strcmp`-less than its key, keys right of it are not. */
  predicate Ordered(t: Tree) {
    match t
    case Leaf => true
    case Node(l, k, _, r) =>
      && Ordered(l) && Ordered(r)
      && (forall x :: x in Keys(l) ==> StrLess(x, k))
      && (forall x :: x in Keys(r) ==> !StrLess(x, k))
  }

  /** Only the empty-command marker may be stored more than once. */
  predicate UniqueKeys(t: Tree) {
    match t
    case Leaf => true
    case Node(l, k, _, r) =>
      && UniqueKeys(l) && UniqueKeys(r)
      && (k != EmptyCmd ==> k !in Keys(l) && k !in Keys(r))
      && (forall x :: x in Keys(l) && x in Keys(r) ==> x == EmptyCmd)
  }

  /** `cmd_core_key_insert`: walk down from the root to the future parent,
      rejecting a key already on the path (unless it is the empty-command
      marker); then take an arena slot if `room` says one is free and hang
      the new node left of its parent when its key is less, else right. */
  function Insert(t: Tree, key: string, data: CmdData, room: bool): (r: (Tree, Status))
    ensures r.1 == StatusOk || r.1 == MemExhausted || r.1 == DuplicateKey
    ensures r.1 != StatusOk ==> r.0 == t
    ensures r.1 == MemExhausted ==> !room
    ensures r.1 == StatusOk ==> room
    ensures r.1 == DuplicateKey ==> key != EmptyCmd && key in Keys(t)
    ensures r.1 == StatusOk ==>
      && Size(r.0) == Size(t) + 1
      && Keys(r.0) == Keys(t) + {key}
  {
    match t
    case Leaf =>
      if room then (Node(Leaf, key, data, Leaf), StatusOk) else (Leaf, MemExhausted)
    case Node(l, k, d, rt) =>
      if key != EmptyCmd && key == k then (t, DuplicateKey)
      else if StrLess(key, k) then
        var sub := Insert(l, key, data, room);
        (Node(sub.0, k, d, rt), sub.1)
      else
        var sub := Insert(rt, key, data, room);
        (Node(l, k, d, sub.0), sub.1)
  }

  /** `cmd_core_key_find`: walk down from the root comparing with `strcmp`. */
  function Find(t: Tree, key: string): (r: Option<CmdData>)
    ensures r.Some? ==> (key, r.value) in Entries(t)
  {
    match t
    case Leaf => None
    case Node(l, k, d, rt) =>
      if key == k then Some(d)
      else if StrLess(key, k) then Find(l, key)
      else Find(rt, key)
  }

  lemma {:induction false} EntryKeyInKeys(t: Tree, key: string, data: CmdData)
    requires (key, data) in Entries(t)
    ensures key in Keys(t)
  {
    match t
    case Leaf =>
    case Node(l, k, d, r) =>
      if (key, data) in Entries(l) {
        EntryKeyInKeys(l, key, data);
      } else if (key, data) in Entries(r) {
        EntryKeyInKeys(r, key, data);
      }
  }

  /** In an ordered tree the search finds a key exactly when it is stored. */
  lemma {:induction false} FindIffPresent(t: Tree, key: string)
    requires Ordered(t)
    ensures Find(t, key).Some? <==> key in Keys(t)
  {
    match t
    case Leaf =>
    case Node(l, k, d, r) =>
      FindIffPresent(l, key);
      FindIffPresent(r, key);
  }

  /** In an ordered tree the duplicate check of `Insert` fires exactly when
      the key (other than the empty-command marker) is already stored. */
  lemma {:induction false} InsertDuplicateIff(t: Tree, key: string, data: CmdData, room: bool)
    requires Ordered(t)
    ensures Insert(t, key, data, room).1 == DuplicateKey <==> key != EmptyCmd && key in Keys(t)
  {
    match t
    case Leaf =>
    case Node(l, k, d, r) =>
      InsertDuplicateIff(l, key, data, room);
      InsertDuplicateIff(r, key, data, room);
  }

  /** A key inserted into an ordered tree is found again with its data. */
  lemma {:induction false} FindAfterInsert(t: Tree, key: string, data: CmdData, room: bool)
    requires Ordered(t) && Insert(t, key, data, room).1 == StatusOk
    requires key != EmptyCmd
    ensures Find(Insert(t, key, data, room).0, key) == Some(data)
  {
    match t
    case Leaf =>
    case Node(l, k, d, r) =>
      if StrLess(key, k) {
        FindAfterInsert(l, key, data, room);
        assert Insert(t, key, data, room).0 == Node(Insert(l, key, data, room).0, k, d, r);
      } else {
        FindAfterInsert(r, key, data, room);
        assert Insert(t, key, data, room).0 == Node(l, k, d, Insert(r, key, data, room).0);
      }
  }

  /** Inserting a key leaves the search for every other key unchanged. */
  lemma {:induction false} FindOtherAfterInsert(t: Tree, key: string, data: CmdData, room: bool, other: string)
    requires other != key
    ensures Find(Insert(t, key, data, room).0, other) == Find(t, other)
  {
    match t
    case Leaf =>
    case Node(l, k, d, r) =>
      if key != EmptyCmd && key == k {
      } else if StrLess(key, k) {
        FindOtherAfterInsert(l, key, data, room, other);
        assert Insert(t, key, data, room).0 == Node(Insert(l, key, data, room).0, k, d, r);
      } else {
        FindOtherAfterInsert(r, key, data, room, other);
        assert Insert(t, key, data, room).0 == Node(l, k, d, Insert(r, key, data, room).0);
      }
  }

  /** A successful insertion stores exactly one entry more: the new key
      with its data. */
  lemma {:induction false} InsertAddsEntry(t: Tree, key: string, data: CmdData, room: bool)
    requires Insert(t, key, data, room).1 == StatusOk
    ensures Entries(Insert(t, key, data, room).0) == Entries(t) + multiset{(key, data)}
  {
    match t
    case Leaf =>
    case Node(l, k, d, r) =>
      if StrLess(key, k) {
        InsertAddsEntry(l, key, data, room);
        assert Insert(t, key, data, room).0 == Node(Insert(l, key, data, room).0, k, d, r);
      } else {
        InsertAddsEntry(r, key, data, room);
        assert Insert(t, key, data, room).0 == Node(l, k, d, Insert(r, key, data, room).0);
      }
  }

  /** Insertion keeps the search-tree order: the new node goes left of
      every node whose key is `strcmp`-greater and right of the others. */
  lemma {:induction false} InsertKeepsOrdered(t: Tree, key: string, data: CmdData, room: bool)
    requires Ordered(t)
    ensures Ordered(Insert(t, key, data, room).0)
  {
    match t
    case Leaf =>
    case Node(l, k, d, r) =>
      if key != EmptyCmd && key == k {
      } else if StrLess(key, k) {
        InsertKeepsOrdered(l, key, data, room);
        var l' := Insert(l, key, data, room).0;
        assert Insert(t, key, data, room).0 == Node(l', k, d, r);
        assert Keys(l') <= Keys(l) + {key};
      } else {
        InsertKeepsOrdered(r, key, data, room);
        var r' := Insert(r, key, data, room).0;
        assert Insert(t, key, data, room).0 == Node(l, k, d, r');
        assert Keys(r') <= Keys(r) + {key};
      }
  }

  /** Inserting a key that is not yet stored keeps the keys unique. */
  lemma {:induction false} InsertKeepsUnique(t: Tree, key: string, data: CmdData, room: bool)
    requires UniqueKeys(t) && Insert(t, key, data, room).1 == StatusOk
    requires key == EmptyCmd || key !in Keys(t)
    ensures UniqueKeys(Insert(t, key, data, room).0)
  {
    match t
    case Leaf =>
    case Node(l, k, d, r) =>
      if StrLess(key, k) {
        InsertKeepsUnique(l, key, data, room);
      } else {
        InsertKeepsUnique(r, key, data, room);
      }
  }

  /** Keys in traversal order (`cli_traverse_node`), skipping the
      empty-command marker. */
  function Traverse(t: Tree): (r: seq<string>)
    ensures forall i :: 0 <= i < |r| ==> r[i] in Keys(t) && r[i] != EmptyCmd
    ensures forall k :: k in Keys(t) && k != EmptyCmd ==> k in r
  {
    match t
    case Leaf => []
    case Node(l, k, _, rt) =>
      Traverse(l) + (if k == EmptyCmd then [] else [k]) + Traverse(rt)
  }

  /** In `strcmp` order: no name is smaller than one before it. */
  predicate Sorted(s: seq<string>) {
    forall i, j :: 0 <= i < j < |s| ==> !StrLess(s[j], s[i])
  }

  /** Two sorted sequences, the second nowhere below the first, concatenate
      to a sorted one. */
  lemma SortedConcat(a: seq<string>, b: seq<string>)
    requires Sorted(a) && Sorted(b)
    requires forall i, j :: 0 <= i < |a| && 0 <= j < |b| ==> !StrLess(b[j], a[i])
    ensures Sorted(a + b)
  {
    forall i, j | 0 <= i < j < |a + b|
      ensures !StrLess((a + b)[j], (a + b)[i])
    {
      if j >= |a| {
        assert (a + b)[j] == b[j - |a|];
        if i >= |a| {
          assert (a + b)[i] == b[i - |a|];
        }
      }
    }
  }

  /** The in-order walk visits the names in `strcmp` order. */
  lemma {:induction false} TraverseSorted(t: Tree)
    requires Ordered(t)
    ensures Sorted(Traverse(t))
  {
    match t
    case Leaf =>
    case Node(l, k, _, rt) =>
      TraverseSorted(l);
      TraverseSorted(rt);
      var a, m, b := Traverse(l), (if k == EmptyCmd then [] else [k]), Traverse(rt);
      forall i, j | 0 <= i < |a| && 0 <= j < |m|
        ensures !StrLess(m[j], a[i])
      {
        StrLessAsym(a[i], k);
      }
      SortedConcat(a, m);
      forall i, j | 0 <= i < |a + m| && 0 <= j < |b|
        ensures !StrLess(b[j], (a + m)[i])
      {
        if i < |a| {
          assert (a + m)[i] == a[i];
          if StrLess(b[j], a[i]) {
            StrLessTrans(b[j], a[i], k);
          }
        } else {
          assert (a + m)[i] == k;
        }
      }
      SortedConcat(a + m, b);
  }

  /** No element occurs twice. */
  predicate Distinct(s: seq<string>) {
    forall i, j :: 0 <= i < j < |s| ==> s[i] != s[j]
  }

  /** Two repetition-free sequences with no element in common concatenate
      to a repetition-free one. */
  lemma DistinctConcat(a: seq<string>, b: seq<string>)
    requires Distinct(a) && Distinct(b)
    requires forall i :: 0 <= i < |a| ==> a[i] !in b
    ensures Distinct(a + b)
  {
    forall i, j | 0 <= i < j < |a + b|
      ensures (a + b)[i] != (a + b)[j]
    {
      if j >= |a| {
        assert (a + b)[j] == b[j - |a|];
        if i < |a| {
          assert (a + b)[j] in b;
        }
      }
    }
  }

  /** With unique keys the traversal lists each key once. */
  lemma {:induction false} TraverseDistinct(t: Tree)
    requires UniqueKeys(t)
    ensures Distinct(Traverse(t))
  {
    match t
    case Leaf =>
    case Node(l, k, _, rt) =>
      TraverseDistinct(l);
      TraverseDistinct(rt);
      var a, b, c := Traverse(l), (if k == EmptyCmd then [] else [k]), Traverse(rt);
      assert forall i :: 0 <= i < |a| ==> a[i] !in b;
      DistinctConcat(a, b);
      assert forall i :: 0 <= i < |a + b| ==> (a + b)[i] in Keys(l) + {k} && (a + b)[i] != EmptyCmd;
      DistinctConcat(a + b, c);
      assert Traverse(t) == a + b + c;
  }
}
