/** The ordered binary tree that the kernel's red-black tree presents to
    its users: `rb_link_node` hangs a new node where the descent by key
    ended, and `rb_first`/`rb_next` walk the keys in ascending order.
    Rebalancing (`rb_insert_color`) changes the shape but never the order
    nor the set of keys, so it is not modelled. */
module RbTree {
  import opened Wrappers

  datatype Tree<V> = Leaf | Node(left: Tree<V>, key: int, val: V, right: Tree<V>)

  /** The keys stored in `t`. */
  function Keys<V>(t: Tree<V>): set<int>
  {
    match t
    case Leaf => {}
    case Node(l, k, _, r) => Keys(l) + {k} + Keys(r)
  }

  /** The number of nodes of `t`. */
  function Size<V>(t: Tree<V>): nat
  {
    match t
    case Leaf => 0
    case Node(l, _, _, r) => Size(l) + 1 + Size(r)
  }

  /** Search-tree order: smaller keys to the left, larger to the right. */
  ghost predicate Ordered<V>(t: Tree<V>)
  {
    match t
    case Leaf => true
    case Node(l, k, _, r) =>
      Ordered(l) && Ordered(r) &&
      (forall x :: x in Keys(l) ==> x < k) &&
      (forall x :: x in Keys(r) ==> k < x)
  }

  /** The (key, value) pairs in the order `rb_first`/`rb_next` visit them. */
  function InOrder<V>(t: Tree<V>): seq<(int, V)>
  {
    match t
    case Leaf => []
    case Node(l, k, v, r) => InOrder(l) + [(k, v)] + InOrder(r)
  }

  /** The value stored under `key`, found by following the search order. */
  function Lookup<V>(t: Tree<V>, key: int): (r: Option<V>)
    ensures r.Some? ==> key in Keys(t)
  {
    match t
    case Leaf => None
    case Node(l, k, v, r) =>
      if key < k then Lookup(l, key)
      else if key > k then Lookup(r, key)
      else Some(v)
  }

  /** Insertion at the end of the descent by `key`; an existing key leaves
      the tree as it is. */
  function Insert<V>(t: Tree<V>, key: int, v: V): (r: Tree<V>)
    ensures Keys(r) == Keys(t) + {key}
    ensures Ordered(t) && key in Keys(t) ==> r == t
    ensures key !in Keys(t) ==> Size(r) == Size(t) + 1
    ensures Ordered(t) ==> Ordered(r)
  {
    match t
    case Leaf => Node(Leaf, key, v, Leaf)
    case Node(l, k, w, rt) =>
      if key < k then Node(Insert(l, key, v), k, w, rt)
      else if key > k then Node(l, k, w, Insert(rt, key, v))
      else t
  }

  /** The tree with the value under `key` replaced by `v`; the shape and
      the keys stay as they are. */
  function Replace<V>(t: Tree<V>, key: int, v: V): (r: Tree<V>)
    ensures Keys(r) == Keys(t) && Size(r) == Size(t)
    ensures Ordered(t) ==> Ordered(r)
  {
    match t
    case Leaf => Leaf
    case Node(l, k, w, rt) =>
      if key < k then Node(Replace(l, key, v), k, w, rt)
      else if key > k then Node(l, k, w, Replace(rt, key, v))
      else Node(l, k, v, rt)
  }

  /** The key of the leftmost node: in an ordered tree, the smallest key. */
  function MinKey<V>(t: Tree<V>): (m: int)
    requires t.Node?
    ensures m in Keys(t)
    ensures Ordered(t) ==> forall x :: x in Keys(t) ==> m <= x
  {
    if t.left.Leaf? then t.key else MinKey(t.left)
  }

  /** The tree without its leftmost (smallest) node: what `rb_erase` of
      `rb_first` leaves behind. */
  function RemoveMin<V>(t: Tree<V>): (r: Tree<V>)
    requires t.Node?
    ensures Size(r) == Size(t) - 1
    ensures Keys(t) == Keys(r) + {MinKey(t)}
    ensures Ordered(t) ==> Ordered(r) && MinKey(t) !in Keys(r)
  {
    if t.left.Leaf? then t.right
    else Node(RemoveMin(t.left), t.key, t.val, t.right)
  }

  /** In an ordered tree, Lookup finds exactly the stored keys. */
  lemma {:induction false} LookupFindsKeys<V>(t: Tree<V>, key: int)
    requires Ordered(t)
    ensures Lookup(t, key).Some? <==> key in Keys(t)
  {
    match t
    case Leaf =>
    case Node(l, k, _, r) =>
      if key < k {
        LookupFindsKeys(l, key);
        assert key !in Keys(r);
      } else if key > k {
        LookupFindsKeys(r, key);
        assert key !in Keys(l);
      }
  }

  /** Inserting `key` stores `v` under it when it was absent and leaves
      every other key's value alone. */
  lemma {:induction false} LookupAfterInsert<V>(t: Tree<V>, key: int, v: V, other: int)
    requires Ordered(t)
    ensures key !in Keys(t) ==> Lookup(Insert(t, key, v), key) == Some(v)
    ensures other != key ==> Lookup(Insert(t, key, v), other) == Lookup(t, other)
  {
    match t
    case Leaf =>
    case Node(l, k, _, r) =>
      if key < k {
        LookupAfterInsert(l, key, v, other);
      } else if key > k {
        LookupAfterInsert(r, key, v, other);
      }
  }

  /** Replacing the value under `key` changes what Lookup finds under
      `key` and nothing else. */
  lemma {:induction false} LookupAfterReplace<V>(t: Tree<V>, key: int, v: V, other: int)
    requires Ordered(t)
    ensures key in Keys(t) ==> Lookup(Replace(t, key, v), key) == Some(v)
    ensures other != key ==> Lookup(Replace(t, key, v), other) == Lookup(t, other)
  {
    match t
    case Leaf =>
    case Node(l, k, _, r) =>
      if key < k {
        assert forall x :: x in Keys(r) ==> k < x;
        assert key in Keys(t) ==> key in Keys(l);
        LookupAfterReplace(l, key, v, other);
      } else if key > k {
        assert forall x :: x in Keys(l) ==> x < k;
        assert key in Keys(t) ==> key in Keys(r);
        LookupAfterReplace(r, key, v, other);
      }
  }

  /** The keys of a list of pairs. */
  function KeysOf<V>(s: seq<(int, V)>): set<int>
  {
    set i | 0 <= i < |s| :: s[i].0
  }

  /** Keys strictly ascending along the list. */
  ghost predicate AscendingKeys<V>(s: seq<(int, V)>)
  {
    forall i, j :: 0 <= i < j < |s| ==> s[i].0 < s[j].0
  }

  lemma KeysOfConcat<V>(a: seq<(int, V)>, x: (int, V), b: seq<(int, V)>)
    ensures KeysOf(a + [x] + b) == KeysOf(a) + {x.0} + KeysOf(b)
  {
    var s := a + [x] + b;
    forall y | y in KeysOf(s) ensures y in KeysOf(a) + {x.0} + KeysOf(b) {
      var i :| 0 <= i < |s| && s[i].0 == y;
      if i < |a| {
        assert s[i] == a[i];
      } else if i > |a| {
        assert s[i] == b[i - |a| - 1];
      }
    }
    forall y | y in KeysOf(a) + {x.0} + KeysOf(b) ensures y in KeysOf(s) {
      if y in KeysOf(a) {
        var i :| 0 <= i < |a| && a[i].0 == y;
        assert s[i] == a[i];
      } else if y == x.0 {
        assert s[|a|].0 == y;
      } else {
        var i :| 0 <= i < |b| && b[i].0 == y;
        assert s[|a| + 1 + i] == b[i];
      }
    }
  }

  /** The in-order walk of a tree lists its keys and no others, once per node. */
  lemma {:induction false} InOrderKeys<V>(t: Tree<V>)
    ensures KeysOf(InOrder(t)) == Keys(t)
    ensures |InOrder(t)| == Size(t)
  {
    match t
    case Leaf =>
    case Node(l, k, v, r) =>
      InOrderKeys(l);
      InOrderKeys(r);
      KeysOfConcat(InOrder(l), (k, v), InOrder(r));
  }

  /** The in-order walk of an ordered tree visits its keys in strictly
      ascending order. */
  lemma {:induction false} InOrderAscending<V>(t: Tree<V>)
    requires Ordered(t)
    ensures AscendingKeys(InOrder(t))
  {
    match t
    case Leaf =>
    case Node(l, k, v, r) =>
      InOrderAscending(l);
      InOrderAscending(r);
      InOrderKeys(l);
      InOrderKeys(r);
      var sl, sr := InOrder(l), InOrder(r);
      var s := sl + [(k, v)] + sr;
      forall i, j | 0 <= i < j < |s| ensures s[i].0 < s[j].0 {
        if j < |sl| {
          assert s[i] == sl[i] && s[j] == sl[j];
        } else if i > |sl| {
          assert s[i] == sr[i - |sl| - 1] && s[j] == sr[j - |sl| - 1];
        } else {
          if i < |sl| {
            assert s[i] == sl[i] && sl[i].0 in KeysOf(sl);
          }
          if j > |sl| {
            assert s[j] == sr[j - |sl| - 1] && sr[j - |sl| - 1].0 in KeysOf(sr);
          }
        }
      }
  }
}
