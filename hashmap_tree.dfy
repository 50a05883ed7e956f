/** The persistent map behind the `hmap…` words: an immutable binary search
    tree over keys ordered by KeyOrder.Less. Every operation returns a new
    root and leaves its argument as it was. */
module HashMapTree {
  import opened Values
  import opened KeyOrder

  function Keys(t: Tree): set<Value> {
    match t
    case Empty => {}
    case Node(k, _, l, r) => Keys(l) + {k} + Keys(r)
  }

  /** Search-tree order, transitively: every key is a key kind, smaller than
      its node's key on the left and larger on the right. */
  predicate Ordered(t: Tree) {
    match t
    case Empty => true
    case Node(k, _, l, r) =>
      && IsKey(k) && Ordered(l) && Ordered(r)
      && (forall x :: x in Keys(l) ==> Less(x, k))
      && (forall x :: x in Keys(r) ==> Less(k, x))
  }

  /** The key-to-value map a tree stands for. */
  function Contents(t: Tree): map<Value, Value> {
    match t
    case Empty => map[]
    case Node(k, v, l, r) => (Contents(l) + Contents(r))[k := v]
  }

  lemma {:induction false} KeysOfContents(t: Tree)
    ensures Contents(t).Keys == Keys(t)
  {
    if t.Node? {
      KeysOfContents(t.left);
      KeysOfContents(t.right);
    }
  }

  lemma KeysAreKeys(t: Tree, x: Value)
    requires Ordered(t) && x in Keys(t)
    ensures IsKey(x)
  {
    if x != t.key {
      if x in Keys(t.left) { KeysAreKeys(t.left, x); } else { KeysAreKeys(t.right, x); }
    }
  }

  /** What the root's key splits a lookup into: a key below it is not on the
      right, a key above it is not on the left. */
  lemma SideOf(t: Tree, k: Value)
    requires Ordered(t) && t.Node? && IsKey(k)
    ensures Less(k, t.key) ==> k !in Keys(t.right) && k != t.key
    ensures Less(t.key, k) ==> k !in Keys(t.left) && k != t.key
    ensures !Less(k, t.key) && !Less(t.key, k) ==> k == t.key
  {
    if Less(k, t.key) {
      LessIrreflexive(k);
      if k in Keys(t.right) { LessAsymmetric(k, t.key); }
    }
    if Less(t.key, k) {
      LessIrreflexive(k);
      if k in Keys(t.left) { LessAsymmetric(t.key, k); }
    }
    if !Less(k, t.key) && !Less(t.key, k) && k != t.key {
      LessTotal(k, t.key);
    }
  }

  /** The ordered search behind `hmap@`. */
  function Lookup(t: Tree, k: Value): Option<Value> {
    match t
    case Empty => None
    case Node(k', v, l, r) =>
      if Less(k, k') then Lookup(l, k)
      else if Less(k', k) then Lookup(r, k)
      else Some(v)
  }

  /** Lookup finds exactly what the tree stands for. */
  lemma {:induction false} LookupCorrect(t: Tree, k: Value)
    requires Ordered(t) && IsKey(k)
    ensures Lookup(t, k) == if k in Contents(t) then Some(Contents(t)[k]) else None
  {
    KeysOfContents(t);
    if t.Node? {
      KeysOfContents(t.left);
      KeysOfContents(t.right);
      SideOf(t, k);
      if Less(k, t.key) {
        LookupCorrect(t.left, k);
      } else if Less(t.key, k) {
        LookupCorrect(t.right, k);
      }
    }
  }

  /** Insert-or-overwrite (`hmap!+`): rebuilds the path to the key and reuses
      every other subtree. An existing key keeps its node and gets the new
      value. */
  function Set(t: Tree, k: Value, v: Value): Tree {
    match t
    case Empty => Node(k, v, Empty, Empty)
    case Node(k', v', l, r) =>
      if Less(k, k') then Node(k', v', Set(l, k, v), r)
      else if Less(k', k) then Node(k', v', l, Set(r, k, v))
      else Node(k', v, l, r)
  }

  lemma {:induction false} SetKeys(t: Tree, k: Value, v: Value)
    requires Ordered(t) && IsKey(k)
    ensures Keys(Set(t, k, v)) == Keys(t) + {k}
  {
    if t.Node? {
      SideOf(t, k);
      if Less(k, t.key) {
        SetKeys(t.left, k, v);
      } else if Less(t.key, k) {
        SetKeys(t.right, k, v);
      }
    }
  }

  lemma {:induction false} SetOrdered(t: Tree, k: Value, v: Value)
    requires Ordered(t) && IsKey(k)
    ensures Ordered(Set(t, k, v))
  {
    if t.Node? {
      SideOf(t, k);
      if Less(k, t.key) {
        SetOrdered(t.left, k, v);
        SetKeys(t.left, k, v);
      } else if Less(t.key, k) {
        SetOrdered(t.right, k, v);
        SetKeys(t.right, k, v);
      }
    }
  }

  lemma {:induction false} SetContents(t: Tree, k: Value, v: Value)
    requires Ordered(t) && IsKey(k)
    ensures Contents(Set(t, k, v)) == Contents(t)[k := v]
  {
    if t.Node? {
      KeysOfContents(t.left);
      KeysOfContents(t.right);
      SideOf(t, k);
      var a, b := Contents(t.left), Contents(t.right);
      if Less(k, t.key) {
        SetContents(t.left, k, v);
        UpdateLeft(a, b, k, v, t.key, t.value);
      } else if Less(t.key, k) {
        SetContents(t.right, k, v);
        UpdateRight(a, b, k, v, t.key, t.value);
      }
    }
  }

  lemma SetCorrect(t: Tree, k: Value, v: Value)
    requires Ordered(t) && IsKey(k)
    ensures Ordered(Set(t, k, v))
    ensures Keys(Set(t, k, v)) == Keys(t) + {k}
    ensures Contents(Set(t, k, v)) == Contents(t)[k := v]
  {
    SetKeys(t, k, v);
    SetOrdered(t, k, v);
    SetContents(t, k, v);
  }

  /** After `set`, the key reads back the value just stored and every other
      key reads what it read before. */
  lemma SetThenLookup(t: Tree, k: Value, v: Value, k2: Value)
    requires Ordered(t) && IsKey(k) && IsKey(k2)
    ensures Lookup(Set(t, k, v), k) == Some(v)
    ensures k2 != k ==> Lookup(Set(t, k, v), k2) == Lookup(t, k2)
  {
    SetCorrect(t, k, v);
    LookupCorrect(Set(t, k, v), k);
    LookupCorrect(Set(t, k, v), k2);
    LookupCorrect(t, k2);
  }

  /** The tree with values erased: its shape and keys. */
  function Skeleton(t: Tree): Tree {
    match t
    case Empty => Empty
    case Node(k, _, l, r) => Node(k, Null, Skeleton(l), Skeleton(r))
  }

  /** `set` on a key already present overwrites the value only. */
  lemma {:induction false} SetExistingKeepsShape(t: Tree, k: Value, v: Value)
    requires Ordered(t) && k in Keys(t)
    ensures Skeleton(Set(t, k, v)) == Skeleton(t)
  {
    KeysAreKeys(t, k);
    SideOf(t, k);
    if Less(k, t.key) {
      SetExistingKeepsShape(t.left, k, v);
    } else if Less(t.key, k) {
      SetExistingKeepsShape(t.right, k, v);
    }
  }

  /** Update-only (`hmap!`): like Set where the key is present. */
  function Replace(t: Tree, k: Value, v: Value): Tree {
    match t
    case Empty => Empty
    case Node(k', v', l, r) =>
      if Less(k, k') then Node(k', v', Replace(l, k, v), r)
      else if Less(k', k) then Node(k', v', l, Replace(r, k, v))
      else Node(k', v, l, r)
  }

  /** `replace` is `set` on a present key and gives back the very same tree
      on an absent one. */
  lemma {:induction false} ReplaceIsSetOrNothing(t: Tree, k: Value, v: Value)
    requires Ordered(t) && IsKey(k)
    ensures Replace(t, k, v) == if k in Keys(t) then Set(t, k, v) else t
  {
    if t.Node? {
      SideOf(t, k);
      if Less(k, t.key) {
        ReplaceIsSetOrNothing(t.left, k, v);
      } else if Less(t.key, k) {
        ReplaceIsSetOrNothing(t.right, k, v);
      }
    }
  }

  /** Splits off the smallest entry of a non-empty tree. */
  function RemoveMin(t: Tree): (Value, Value, Tree)
    requires t.Node?
  {
    if t.left.Empty? then (t.key, t.value, t.right)
    else
      var (mk, mv, l') := RemoveMin(t.left);
      (mk, mv, Node(t.key, t.value, l', t.right))
  }

  lemma {:induction false} RemoveMinKeys(t: Tree)
    requires t.Node? && Ordered(t)
    ensures var (mk, _, rest) := RemoveMin(t);
      && mk in Keys(t)
      && Keys(rest) == Keys(t) - {mk}
      && (forall x :: x in Keys(rest) ==> Less(mk, x))
  {
    LessIrreflexive(t.key);
    if t.left.Node? {
      RemoveMinKeys(t.left);
      var (mk, _, _) := RemoveMin(t.left);
      forall x | x in Keys(t.right)
        ensures Less(mk, x)
      {
        LessTransitive(mk, t.key, x);
      }
      LessAsymmetric(mk, t.key);
      if mk in Keys(t.right) {
        LessIrreflexive(mk);
      }
    }
  }

  lemma {:induction false} RemoveMinOrdered(t: Tree)
    requires t.Node? && Ordered(t)
    ensures Ordered(RemoveMin(t).2)
  {
    if t.left.Node? {
      RemoveMinOrdered(t.left);
      RemoveMinKeys(t.left);
    }
  }

  lemma {:induction false} RemoveMinContents(t: Tree)
    requires t.Node? && Ordered(t)
    ensures var (mk, mv, rest) := RemoveMin(t);
      && mk in Contents(t) && Contents(t)[mk] == mv
      && Contents(rest) == Contents(t) - {mk}
  {
    KeysOfContents(t.left);
    KeysOfContents(t.right);
    RemoveMinKeys(t);
    LessIrreflexive(t.key);
    var a, b := Contents(t.left), Contents(t.right);
    if t.left.Empty? {
      DropRoot(a, b, t.key, t.value);
    } else {
      RemoveMinContents(t.left);
      RemoveMinKeys(t.left);
      var (mk, _, _) := RemoveMin(t.left);
      LessAsymmetric(mk, t.key);
      RemoveLeft(a, b, mk, t.key, t.value);
    }
  }

  /** Joins the two subtrees of a removed node. */
  function Merge(l: Tree, r: Tree): Tree {
    if r.Empty? then l
    else
      var (mk, mv, r') := RemoveMin(r);
      Node(mk, mv, l, r')
  }

  lemma MergeCorrect(l: Tree, k: Value, r: Tree)
    requires Ordered(l) && Ordered(r) && IsKey(k)
    requires forall x :: x in Keys(l) ==> Less(x, k)
    requires forall x :: x in Keys(r) ==> Less(k, x)
    ensures Ordered(Merge(l, r))
    ensures Keys(Merge(l, r)) == Keys(l) + Keys(r)
    ensures Contents(Merge(l, r)) == Contents(l) + Contents(r)
  {
    if r.Node? {
      RemoveMinKeys(r);
      RemoveMinOrdered(r);
      RemoveMinContents(r);
      var (mk, mv, r') := RemoveMin(r);
      forall x | x in Keys(l)
        ensures Less(x, mk)
      {
        LessTransitive(x, k, mk);
      }
      KeysOfContents(l);
      if mk in Keys(l) {
        LessIrreflexive(mk);
      }
      Reinsert(Contents(l), Contents(r), mk);
    }
  }

  /** Deletion (`hmap-`): the new root and the removed value, if any. */
  function Remove(t: Tree, k: Value): (Tree, Option<Value>) {
    match t
    case Empty => (Empty, None)
    case Node(k', v', l, r) =>
      if Less(k, k') then
        var (l', removed) := Remove(l, k);
        (Node(k', v', l', r), removed)
      else if Less(k', k) then
        var (r', removed) := Remove(r, k);
        (Node(k', v', l, r'), removed)
      else
        (Merge(l, r), Some(v'))
  }

  lemma {:induction false} RemoveKeys(t: Tree, k: Value)
    requires Ordered(t) && IsKey(k)
    ensures Ordered(Remove(t, k).0)
    ensures Keys(Remove(t, k).0) == Keys(t) - {k}
  {
    if t.Node? {
      SideOf(t, k);
      if Less(k, t.key) {
        RemoveKeys(t.left, k);
      } else if Less(t.key, k) {
        RemoveKeys(t.right, k);
      } else {
        MergeCorrect(t.left, t.key, t.right);
        LessIrreflexive(k);
      }
    }
  }

  lemma {:induction false} RemoveContents(t: Tree, k: Value)
    requires Ordered(t) && IsKey(k)
    ensures Contents(Remove(t, k).0) == Contents(t) - {k}
    ensures Remove(t, k).1 == if k in Contents(t) then Some(Contents(t)[k]) else None
    ensures k !in Keys(t) ==> Remove(t, k).0 == t
  {
    KeysOfContents(t);
    if t.Node? {
      KeysOfContents(t.left);
      KeysOfContents(t.right);
      SideOf(t, k);
      var a, b := Contents(t.left), Contents(t.right);
      if Less(k, t.key) {
        RemoveContents(t.left, k);
        RemoveLeft(a, b, k, t.key, t.value);
      } else if Less(t.key, k) {
        RemoveContents(t.right, k);
        RemoveRight(a, b, k, t.key, t.value);
      } else {
        MergeCorrect(t.left, t.key, t.right);
        LessIrreflexive(k);
        DropRoot(a, b, k, t.value);
      }
    }
  }

  /** Removal takes away exactly the key and reports the value it had; an
      absent key gives back the very same tree and nothing. */
  lemma RemoveCorrect(t: Tree, k: Value)
    requires Ordered(t) && IsKey(k)
    ensures Ordered(Remove(t, k).0)
    ensures Keys(Remove(t, k).0) == Keys(t) - {k}
    ensures Contents(Remove(t, k).0) == Contents(t) - {k}
    ensures Remove(t, k).1 == if k in Contents(t) then Some(Contents(t)[k]) else None
    ensures k !in Keys(t) ==> Remove(t, k).0 == t
  {
    RemoveKeys(t, k);
    RemoveContents(t, k);
  }

  /** After `remove`, the key is absent and every other key reads what it
      read before. */
  lemma RemoveThenLookup(t: Tree, k: Value, k2: Value)
    requires Ordered(t) && IsKey(k) && IsKey(k2)
    ensures Lookup(Remove(t, k).0, k) == None
    ensures k2 != k ==> Lookup(Remove(t, k).0, k2) == Lookup(t, k2)
  {
    RemoveCorrect(t, k);
    LookupCorrect(Remove(t, k).0, k);
    LookupCorrect(Remove(t, k).0, k2);
    LookupCorrect(t, k2);
  }

  // Map algebra for the node equation Contents(Node(k, v, l, r)) == (Contents(l) + Contents(r))[k := v].

  lemma UpdateLeft<K, V>(a: map<K, V>, b: map<K, V>, k: K, v: V, k': K, v': V)
    requires k !in b && k != k'
    ensures (a[k := v] + b)[k' := v'] == ((a + b)[k' := v'])[k := v]
  {
  }

  lemma UpdateRight<K, V>(a: map<K, V>, b: map<K, V>, k: K, v: V, k': K, v': V)
    requires k != k'
    ensures (a + b[k := v])[k' := v'] == ((a + b)[k' := v'])[k := v]
  {
  }

  lemma RemoveLeft<K, V>(a: map<K, V>, b: map<K, V>, x: K, k: K, v: V)
    requires x !in b && x != k
    ensures ((a - {x}) + b)[k := v] == ((a + b)[k := v]) - {x}
  {
  }

  lemma RemoveRight<K, V>(a: map<K, V>, b: map<K, V>, x: K, k: K, v: V)
    requires x !in a && x != k
    ensures (a + (b - {x}))[k := v] == ((a + b)[k := v]) - {x}
  {
  }

  lemma DropRoot<K, V>(a: map<K, V>, b: map<K, V>, k: K, v: V)
    requires k !in a && k !in b
    ensures ((a + b)[k := v]) - {k} == a + b
  {
  }

  lemma Reinsert<K, V>(a: map<K, V>, b: map<K, V>, x: K)
    requires x in b && x !in a
    ensures (a + (b - {x}))[x := b[x]] == a + b
  {
  }

  /** The iteration order of `hmapforeach`: in-order, so by increasing key. */
  function Entries(t: Tree): seq<(Value, Value)> {
    match t
    case Empty => []
    case Node(k, v, l, r) => Entries(l) + [(k, v)] + Entries(r)
  }

  /** The entries are exactly the pairs of the map. */
  lemma {:induction false} EntriesAreContents(t: Tree, p: (Value, Value))
    requires Ordered(t)
    ensures p in Entries(t) <==> p.0 in Contents(t) && Contents(t)[p.0] == p.1
  {
    KeysOfContents(t);
    if t.Node? {
      KeysOfContents(t.left);
      KeysOfContents(t.right);
      EntriesAreContents(t.left, p);
      EntriesAreContents(t.right, p);
      if p.0 in Keys(t) {
        KeysAreKeys(t, p.0);
        SideOf(t, p.0);
      }
    }
  }

  lemma {:induction false} EntryKeysInTree(t: Tree, i: int)
    requires 0 <= i < |Entries(t)|
    ensures Entries(t)[i].0 in Keys(t)
  {
    if t.Node? {
      var nl := |Entries(t.left)|;
      if i < nl {
        EntryKeysInTree(t.left, i);
      } else if i > nl {
        EntryKeysInTree(t.right, i - nl - 1);
      }
    }
  }

  /** Iteration yields strictly increasing keys (hence no key twice). */
  lemma {:induction false} EntriesSorted(t: Tree)
    requires Ordered(t)
    ensures forall i, j :: 0 <= i < j < |Entries(t)| ==> Less(Entries(t)[i].0, Entries(t)[j].0)
  {
    if t.Node? {
      EntriesSorted(t.left);
      EntriesSorted(t.right);
      var e, nl := Entries(t), |Entries(t.left)|;
      forall i, j | 0 <= i < j < |e|
        ensures Less(e[i].0, e[j].0)
      {
        if i < nl {
          EntryKeysInTree(t.left, i);
        }
        if j > nl {
          EntryKeysInTree(t.right, j - nl - 1);
        }
        if i < nl && j > nl {
          LessTransitive(e[i].0, t.key, e[j].0);
        }
      }
    }
  }

  /** Keys 1, 2, 3 set to "a", "b", "c" iterate in that order; removing 2
      leaves the other two. */
  lemma SetThreeRemoveOne()
    ensures var t := Set(Set(Set(Empty, Int(1), Str("a")), Int(2), Str("b")), Int(3), Str("c"));
      && Entries(t) == [(Int(1), Str("a")), (Int(2), Str("b")), (Int(3), Str("c"))]
      && Entries(Remove(t, Int(2)).0) == [(Int(1), Str("a")), (Int(3), Str("c"))]
  {
  }
}
