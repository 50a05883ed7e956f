/** The base words as they run: each pops from and pushes onto the shared
    stack, in the word's own order, and is proved to have the stack effect
    its function in Words gives. On a failure only the error kind is
    promised, since a failure aborts the whole run. */
module BaseModule {
  import opened Values
  import opened KeyOrder
  import opened HashMapTree
  import opened Pops
  import opened Atoms
  import opened Stacks
  import Words

  /** A word's outcome without the resulting stack. */
  function Done<T>(w: Result<T>): Result<()> {
    match w
    case Ok(_) => Ok(())
    case Err(e) => Err(e)
  }

  // === Type tests, boxes, atoms ===

  /** `null` ( -- null). */
  method InterpretPushNull(st: Stack)
    modifies st
    ensures st.items == old(st.items) + [Null] && st.atoms == old(st.atoms)
  {
    st.Push(Null);
  }

  /** `null?` `integer?` `string?` `tuple?` `box?` `atom?` (x -- ?). */
  method InterpretIsType(st: Stack, ty: ValueType) returns (r: Result<()>)
    modifies st
    ensures r == Done(Words.IsType(old(st.items), ty))
    ensures r.Ok? ==> st.items == Words.IsType(old(st.items), ty).value
    ensures st.atoms == old(st.atoms)
  {
    var v :- st.Pop();
    st.PushBool(TypeOf(v) == ty);
    r := Ok(());
  }

  /** `hole` ( -- box): a new box holding null. */
  method InterpretHole(st: Stack)
    modifies st
    ensures |st.items| == |old(st.items)| + 1 && st.items[..|old(st.items)|] == old(st.items)
    ensures var top := st.items[|old(st.items)|]; top.BoxRef? && fresh(top.box) && top.box.contents == Null
    ensures st.atoms == old(st.atoms)
  {
    var b := new Box(Null);
    st.Push(BoxRef(b));
  }

  /** `box` (x -- box): a new box holding the popped value. */
  method InterpretBox(st: Stack) returns (r: Result<()>)
    modifies st
    ensures r.Ok? <==> |old(st.items)| > 0
    ensures r.Err? ==> r.error == Underflow
    ensures r.Ok? ==> var n := |old(st.items)| - 1;
      && |st.items| == n + 1 && st.items[..n] == old(st.items)[..n]
      && st.items[n].BoxRef? && fresh(st.items[n].box)
      && st.items[n].box.contents == old(st.items)[n]
    ensures st.atoms == old(st.atoms)
  {
    var v :- st.Pop();
    var b := new Box(v);
    st.Push(BoxRef(b));
    r := Ok(());
  }

  /** `@` (box -- x): what the box holds now. */
  method InterpretBoxFetch(st: Stack) returns (r: Result<()>)
    modifies st
    ensures r == Done(PopBox(old(st.items)))
    ensures r.Ok? ==> var p := PopBox(old(st.items)).value; st.items == p.0 + [p.1.contents]
    ensures st.atoms == old(st.atoms)
  {
    var b :- st.PopBox();
    st.Push(b.contents);
    r := Ok(());
  }

  /** The box on top of the stack, the only object `!` may change. */
  function TopBox(s: seq<Value>): set<Box> {
    if |s| > 0 && s[|s| - 1].BoxRef? then {s[|s| - 1].box} else {}
  }

  /** `!` (x box -- ): replaces what the box holds; pushes nothing. Every
      other holder of the same box sees the new value. */
  method InterpretBoxStore(st: Stack) returns (r: Result<()>)
    modifies st, TopBox(st.items)
    ensures r.Ok? <==> |old(st.items)| >= 2 && old(st.items)[|old(st.items)| - 1].BoxRef?
    ensures r.Err? ==> r.error == if PopBox(old(st.items)).Err? then PopBox(old(st.items)).error else Underflow
    ensures r.Ok? ==> var n := |old(st.items)|;
      && st.items == old(st.items)[..n - 2]
      && old(st.items)[n - 1].box.contents == old(st.items)[n - 2]
    ensures st.atoms == old(st.atoms)
  {
    var b :- st.PopBox();
    var v :- st.Pop();
    b.contents := v;
    r := Ok(());
  }

  /** `!` then `@` on the same box gives back the value stored. */
  method BoxStoreThenFetch(st: Stack, x: Value, b: Box) returns (r: Result<()>)
    modifies st, b
    ensures r.Ok? && st.items == old(st.items) + [x] && b.contents == x
  {
    st.Push(x);
    st.Push(BoxRef(b));
    r := InterpretBoxStore(st);
    assert st.items == old(st.items);
    st.Push(BoxRef(b));
    r := InterpretBoxFetch(st);
  }

  /** `anon` ( -- atom): a fresh anonymous atom. */
  method InterpretAtomAnon(st: Stack)
    modifies st
    ensures (st.items, st.atoms) == Words.AtomAnon(old(st.items), old(st.atoms))
  {
    var (atoms', a) := CreateAnon(st.atoms);
    st.atoms := atoms';
    st.Push(Atom(a));
  }

  /** `(atom)` (name create -- atom? exists). */
  method InterpretAtom(st: Stack) returns (r: Result<()>)
    modifies st
    ensures r == Done(Words.AtomWord(old(st.items), old(st.atoms)))
    ensures r.Ok? ==> (st.items, st.atoms) == Words.AtomWord(old(st.items), old(st.atoms)).value
  {
    var create :- st.PopBool();
    var name :- st.PopString();
    var atom := Get(st.atoms, name);
    if create && atom.None? {
      var (atoms', a) := CreateNamed(st.atoms, name);
      st.atoms := atoms';
      atom := Some(a);
    }
    var found := atom.Some?;
    if atom.Some? {
      st.Push(Atom(atom.value));
    }
    st.PushBool(found);
    r := Ok(());
  }

  /** `eqv?` (x y -- ?). */
  method InterpretIsEqv(st: Stack) returns (r: Result<()>)
    modifies st
    ensures r == Done(Words.IsEqv(old(st.items)))
    ensures r.Ok? ==> st.items == Words.IsEqv(old(st.items)).value
    ensures st.atoms == old(st.atoms)
  {
    var y :- st.Pop();
    var x :- st.Pop();
    st.PushBool(Eqv(x, y));
    r := Ok(());
  }

  // === Tuples ===

  /** `|` ( -- t): the empty tuple. */
  method InterpretEmptyTuple(st: Stack)
    modifies st
    ensures st.items == old(st.items) + [Tuple([])] && st.atoms == old(st.atoms)
  {
    st.Push(Tuple([]));
  }

  /** `,` (t x -- t'). */
  method InterpretTuplePush(st: Stack) returns (r: Result<()>)
    modifies st
    ensures r == Done(Words.TuplePush(old(st.items)))
    ensures r.Ok? ==> st.items == Words.TuplePush(old(st.items)).value
    ensures st.atoms == old(st.atoms)
  {
    var value :- st.Pop();
    var tuple :- st.PopTuple();
    tuple := tuple + [value];
    st.Push(Tuple(tuple));
    r := Ok(());
  }

  /** `tpop` (t -- t' x). */
  method InterpretTuplePop(st: Stack) returns (r: Result<()>)
    modifies st
    ensures r == Done(Words.TuplePop(old(st.items)))
    ensures r.Ok? ==> st.items == Words.TuplePop(old(st.items)).value
    ensures st.atoms == old(st.atoms)
  {
    var tuple :- st.PopTuple();
    if |tuple| == 0 {
      return Err(Underflow);
    }
    var last := tuple[|tuple| - 1];
    tuple := tuple[..|tuple| - 1];
    st.Push(Tuple(tuple));
    st.Push(last);
    r := Ok(());
  }

  /** `[]` (t i -- x). */
  method InterpretTupleIndex(st: Stack) returns (r: Result<()>)
    modifies st
    ensures r == Done(Words.TupleIndex(old(st.items)))
    ensures r.Ok? ==> st.items == Words.TupleIndex(old(st.items)).value
    ensures st.atoms == old(st.atoms)
  {
    var idx :- st.PopUsize();
    var tuple :- st.PopTuple();
    if idx >= |tuple| {
      return Err(RangeError);
    }
    st.Push(tuple[idx]);
    r := Ok(());
  }

  /** `[]=` (t x i -- t'). */
  method InterpretTupleSet(st: Stack) returns (r: Result<()>)
    modifies st
    ensures r == Done(Words.TupleSet(old(st.items)))
    ensures r.Ok? ==> st.items == Words.TupleSet(old(st.items)).value
    ensures st.atoms == old(st.atoms)
  {
    var idx :- st.PopUsize();
    var value :- st.Pop();
    var tuple :- st.PopTuple();
    if idx >= |tuple| {
      return Err(RangeError);
    }
    tuple := tuple[idx := value];
    st.Push(Tuple(tuple));
    r := Ok(());
  }

  /** `[]!` (t x i -- t'). */
  method InterpretTupleInsert(st: Stack) returns (r: Result<()>)
    modifies st
    ensures r == Done(Words.TupleInsert(old(st.items)))
    ensures r.Ok? ==> st.items == Words.TupleInsert(old(st.items)).value
    ensures st.atoms == old(st.atoms)
  {
    var idx :- st.PopUsize();
    var value :- st.Pop();
    var tuple :- st.PopTuple();
    if idx > |tuple| {
      return Err(RangeError);
    }
    tuple := tuple[..idx] + [value] + tuple[idx..];
    st.Push(Tuple(tuple));
    r := Ok(());
  }

  /** The separator of `[]>$by`; `[]>$` has none. */
  method PopSeparator(st: Stack, popSep: bool) returns (r: Result<Option<string>>)
    modifies st
    ensures r == Popped(Words.PopSeparator(old(st.items), popSep))
    ensures r.Ok? ==> st.items == Words.PopSeparator(old(st.items), popSep).value.0
    ensures st.atoms == old(st.atoms)
  {
    if popSep {
      var s :- st.PopString();
      r := Ok(Some(s));
    } else {
      r := Ok(None);
    }
  }

  /** `[]>$` (t -- S) and `[]>$by` (t s -- S): the join loop. */
  method InterpretTupleStringsJoin(st: Stack, popSep: bool) returns (r: Result<()>)
    modifies st
    ensures r == Done(Words.TupleStringsJoin(old(st.items), popSep))
    ensures r.Ok? ==> st.items == Words.TupleStringsJoin(old(st.items), popSep).value
    ensures st.atoms == old(st.atoms)
  {
    var sep :- PopSeparator(st, popSep);
    var tuple :- st.PopTuple();
    var result := "";
    var first := true;
    var i := 0;
    while i < |tuple|
      invariant 0 <= i <= |tuple|
      invariant sep.Some? ==> first == (i == 0)
      invariant Words.JoinStrings(tuple[..i], sep) == Ok(result)
      invariant st.items == old(st.items)[..|st.items|] && st.atoms == old(st.atoms)
    {
      ghost var before := result;
      if sep.Some? {
        if !first {
          result := result + sep.value;
        }
        first := false;
      }
      var item := tuple[i];
      if !item.Str? {
        Words.JoinSpec(tuple, sep);
        return Err(TypeMismatch);
      }
      result := result + item.s;
      assert tuple[..i + 1][..i] == tuple[..i];
      assert tuple[..i + 1][i] == item;
      assert result == before + (if sep.Some? && i + 1 > 1 then sep.value else "") + item.s;
      i := i + 1;
    }
    assert tuple[..i] == tuple;
    st.Push(Str(result));
    r := Ok(());
  }

  /** `count` (t -- n). */
  method InterpretTupleLen(st: Stack) returns (r: Result<()>)
    modifies st
    ensures r == Done(Words.TupleLen(old(st.items)))
    ensures r.Ok? ==> st.items == Words.TupleLen(old(st.items)).value
    ensures st.atoms == old(st.atoms)
  {
    var tuple :- st.PopTuple();
    st.Push(Int(|tuple|));
    r := Ok(());
  }

  /** A sequence back to front. */
  function Reversed(s: seq<Value>): (r: seq<Value>)
    ensures |r| == |s|
  {
    if s == [] then [] else Reversed(s[1..]) + [s[0]]
  }

  lemma {:induction false} ReversedAppend(a: seq<Value>, b: seq<Value>)
    ensures Reversed(a + b) == Reversed(b) + Reversed(a)
    decreases |a|
  {
    if a == [] {
      assert a + b == b;
    } else {
      assert (a + b)[1..] == a[1..] + b;
      ReversedAppend(a[1..], b);
    }
  }

  /** Reversing twice gives back the sequence. */
  lemma {:induction false} ReversedTwice(s: seq<Value>)
    ensures Reversed(Reversed(s)) == s
    decreases |s|
  {
    if s != [] {
      ReversedAppend(Reversed(s[1..]), [s[0]]);
      ReversedTwice(s[1..]);
      assert Reversed([s[0]]) == [s[0]] by {
        assert [s[0]][1..] == [];
      }
    }
  }

  /** `tuple` (x1 .. xn n -- t): pops the n items one by one (last first),
      then reverses them into stack order. */
  method InterpretMakeTuple(st: Stack) returns (r: Result<()>)
    modifies st
    ensures r == Done(Words.MakeTuple(old(st.items)))
    ensures r.Ok? ==> st.items == Words.MakeTuple(old(st.items)).value
    ensures st.atoms == old(st.atoms)
  {
    var n :- st.PopRange(0, 255);
    ghost var below := st.items;
    var tuple: seq<Value> := [];
    var i := 0;
    while i < n
      invariant 0 <= i <= n && i <= |below|
      invariant st.items == below[..|below| - i]
      invariant tuple == Reversed(below[|below| - i..])
      invariant st.atoms == old(st.atoms)
    {
      var v :- st.Pop();
      ghost var m := |below| - i;
      assert below[m - 1..][1..] == below[m..];
      assert below[..m][..m - 1] == below[..m - 1];
      tuple := tuple + [v];
      i := i + 1;
    }
    ReversedTwice(below[|below| - n..]);
    tuple := Reversed(tuple);
    st.Push(Tuple(tuple));
    r := Ok(());
  }

  /** The count of `untuple`, or nothing for `explode`. */
  method PopCount(st: Stack, popCount: bool) returns (r: Result<int>)
    modifies st
    ensures r == Popped(Words.PopCount(old(st.items), popCount))
    ensures r.Ok? ==> st.items == Words.PopCount(old(st.items), popCount).value.0
    ensures st.atoms == old(st.atoms)
  {
    if popCount {
      r := st.PopRange(0, 255);
    } else {
      r := Ok(0);
    }
  }

  /** `untuple` (t n -- x1 .. xn) and `explode` (t -- x1 .. xn n): checks the
      size, then pushes the items one by one. */
  method InterpretTupleExplode(st: Stack, popCount: bool) returns (r: Result<()>)
    modifies st
    ensures r == Done(Words.TupleExplode(old(st.items), popCount))
    ensures r.Ok? ==> st.items == Words.TupleExplode(old(st.items), popCount).value
    ensures st.atoms == old(st.atoms)
  {
    var n :- PopCount(st, popCount);
    var tuple :- st.PopTuple();
    if !popCount {
      n := |tuple|;
      if n > 255 {
        return Err(RangeError);
      }
    } else if |tuple| != n {
      return Err(RangeError);
    }
    ghost var below := st.items;
    var i := 0;
    while i < |tuple|
      invariant 0 <= i <= |tuple|
      invariant st.items == below + tuple[..i]
      invariant st.atoms == old(st.atoms)
    {
      st.Push(tuple[i]);
      assert tuple[..i + 1] == tuple[..i] + [tuple[i]];
      i := i + 1;
    }
    assert tuple[..i] == tuple;
    if !popCount {
      st.Push(Int(n));
    }
    r := Ok(());
  }

  /** `allot` (n -- t): a tuple of n new, distinct boxes, each holding null. */
  method InterpretAllot(st: Stack) returns (r: Result<()>)
    modifies st
    ensures r == Done(PopRange(old(st.items), 0, U32Max))
    ensures r.Ok? ==>
      var p := PopRange(old(st.items), 0, U32Max).value;
      && |st.items| == |p.0| + 1 && st.items[..|p.0|] == p.0
      && st.items[|p.0|].Tuple?
      && var boxes := st.items[|p.0|].items;
      && |boxes| == p.1
      && (forall j :: 0 <= j < |boxes| ==> boxes[j].BoxRef? && fresh(boxes[j].box) && boxes[j].box.contents == Null)
      && (forall j, k :: 0 <= j < k < |boxes| ==> boxes[j].box != boxes[k].box)
    ensures st.atoms == old(st.atoms)
  {
    var n :- st.PopRange(0, U32Max);
    ghost var below := st.items;
    var boxes: seq<Value> := [];
    while |boxes| < n
      invariant |boxes| <= n
      invariant st.items == below && st.atoms == old(st.atoms)
      invariant forall j :: 0 <= j < |boxes| ==> boxes[j].BoxRef? && fresh(boxes[j].box) && boxes[j].box.contents == Null
      invariant forall j, k :: 0 <= j < k < |boxes| ==> boxes[j].box != boxes[k].box
    {
      var b := new Box(Null);
      boxes := boxes + [BoxRef(b)];
    }
    st.Push(Tuple(boxes));
    r := Ok(());
  }

  // === Persistent maps ===

  /** `hmapnew` ( -- m): the empty map, which is null. */
  method InterpretHmapNew(st: Stack)
    modifies st
    ensures st.items == old(st.items) + [MapValue(Empty)] && st.atoms == old(st.atoms)
  {
    st.Push(Null);
  }

  /** `hmap@` (k m -- v) and `hmap@?` (k m -- v true | false). */
  method InterpretHmapFetch(st: Stack, chk: bool) returns (r: Result<()>)
    modifies st
    ensures r == Done(Words.HmapFetch(old(st.items), chk))
    ensures r.Ok? ==> st.items == Words.HmapFetch(old(st.items), chk).value
    ensures st.atoms == old(st.atoms)
  {
    var m :- st.PopHashmap();
    var key :- st.PopKey();
    var value := Lookup(m, key);
    var found := value.Some?;
    match value {
      case Some(v) => st.Push(v);
      case None => if !chk { st.Push(Null); }
    }
    if chk {
      st.PushBool(found);
    }
    r := Ok(());
  }

  /** `hmap-` (k m -- m'), `hmap-?` (k m -- m' ?) and `hmap@-` (k m -- m' v). */
  method InterpretHmapDelete(st: Stack, chk: bool, read: bool) returns (r: Result<()>)
    modifies st
    ensures r == Done(Words.HmapDelete(old(st.items), chk, read))
    ensures r.Ok? ==> st.items == Words.HmapDelete(old(st.items), chk, read).value
    ensures st.atoms == old(st.atoms)
  {
    var m :- st.PopHashmap();
    var key :- st.PopKey();
    var (m', value) := Remove(m, key);
    st.PushMap(m');
    var found := value.Some?;
    match value {
      case Some(v) => if read { st.Push(v); }
      case None => if read && !chk { st.Push(Null); }
    }
    if chk {
      st.PushBool(found);
    }
    r := Ok(());
  }

  /** `hmap!` (v k m -- m') and `hmap!+` (v k m -- m'). */
  method InterpretHmapStore(st: Stack, add: bool) returns (r: Result<()>)
    modifies st
    ensures r == Done(Words.HmapStore(old(st.items), add))
    ensures r.Ok? ==> st.items == Words.HmapStore(old(st.items), add).value
    ensures st.atoms == old(st.atoms)
  {
    var m :- st.PopHashmap();
    var key :- st.PopKey();
    var value :- st.Pop();
    if add {
      m := Set(m, key, value);
    } else {
      m := Replace(m, key, value);
    }
    st.PushMap(m);
    r := Ok(());
  }

  /** `hmapempty?` (m -- ?). */
  method InterpretHmapIsEmpty(st: Stack) returns (r: Result<()>)
    modifies st
    ensures r == Done(Words.HmapIsEmpty(old(st.items)))
    ensures r.Ok? ==> st.items == Words.HmapIsEmpty(old(st.items)).value
    ensures st.atoms == old(st.atoms)
  {
    var m :- st.PopHashmap();
    st.PushBool(m.Empty?);
    r := Ok(());
  }

  /** `hmapunpack` (m -- k v l r true | false). */
  method InterpretHmapDecompose(st: Stack) returns (r: Result<()>)
    modifies st
    ensures r == Done(Words.HmapDecompose(old(st.items)))
    ensures r.Ok? ==> st.items == Words.HmapDecompose(old(st.items)).value
    ensures st.atoms == old(st.atoms)
  {
    var m :- st.PopHashmap();
    var notEmpty := m.Node?;
    if m.Node? {
      st.Push(m.key);
      st.Push(m.value);
      st.PushMap(m.left);
      st.PushMap(m.right);
    }
    st.PushBool(notEmpty);
    r := Ok(());
  }
}
