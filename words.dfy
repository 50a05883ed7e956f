/** The stack effect of each base word, as a function from the stack before
    (bottom first, top last) to the stack after, or the kind of failure.
    Each follows the word's own order of pops and pushes. */
module Words {
  import opened Values
  import opened KeyOrder
  import opened HashMapTree
  import opened Pops
  import opened Atoms

  // === Type tests and eqv? ===

  /** `null?`, `integer?`, `string?`, `tuple?`, `box?`, `atom?`. */
  function IsType(s: seq<Value>, ty: ValueType): Result<seq<Value>> {
    var p :- Pop(s);
    Ok(p.0 + [BoolValue(TypeOf(p.1) == ty)])
  }

  /** `eqv?`: pops y, then x. */
  function IsEqv(s: seq<Value>): Result<seq<Value>> {
    var py :- Pop(s);
    var px :- Pop(py.0);
    Ok(px.0 + [BoolValue(Eqv(px.1, py.1))])
  }

  /** A type test replaces the top by one bool; `eqv?` replaces the top two
      by one bool, and fails on fewer than two items. */
  lemma TestWordsShape(s: seq<Value>, x: Value, y: Value, ty: ValueType)
    ensures IsType(s + [x], ty) == Ok(s + [BoolValue(TypeOf(x) == ty)])
    ensures IsEqv(s + [x, y]) == Ok(s + [BoolValue(Eqv(x, y))])
    ensures IsEqv([y]).Err? && IsEqv([]).Err?
  {
    assert (s + [x, y])[..|s| + 1] == s + [x];
    assert (s + [x])[..|s|] == s;
  }

  // === Tuples ===

  /** `,` (t v -- t'). */
  function TuplePush(s: seq<Value>): Result<seq<Value>> {
    var pv :- Pop(s);
    var pt :- PopTuple(pv.0);
    Ok(pt.0 + [Tuple(pt.1 + [pv.1])])
  }

  /** `tpop` (t -- t' v): fails on an empty tuple. */
  function TuplePop(s: seq<Value>): Result<seq<Value>> {
    var pt :- PopTuple(s);
    var t := pt.1;
    if |t| == 0 then Err(Underflow)
    else Ok(pt.0 + [Tuple(t[..|t| - 1]), t[|t| - 1]])
  }

  /** `,` then `tpop` gives back the tuple and the value; `tpop` on the empty
      tuple is an underflow. */
  lemma PushThenPopTuple(s: seq<Value>, t: seq<Value>, v: Value)
    ensures TuplePush(s + [Tuple(t), v]) == Ok(s + [Tuple(t + [v])])
    ensures TuplePop(s + [Tuple(t + [v])]) == Ok(s + [Tuple(t), v])
    ensures TuplePop(s + [Tuple([])]) == Err(Underflow)
  {
    assert (s + [Tuple(t), v])[..|s| + 1] == s + [Tuple(t)];
    assert (s + [Tuple(t)])[..|s|] == s;
    assert (s + [Tuple(t + [v])])[..|s|] == s;
    assert (t + [v])[..|t|] == t;
  }

  /** `[]` (t i -- v). */
  function TupleIndex(s: seq<Value>): Result<seq<Value>> {
    var pi :- PopUsize(s);
    var pt :- PopTuple(pi.0);
    if pi.1 < |pt.1| then Ok(pt.0 + [pt.1[pi.1]]) else Err(RangeError)
  }

  /** `[]=` (t v i -- t'). */
  function TupleSet(s: seq<Value>): Result<seq<Value>> {
    var pi :- PopUsize(s);
    var pv :- Pop(pi.0);
    var pt :- PopTuple(pv.0);
    if pi.1 < |pt.1| then Ok(pt.0 + [Tuple(pt.1[pi.1 := pv.1])]) else Err(RangeError)
  }

  /** `[]!` (t v i -- t'): inserts before position i. */
  function TupleInsert(s: seq<Value>): Result<seq<Value>> {
    var pi :- PopUsize(s);
    var pv :- Pop(pi.0);
    var pt :- PopTuple(pv.0);
    var t, i := pt.1, pi.1;
    if i <= |t| then Ok(pt.0 + [Tuple(t[..i] + [pv.1] + t[i..])]) else Err(RangeError)
  }

  /** `[]` fails exactly when the index is past the end, and otherwise
      pushes that element. */
  lemma TupleIndexSpec(s: seq<Value>, t: seq<Value>, i: int)
    requires 0 <= i <= UsizeMax
    ensures TupleIndex(s + [Tuple(t), Int(i)]) == if i < |t| then Ok(s + [t[i]]) else Err(RangeError)
  {
    assert (s + [Tuple(t), Int(i)])[..|s| + 1] == s + [Tuple(t)];
    assert (s + [Tuple(t)])[..|s|] == s;
  }

  /** `[]=` fails exactly when the index is past the end; otherwise the
      tuple keeps its length and only position i changes. */
  lemma TupleSetSpec(s: seq<Value>, t: seq<Value>, v: Value, i: int)
    requires 0 <= i <= UsizeMax
    ensures var r := TupleSet(s + [Tuple(t), v, Int(i)]);
      && (r.Ok? <==> i < |t|)
      && (r.Err? ==> r.error == RangeError)
      && (r.Ok? ==>
        && |r.value| == |s| + 1 && r.value[..|s|] == s && r.value[|s|].Tuple?
        && |r.value[|s|].items| == |t|
        && r.value[|s|].items[i] == v
        && (forall j :: 0 <= j < |t| && j != i ==> r.value[|s|].items[j] == t[j]))
  {
    assert (s + [Tuple(t), v, Int(i)])[..|s| + 2] == s + [Tuple(t), v];
    assert (s + [Tuple(t), v])[..|s| + 1] == s + [Tuple(t)];
    assert (s + [Tuple(t)])[..|s|] == s;
  }

  /** `[]!` fails exactly when the index is beyond the length; otherwise the
      tuple grows by one, holds the value at i, and the elements from i on
      move one place right. */
  lemma TupleInsertSpec(s: seq<Value>, t: seq<Value>, v: Value, i: int)
    requires 0 <= i <= UsizeMax
    ensures var r := TupleInsert(s + [Tuple(t), v, Int(i)]);
      && (r.Ok? <==> i <= |t|)
      && (r.Err? ==> r.error == RangeError)
      && (r.Ok? ==>
        && |r.value| == |s| + 1 && r.value[..|s|] == s && r.value[|s|].Tuple?
        && |r.value[|s|].items| == |t| + 1
        && r.value[|s|].items[i] == v
        && (forall j :: 0 <= j < i ==> r.value[|s|].items[j] == t[j])
        && (forall j :: i < j <= |t| ==> r.value[|s|].items[j] == t[j - 1]))
  {
    assert (s + [Tuple(t), v, Int(i)])[..|s| + 2] == s + [Tuple(t), v];
    assert (s + [Tuple(t), v])[..|s| + 1] == s + [Tuple(t)];
    assert (s + [Tuple(t)])[..|s|] == s;
  }

  /** Copy-on-write: when the same tuple sits in a second slot below, a `,`,
      `tpop`, `[]=` or `[]!` on the upper copy leaves the lower one as it
      was. */
  lemma EarlierHolderUnchanged(s: seq<Value>, t: seq<Value>, v: Value, i: int)
    requires 0 <= i <= UsizeMax
    ensures TuplePush(s + [Tuple(t), Tuple(t), v]).value[|s|] == Tuple(t)
    ensures |t| > 0 ==> TuplePop(s + [Tuple(t), Tuple(t)]).value[|s|] == Tuple(t)
    ensures i < |t| ==> TupleSet(s + [Tuple(t), Tuple(t), v, Int(i)]).value[|s|] == Tuple(t)
    ensures i <= |t| ==> TupleInsert(s + [Tuple(t), Tuple(t), v, Int(i)]).value[|s|] == Tuple(t)
  {
    var s' := s + [Tuple(t)];
    assert s' + [Tuple(t), v] == s + [Tuple(t), Tuple(t), v];
    assert s' + [Tuple(t), v, Int(i)] == s + [Tuple(t), Tuple(t), v, Int(i)];
    assert s' + [Tuple(t)] == s + [Tuple(t), Tuple(t)];
    assert (s' + [Tuple(t), v])[..|s'| + 1] == s' + [Tuple(t)];
    assert (s' + [Tuple(t), v, Int(i)])[..|s'| + 2] == s' + [Tuple(t), v];
    assert (s' + [Tuple(t)])[..|s'|] == s';
  }

  /** `count` (t -- n). */
  function TupleLen(s: seq<Value>): Result<seq<Value>> {
    var pt :- PopTuple(s);
    Ok(pt.0 + [Int(|pt.1|)])
  }

  lemma TupleLenSpec(s: seq<Value>, t: seq<Value>)
    ensures TupleLen(s + [Tuple(t)]) == Ok(s + [Int(|t|)])
  {
    assert (s + [Tuple(t)])[..|s|] == s;
  }

  /** The strings of a tuple whose items are all strings. */
  function Strings(items: seq<Value>): (r: seq<string>)
    requires forall i :: 0 <= i < |items| ==> items[i].Str?
    ensures |r| == |items| && forall i :: 0 <= i < |items| ==> items[i] == Str(r[i])
  {
    if |items| == 0 then [] else [items[0].s] + Strings(items[1..])
  }

  /** The join loop of `[]>$` and `[]>$by`, item by item from the first:
      the separator, if any, goes before every item but the first. */
  function JoinStrings(items: seq<Value>, sep: Option<string>): (r: Result<string>)
    ensures r.Err? ==> r.error == TypeMismatch
    decreases |items|
  {
    if |items| == 0 then Ok("")
    else
      var init :- JoinStrings(items[..|items| - 1], sep);
      var last := items[|items| - 1];
      if !last.Str? then Err(TypeMismatch)
      else Ok(init + (if sep.Some? && |items| > 1 then sep.value else "") + last.s)
  }

  /** The reference reading of a join: the strings with the separator
      between each consecutive two. */
  function Interleave(strs: seq<string>, sep: string): string
    decreases |strs|
  {
    if |strs| == 0 then ""
    else if |strs| == 1 then strs[0]
    else strs[0] + sep + Interleave(strs[1..], sep)
  }

  lemma {:induction false} InterleaveSnoc(strs: seq<string>, x: string, sep: string)
    ensures Interleave(strs + [x], sep) == Interleave(strs, sep) + (if |strs| > 0 then sep else "") + x
    decreases |strs|
  {
    if |strs| > 1 {
      assert (strs + [x])[1..] == strs[1..] + [x];
      InterleaveSnoc(strs[1..], x, sep);
    } else if |strs| == 1 {
      assert (strs + [x])[1..] == [x];
    }
  }

  /** A join fails exactly when some item is not a string; otherwise it is
      the strings separated by `sep` (nothing before the first, nothing for
      an empty tuple), or simply concatenated when there is no separator. */
  lemma {:induction false} JoinSpec(items: seq<Value>, sep: Option<string>)
    ensures JoinStrings(items, sep).Ok? <==> forall i :: 0 <= i < |items| ==> items[i].Str?
    ensures JoinStrings(items, sep).Ok? ==>
      JoinStrings(items, sep).value == Interleave(Strings(items), if sep.Some? then sep.value else "")
    decreases |items|
  {
    if |items| > 0 {
      var init := items[..|items| - 1];
      JoinSpec(init, sep);
      if forall i :: 0 <= i < |items| ==> items[i].Str? {
        assert forall i :: 0 <= i < |init| ==> init[i].Str? by {
          forall i | 0 <= i < |init| ensures init[i].Str? { assert init[i] == items[i]; }
        }
        var strs := Strings(items);
        assert Strings(init) + [items[|items| - 1].s] == strs by {
          var u := Strings(init) + [items[|items| - 1].s];
          assert |u| == |strs|;
          forall i | 0 <= i < |u| ensures u[i] == strs[i] {
            if i < |init| { assert init[i] == items[i]; }
          }
        }
        InterleaveSnoc(Strings(init), items[|items| - 1].s, if sep.Some? then sep.value else "");
      }
    }
  }

  /** The separator of `[]>$by`; `[]>$` has none. */
  function PopSeparator(s: seq<Value>, popSep: bool): Result<(seq<Value>, Option<string>)> {
    if popSep then
      var p :- PopString(s);
      Ok((p.0, Some(p.1)))
    else
      Ok((s, None))
  }

  /** `[]>$` (t -- S) and `[]>$by` (t s -- S). */
  function TupleStringsJoin(s: seq<Value>, popSep: bool): Result<seq<Value>> {
    var ps :- PopSeparator(s, popSep);
    var pt :- PopTuple(ps.0);
    var joined :- JoinStrings(pt.1, ps.1);
    Ok(pt.0 + [Str(joined)])
  }

  /** `tuple` (x1 .. xn n -- t): n within 0..=255, the tuple lists the n
      items in their stack order. */
  function MakeTuple(s: seq<Value>): Result<seq<Value>> {
    var pn :- PopRange(s, 0, 255);
    var rest, n := pn.0, pn.1;
    if |rest| < n then Err(Underflow)
    else Ok(rest[..|rest| - n] + [Tuple(rest[|rest| - n..])])
  }

  /** The count of `untuple`, or nothing for `explode`. */
  function PopCount(s: seq<Value>, popCount: bool): Result<(seq<Value>, int)> {
    if popCount then PopRange(s, 0, 255) else Ok((s, 0))
  }

  /** `untuple` (t n -- x1 .. xn) and `explode` (t -- x1 .. xn n). */
  function TupleExplode(s: seq<Value>, popCount: bool): Result<seq<Value>> {
    var pn :- PopCount(s, popCount);
    var pt :- PopTuple(pn.0);
    var t := pt.1;
    if !popCount then
      if |t| <= 255 then Ok(pt.0 + t + [Int(|t|)]) else Err(RangeError)
    else if |t| == pn.1 then Ok(pt.0 + t)
    else Err(RangeError)
  }

  /** `tuple n` collects the top n items in order (an underflow when there
      are fewer), and `untuple n` on the result gives the stack back. */
  lemma TupleThenUntuple(s: seq<Value>, n: int)
    requires 0 <= n <= 255
    ensures MakeTuple(s + [Int(n)]).Ok? <==> n <= |s|
    ensures n <= |s| ==> MakeTuple(s + [Int(n)]) == Ok(s[..|s| - n] + [Tuple(s[|s| - n..])])
    ensures n <= |s| ==> TupleExplode(MakeTuple(s + [Int(n)]).value + [Int(n)], true) == Ok(s)
  {
    assert (s + [Int(n)])[..|s|] == s;
    if n <= |s| {
      var s' := s[..|s| - n] + [Tuple(s[|s| - n..])];
      assert (s' + [Int(n)])[..|s'|] == s';
      assert s'[..|s| - n] == s[..|s| - n];
      assert s[..|s| - n] + s[|s| - n..] == s;
    }
  }

  /** `untuple n` fails unless the tuple has exactly n items and otherwise
      pushes them in order; `explode` fails on more than 255 items and
      otherwise pushes them and then their count. */
  lemma ExplodeSpec(s: seq<Value>, t: seq<Value>, n: int)
    requires 0 <= n <= 255
    ensures TupleExplode(s + [Tuple(t), Int(n)], true) == if |t| == n then Ok(s + t) else Err(RangeError)
    ensures TupleExplode(s + [Tuple(t)], false) == if |t| <= 255 then Ok(s + t + [Int(|t|)]) else Err(RangeError)
  {
    assert (s + [Tuple(t), Int(n)])[..|s| + 1] == s + [Tuple(t)];
    assert (s + [Tuple(t)])[..|s|] == s;
  }

  // === Atoms ===

  /** `(atom)` (name create -- atom? exists): pushes the atom only when it
      exists (or was just created), then whether it does. */
  function AtomWord(s: seq<Value>, tbl: AtomTable): Result<(seq<Value>, AtomTable)> {
    var pc :- PopBool(s);
    var pn :- PopString(pc.0);
    var found := Get(tbl, pn.1);
    var (tbl', atom) :=
      if pc.1 && found.None? then (var (t2, a) := CreateNamed(tbl, pn.1); (t2, Some(a)))
      else (tbl, found);
    var pushed := match atom case Some(a) => pn.0 + [Atom(a)] case None => pn.0;
    Ok((pushed + [BoolValue(atom.Some?)], tbl'))
  }

  /** `anon` ( -- atom). */
  function AtomAnon(s: seq<Value>, tbl: AtomTable): (seq<Value>, AtomTable) {
    var (tbl', a) := CreateAnon(tbl);
    (s + [Atom(a)], tbl')
  }

  /** `(atom)` without create never grows the table and pushes the atom
      and true exactly when the name is known, false alone otherwise. */
  lemma AtomLookupSpec(s: seq<Value>, name: string, tbl: AtomTable)
    ensures AtomWord(s + [Str(name), BoolValue(false)], tbl) ==
      Ok((if name in tbl.names then s + [Atom(tbl.names[name]), BoolValue(true)] else s + [BoolValue(false)], tbl))
  {
    var s1 := s + [Str(name)];
    assert s + [Str(name), BoolValue(false)] == s1 + [BoolValue(false)];
    PushThenPop(s1, false, 0, name, Empty);
    PushThenPop(s, false, 0, name, Empty);
    if name in tbl.names {
      assert s + [Atom(tbl.names[name])] + [BoolValue(true)] == s + [Atom(tbl.names[name]), BoolValue(true)];
    }
  }

  /** `(atom)` with create (any non-zero flag) always pushes the atom the
      name is registered under, then true; a known name leaves the table
      alone, and a second call with the same name pushes the same atom and
      leaves the table alone. */
  lemma AtomCreateOnce(s: seq<Value>, name: string, tbl: AtomTable, create: int)
    requires Valid(tbl) && create != 0
    ensures var r := AtomWord(s + [Str(name), Int(create)], tbl);
      && r.Ok?
      && name in r.value.1.names
      && r.value.0 == s + [Atom(r.value.1.names[name]), BoolValue(true)]
      && (name in tbl.names ==> r.value.1 == tbl)
      && Valid(r.value.1)
      && AtomWord(s + [Str(name), Int(create)], r.value.1) == Ok((r.value.0, r.value.1))
  {
    assert s + [Str(name), Int(create)] == (s + [Str(name)]) + [Int(create)];
    PushThenPop(s + [Str(name)], true, create, name, Empty);
    PushThenPop(s, true, create, name, Empty);
    assert PopBool(s + [Str(name), Int(create)]) == Ok((s + [Str(name)], true));
    CreateNamedOnce(tbl, name);
    var a := CreateNamed(tbl, name).1;
    assert s + [Atom(a)] + [BoolValue(true)] == s + [Atom(a), BoolValue(true)];
  }

  /** Named atoms are interned: `(atom)` with create gives different names
      different atoms. */
  lemma AtomNamesDistinct(s: seq<Value>, n1: string, n2: string, tbl: AtomTable)
    requires Valid(tbl) && n1 != n2
    ensures var r1 := AtomWord(s + [Str(n1), BoolValue(true)], tbl);
      var r2 := AtomWord(r1.value.0 + [Str(n2), BoolValue(true)], r1.value.1);
      && r2.Ok?
      && r1.value.0[|s|] != r2.value.0[|s| + 2]
  {
    AtomCreateOnce(s, n1, tbl, -1);
    var r1 := AtomWord(s + [Str(n1), BoolValue(true)], tbl);
    CreateNamedOnce(r1.value.1, n2);
    AtomCreateOnce(r1.value.0, n2, r1.value.1, -1);
  }

  // === Persistent maps ===

  /** `hmap@` (k m -- v) and `hmap@?` (k m -- v true | false). */
  function HmapFetch(s: seq<Value>, chk: bool): Result<seq<Value>> {
    var pm :- PopHashmap(s);
    var pk :- PopKey(pm.0);
    var rest := pk.0;
    Ok(match Lookup(pm.1, pk.1)
       case Some(v) => rest + [v] + (if chk then [BoolValue(true)] else [])
       case None => rest + [if chk then BoolValue(false) else Null])
  }

  /** `hmap-` (k m -- m'), `hmap-?` (k m -- m' existed) and `hmap@-`
      (k m -- m' v): the new map always comes first. */
  function HmapDelete(s: seq<Value>, chk: bool, read: bool): Result<seq<Value>> {
    var pm :- PopHashmap(s);
    var pk :- PopKey(pm.0);
    var (t', removed) := Remove(pm.1, pk.1);
    var s1 := pk.0 + [MapValue(t')];
    var s2 := match removed
      case Some(v) => if read then s1 + [v] else s1
      case None => if read && !chk then s1 + [Null] else s1;
    Ok(if chk then s2 + [BoolValue(removed.Some?)] else s2)
  }

  /** `hmap!` (v k m -- m') replaces only; `hmap!+` adds or replaces. */
  function HmapStore(s: seq<Value>, add: bool): Result<seq<Value>> {
    var pm :- PopHashmap(s);
    var pk :- PopKey(pm.0);
    var pv :- Pop(pk.0);
    var t' := if add then Set(pm.1, pk.1, pv.1) else Replace(pm.1, pk.1, pv.1);
    Ok(pv.0 + [MapValue(t')])
  }

  /** `hmapempty?` (m -- ?). */
  function HmapIsEmpty(s: seq<Value>): Result<seq<Value>> {
    var pm :- PopHashmap(s);
    Ok(pm.0 + [BoolValue(pm.1.Empty?)])
  }

  /** `hmapunpack` (m -- k v l r true | false). */
  function HmapDecompose(s: seq<Value>): Result<seq<Value>> {
    var pm :- PopHashmap(s);
    match pm.1
    case Empty => Ok(pm.0 + [BoolValue(false)])
    case Node(k, v, l, r) => Ok(pm.0 + [k, v, MapValue(l), MapValue(r), BoolValue(true)])
  }

  lemma MapStack(s: seq<Value>, k: Value, t: Tree)
    ensures PopHashmap(s + [k, MapValue(t)]) == Ok((s + [k], t))
    ensures (s + [k])[..|s|] == s
  {
    assert (s + [k, MapValue(t)])[..|s| + 1] == s + [k];
  }

  /** `hmap@` pushes the value or null; `hmap@?` the value and true, or
      false alone; a key of a kind without an order is a key error. */
  lemma HmapFetchSpec(s: seq<Value>, k: Value, t: Tree)
    requires Ordered(t)
    ensures !IsKey(k) ==> HmapFetch(s + [k, MapValue(t)], false) == Err(KeyError)
    ensures !IsKey(k) ==> HmapFetch(s + [k, MapValue(t)], true) == Err(KeyError)
    ensures IsKey(k) ==>
      HmapFetch(s + [k, MapValue(t)], false) == Ok(s + [if k in Contents(t) then Contents(t)[k] else Null])
    ensures IsKey(k) ==>
      HmapFetch(s + [k, MapValue(t)], true) ==
      Ok(if k in Contents(t) then s + [Contents(t)[k], BoolValue(true)] else s + [BoolValue(false)])
  {
    MapStack(s, k, t);
    if IsKey(k) {
      LookupCorrect(t, k);
      assert PopKey(s + [k]) == Ok((s, k));
      if k in Contents(t) {
        var v := Contents(t)[k];
        assert s + [v] + [BoolValue(true)] == s + [v, BoolValue(true)];
        assert s + [v] + [] == s + [v];
      }
    }
  }

  /** The delete words push the map without the key first; `hmap@-` then
      the removed value or null, `hmap-?` whether the key was there. */
  lemma HmapDeleteSpec(s: seq<Value>, k: Value, t: Tree, chk: bool, read: bool)
    requires Ordered(t) && IsKey(k) && !(chk && read)
    ensures var r := HmapDelete(s + [k, MapValue(t)], chk, read);
      var c := Contents(t);
      var t' := Remove(t, k).0;
      && r.Ok?
      && r.value == s + [MapValue(t')]
                      + (if read then [if k in c then c[k] else Null] else [])
                      + (if chk then [BoolValue(k in c)] else [])
      && Ordered(t') && Contents(t') == c - {k}
  {
    MapStack(s, k, t);
    RemoveCorrect(t, k);
    assert PopKey(s + [k]) == Ok((s, k));
    var c := Contents(t);
    var s1 := s + [MapValue(Remove(t, k).0)];
    if read {
      var x := if k in c then c[k] else Null;
      assert s1 + [x] + [] == s1 + [x];
    } else if chk {
      assert s1 + [] + [BoolValue(k in c)] == s1 + [BoolValue(k in c)];
    } else {
      assert s1 + [] + [] == s1;
    }
  }

  /** `hmap!+` then `hmap@` with the same key reads back the stored value;
      `hmap!` on an absent key leaves the map as it was. */
  lemma HmapStoreThenFetch(s: seq<Value>, v: Value, k: Value, t: Tree)
    requires Ordered(t) && IsKey(k)
    ensures var r := HmapStore(s + [v, k, MapValue(t)], true);
      && r.Ok? && r.value == s + [MapValue(Set(t, k, v))]
      && HmapFetch(s + [k, MapValue(Set(t, k, v))], false) == Ok(s + [v])
    ensures k !in Contents(t) ==> HmapStore(s + [v, k, MapValue(t)], false) == Ok(s + [MapValue(t)])
  {
    assert (s + [v, k, MapValue(t)])[..|s| + 2] == s + [v, k];
    assert (s + [v, k])[..|s| + 1] == s + [v];
    assert (s + [v])[..|s|] == s;
    SetCorrect(t, k, v);
    HmapFetchSpec(s, k, Set(t, k, v));
    KeysOfContents(t);
    ReplaceIsSetOrNothing(t, k, v);
  }

  lemma {:induction false} EmptyIffNoContents(t: Tree)
    ensures t.Empty? <==> Contents(t) == map[]
  {
    if t.Node? {
      assert t.key in Contents(t);
    }
  }

  /** `hmapempty?` is true exactly for the map with no entries. */
  lemma HmapIsEmptySpec(s: seq<Value>, t: Tree)
    ensures HmapIsEmpty(s + [MapValue(t)]) == Ok(s + [BoolValue(Contents(t) == map[])])
  {
    assert (s + [MapValue(t)])[..|s|] == s;
    EmptyIffNoContents(t);
  }

  /** `hmapunpack` pushes the root's key and value and its two subtrees
      (empty ones as null), then true; an empty map gives false alone. */
  lemma HmapDecomposeSpec(s: seq<Value>, t: Tree)
    ensures HmapDecompose(s + [MapValue(t)]) ==
      if t.Empty? then Ok(s + [BoolValue(false)])
      else Ok(s + [t.key, t.value, MapValue(t.left), MapValue(t.right), BoolValue(true)])
  {
    assert (s + [MapValue(t)])[..|s|] == s;
  }
}
