/** The interpreter's operand stack, which also owns the atom table. Every
    typed pop agrees with its counterpart in Pops; on a failure only the
    error kind is promised, since a failure aborts the whole run. */
module Stacks {
  import opened Values
  import opened KeyOrder
  import opened Pops
  import opened Atoms

  class Stack {
    var items: seq<Value>
    var atoms: AtomTable

    constructor ()
      ensures items == [] && atoms == Atoms.Init()
    {
      items := [];
      atoms := Atoms.Init();
    }

    method Push(v: Value)
      modifies this
      ensures items == old(items) + [v] && atoms == old(atoms)
    {
      items := items + [v];
    }

    method PushBool(b: bool)
      modifies this
      ensures items == old(items) + [BoolValue(b)] && atoms == old(atoms)
    {
      Push(BoolValue(b));
    }

    /** `push_opt_raw` of a map root: null for the empty map. */
    method PushMap(t: Tree)
      modifies this
      ensures items == old(items) + [MapValue(t)] && atoms == old(atoms)
    {
      if t.Empty? {
        Push(Null);
      } else {
        Push(HMap(t));
      }
    }

    method Pop() returns (r: Result<Value>)
      modifies this
      ensures r == Popped(Pops.Pop(old(items)))
      ensures r.Ok? ==> items == Pops.Pop(old(items)).value.0
      ensures r.Err? ==> items == old(items)
      ensures atoms == old(atoms)
    {
      if |items| == 0 {
        return Err(Underflow);
      }
      r := Ok(items[|items| - 1]);
      items := items[..|items| - 1];
    }

    method PopInt() returns (r: Result<int>)
      modifies this
      ensures r == Popped(Pops.PopInt(old(items)))
      ensures r.Ok? ==> items == Pops.PopInt(old(items)).value.0
      ensures atoms == old(atoms)
    {
      var v :- Pop();
      if v.Int? {
        r := Ok(v.i);
      } else {
        r := Err(TypeMismatch);
      }
    }

    method PopBool() returns (r: Result<bool>)
      modifies this
      ensures r == Popped(Pops.PopBool(old(items)))
      ensures r.Ok? ==> items == Pops.PopBool(old(items)).value.0
      ensures atoms == old(atoms)
    {
      var n :- PopInt();
      r := Ok(n != 0);
    }

    /** `pop_smallint_range(lo, hi)`. */
    method PopRange(lo: int, hi: int) returns (r: Result<int>)
      modifies this
      ensures r == Popped(Pops.PopRange(old(items), lo, hi))
      ensures r.Ok? ==> items == Pops.PopRange(old(items), lo, hi).value.0
      ensures atoms == old(atoms)
    {
      var n :- PopInt();
      if lo <= n <= hi {
        r := Ok(n);
      } else {
        r := Err(RangeError);
      }
    }

    method PopUsize() returns (r: Result<int>)
      modifies this
      ensures r == Popped(Pops.PopUsize(old(items)))
      ensures r.Ok? ==> items == Pops.PopUsize(old(items)).value.0
      ensures atoms == old(atoms)
    {
      r := PopRange(0, UsizeMax);
    }

    method PopString() returns (r: Result<string>)
      modifies this
      ensures r == Popped(Pops.PopString(old(items)))
      ensures r.Ok? ==> items == Pops.PopString(old(items)).value.0
      ensures atoms == old(atoms)
    {
      var v :- Pop();
      if v.Str? {
        r := Ok(v.s);
      } else {
        r := Err(TypeMismatch);
      }
    }

    method PopTuple() returns (r: Result<seq<Value>>)
      modifies this
      ensures r == Popped(Pops.PopTuple(old(items)))
      ensures r.Ok? ==> items == Pops.PopTuple(old(items)).value.0
      ensures atoms == old(atoms)
    {
      var v :- Pop();
      if v.Tuple? {
        r := Ok(v.items);
      } else {
        r := Err(TypeMismatch);
      }
    }

    method PopBox() returns (r: Result<Box>)
      modifies this
      ensures r == Popped(Pops.PopBox(old(items)))
      ensures r.Ok? ==> items == Pops.PopBox(old(items)).value.0
      ensures atoms == old(atoms)
    {
      var v :- Pop();
      if v.BoxRef? {
        r := Ok(v.box);
      } else {
        r := Err(TypeMismatch);
      }
    }

    method PopCont() returns (r: Result<nat>)
      modifies this
      ensures r == Popped(Pops.PopCont(old(items)))
      ensures r.Ok? ==> items == Pops.PopCont(old(items)).value.0
      ensures atoms == old(atoms)
    {
      var v :- Pop();
      if v.Cont? {
        r := Ok(v.cont);
      } else {
        r := Err(TypeMismatch);
      }
    }

    method PopHashmap() returns (r: Result<Tree>)
      modifies this
      ensures r == Popped(Pops.PopHashmap(old(items)))
      ensures r.Ok? ==> items == Pops.PopHashmap(old(items)).value.0
      ensures atoms == old(atoms)
    {
      var v :- Pop();
      match v
      case Null => r := Ok(Empty);
      case HMap(t) => r := Ok(t);
      case _ => r := Err(TypeMismatch);
    }

    /** `HashMapTreeKey::new(stack.pop()?)`. */
    method PopKey() returns (r: Result<Value>)
      modifies this
      ensures r == Popped(Pops.PopKey(old(items)))
      ensures r.Ok? ==> items == Pops.PopKey(old(items)).value.0
      ensures atoms == old(atoms)
    {
      var v :- Pop();
      if IsKey(v) {
        r := Ok(v);
      } else {
        r := Err(KeyError);
      }
    }
  }
}
