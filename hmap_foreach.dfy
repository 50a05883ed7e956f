/** `hmapforeach` (m body -- ?): runs a body over the entries of a map
    through the loop protocol. Before each run `PreExec` pushes the next
    entry's key and value; the body consumes them and leaves a flag;
    `PostExec` pops the flag and goes on only if it is true and entries
    remain; `Finalize` pushes the last flag. The trampoline that drives the
    protocol is the loop of `InterpretHmapForeach`. */
module HmapForeach {
  import opened Values
  import opened HashMapTree
  import opened Pops
  import opened Stacks

  /** The body's answer for an entry. */
  function Flag(body: (Value, Value) -> bool, e: (Value, Value)): bool {
    body(e.0, e.1)
  }

  /** Whether the body answers true for every entry. */
  predicate AllTrue(body: (Value, Value) -> bool, es: seq<(Value, Value)>) {
    forall i :: 0 <= i < |es| ==> Flag(body, es[i])
  }

  /** How many times the body runs over the entries: up to and including
      the first entry it answers false for, or all of them. */
  function Runs(body: (Value, Value) -> bool, es: seq<(Value, Value)>): (r: nat)
    ensures r <= |es|
    ensures |es| > 0 ==> r > 0
  {
    if es == [] then 0
    else if !Flag(body, es[0]) then 1
    else 1 + Runs(body, es[1..])
  }

  /** A body that always answers true runs once per entry. */
  lemma {:induction false} RunsAllTrue(body: (Value, Value) -> bool, es: seq<(Value, Value)>)
    requires AllTrue(body, es)
    ensures Runs(body, es) == |es|
    decreases |es|
  {
    if es != [] {
      assert forall i :: 0 <= i < |es[1..]| ==> es[1..][i] == es[i + 1];
      RunsAllTrue(body, es[1..]);
    }
  }

  /** A body that first answers false on entry i stops right after it. */
  lemma {:induction false} RunsFirstFalse(body: (Value, Value) -> bool, es: seq<(Value, Value)>, i: nat)
    requires i < |es| && !Flag(body, es[i])
    requires AllTrue(body, es[..i])
    ensures Runs(body, es) == i + 1
    decreases i
  {
    if i > 0 {
      assert Flag(body, es[..i][0]);
      assert es[1..][..i - 1] == es[..i][1..];
      assert forall j :: 0 <= j < i - 1 ==> es[..i][1..][j] == es[..i][j + 1];
      RunsFirstFalse(body, es[1..], i - 1);
    }
  }

  /** The last flag the body leaves is true exactly when it answered true
      for every entry; a loop stopped early always ends on false. The
      converse fails: see `LastRefusedFullPass`. */
  lemma {:induction false} LastFlagIffAllTrue(body: (Value, Value) -> bool, es: seq<(Value, Value)>)
    requires |es| > 0
    ensures Flag(body, es[Runs(body, es) - 1]) <==> AllTrue(body, es)
    ensures Runs(body, es) < |es| ==> !AllTrue(body, es)
    decreases |es|
  {
    if Flag(body, es[0]) && |es| > 1 {
      LastFlagIffAllTrue(body, es[1..]);
      assert es[1..][Runs(body, es[1..]) - 1] == es[Runs(body, es) - 1];
      if AllTrue(body, es[1..]) {
        forall i | 0 <= i < |es| ensures Flag(body, es[i]) {
          if i > 0 { assert es[i] == es[1..][i - 1]; }
        }
      } else {
        var j :| 0 <= j < |es[1..]| && !Flag(body, es[1..][j]);
        assert es[1..][j] == es[j + 1];
      }
    }
  }

  /** A body that refuses only the last entry visits every entry and still
      leaves false as the last flag: a full pass does not mean true. */
  lemma LastRefusedFullPass(body: (Value, Value) -> bool, es: seq<(Value, Value)>)
    requires |es| > 0 && !Flag(body, es[|es| - 1])
    requires AllTrue(body, es[..|es| - 1])
    ensures Runs(body, es) == |es|
    ensures !Flag(body, es[Runs(body, es) - 1]) && !AllTrue(body, es)
  {
    RunsFirstFalse(body, es, |es| - 1);
  }

  /** The loop state of one `hmapforeach`: the entries still to visit, in
      iteration order, and the last flag the body left. */
  class HmapIterCont {
    var iter: seq<(Value, Value)>
    var ok: bool

    constructor (t: Tree)
      ensures iter == Entries(t) && ok
    {
      iter := Entries(t);
      ok := true;
    }

    /** `pre_exec`: pushes the next entry's key, then its value, and says
        whether there was one. */
    method PreExec(st: Stack) returns (r: bool)
      modifies this, st
      ensures r <==> old(iter) != []
      ensures r ==> iter == old(iter)[1..] && st.items == old(st.items) + [old(iter)[0].0, old(iter)[0].1]
      ensures !r ==> iter == old(iter) && st.items == old(st.items)
      ensures ok == old(ok) && st.atoms == old(st.atoms)
    {
      if iter == [] {
        return false;
      }
      var entry := iter[0];
      iter := iter[1..];
      st.Push(entry.0);
      st.Push(entry.1);
      r := true;
    }

    /** `post_exec`: pops the body's flag and goes on only if it is true
        and another entry remains. */
    method PostExec(st: Stack) returns (r: Result<bool>)
      modifies this, st
      ensures r.Ok? <==> PopBool(old(st.items)).Ok?
      ensures r.Err? ==> r.error == PopBool(old(st.items)).error
      ensures r.Ok? ==> var p := PopBool(old(st.items)).value;
        && st.items == p.0 && ok == p.1
        && r.value == (p.1 && iter != [])
      ensures iter == old(iter) && st.atoms == old(st.atoms)
    {
      var flag :- st.PopBool();
      ok := flag;
      r := Ok(ok && iter != []);
    }

    /** `finalize`: pushes the last flag. */
    method Finalize(st: Stack) returns (r: Result<bool>)
      modifies st
      ensures r == Ok(true) && st.items == old(st.items) + [BoolValue(ok)]
      ensures st.atoms == old(st.atoms)
    {
      st.PushBool(ok);
      r := Ok(true);
    }
  }

  /** The body continuation, seen from the loop: it consumes the value and
      the key on top of the stack and leaves its flag for them. */
  method RunBody(st: Stack, body: (Value, Value) -> bool) returns (seen: (Value, Value))
    requires |st.items| >= 2
    modifies st
    ensures var n := |old(st.items)|;
      && seen == (old(st.items)[n - 2], old(st.items)[n - 1])
      && st.items == old(st.items)[..n - 2] + [BoolValue(Flag(body, seen))]
    ensures st.atoms == old(st.atoms)
  {
    var v := st.Pop();
    var k := st.Pop();
    seen := (k.value, v.value);
    st.PushBool(body(seen.0, seen.1));
  }

  /** The trampoline over the loop protocol, from the first `PreExec` to
      `Finalize`, for a loop with at least one entry to visit. */
  method Drive(st: Stack, loop: HmapIterCont, body: (Value, Value) -> bool)
      returns (seen: seq<(Value, Value)>)
    requires loop.iter != [] && loop.ok
    modifies st, loop
    ensures seen == old(loop.iter)[..Runs(body, old(loop.iter))]
    ensures st.items == old(st.items) + [BoolValue(AllTrue(body, old(loop.iter)))]
    ensures st.atoms == old(st.atoms)
  {
    ghost var below := st.items;
    ghost var es := loop.iter;
    seen := [];
    var more := loop.PreExec(st);
    var i := 0;
    while more
      invariant i <= |es| && (more ==> i < |es|)
      invariant loop.iter == es[if more then i + 1 else i..]
      invariant seen == es[..i]
      invariant !more ==> i > 0 && st.items == below
      invariant AllTrue(body, es[..if more then i else i - 1])
      invariant more ==> loop.ok && st.items == below + [es[i].0, es[i].1]
      invariant !more ==> loop.ok == Flag(body, es[i - 1]) && (loop.ok ==> i == |es|)
      invariant st.atoms == old(st.atoms)
      decreases |loop.iter| + (if more then 1 else 0)
    {
      var entry := RunBody(st, body);
      assert es[..i + 1] == es[..i] + [es[i]];
      seen := seen + [entry];
      i := i + 1;
      var c := loop.PostExec(st);
      if c.value {
        more := loop.PreExec(st);
      } else {
        more := false;
      }
    }
    if loop.ok {
      assert es[..i] == es;
      RunsAllTrue(body, es);
    } else {
      RunsFirstFalse(body, es, i - 1);
      LastFlagIffAllTrue(body, es);
    }
    var done := loop.Finalize(st);
  }

  /** `hmapforeach`, popping the body and then the map. An empty map runs
      nothing and pushes nothing. Otherwise the body sees the entries in
      iteration order, each as key then value, up to and including the first
      it answers false for; then the last flag is pushed, which is true
      exactly when the body answered true for every entry. */
  method InterpretHmapForeach(st: Stack, body: (Value, Value) -> bool)
      returns (r: Result<()>, seen: seq<(Value, Value)>)
    modifies st
    ensures r.Ok? <==> PopCont(old(st.items)).Ok? && PopHashmap(PopCont(old(st.items)).value.0).Ok?
    ensures r.Err? ==> r.error == if PopCont(old(st.items)).Err? then PopCont(old(st.items)).error
      else PopHashmap(PopCont(old(st.items)).value.0).error
    ensures r.Ok? ==>
      var p := PopHashmap(PopCont(old(st.items)).value.0).value;
      var es := Entries(p.1);
      && seen == es[..Runs(body, es)]
      && (p.1.Empty? ==> st.items == p.0)
      && (p.1.Node? ==> st.items == p.0 + [BoolValue(AllTrue(body, es))])
    ensures st.atoms == old(st.atoms)
  {
    seen := [];
    var func :- st.PopCont();
    var m :- st.PopHashmap();
    if m.Empty? {
      return Ok(()), seen;
    }
    var loop := new HmapIterCont(m);
    seen := Drive(st, loop, body);
    r := Ok(());
  }
}
