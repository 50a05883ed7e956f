/** The atom table: named atoms are interned by name, anonymous atoms are
    fresh identities. Both draw their identities from one counter, so an
    anonymous atom is never equal to a named one. */
module Atoms {
  import opened Values

  datatype AtomTable = AtomTable(names: map<string, nat>, next: nat)

  /** Every interned identity was drawn from the counter, and no two names
      share one. */
  ghost predicate Valid(t: AtomTable) {
    && (forall n :: n in t.names ==> t.names[n] < t.next)
    && (forall n, m :: n in t.names && m in t.names && n != m ==> t.names[n] != t.names[m])
  }

  function Init(): (t: AtomTable)
    ensures Valid(t)
  {
    AtomTable(map[], 0)
  }

  /** `get`: looks a name up without allocating. */
  function Get(t: AtomTable, name: string): Option<nat> {
    if name in t.names then Some(t.names[name]) else None
  }

  /** `create_named`: insert-if-absent. */
  function CreateNamed(t: AtomTable, name: string): (AtomTable, nat) {
    if name in t.names then (t, t.names[name])
    else (AtomTable(t.names[name := t.next], t.next + 1), t.next)
  }

  /** `create_anon`: a fresh identity that no name maps to. */
  function CreateAnon(t: AtomTable): (AtomTable, nat) {
    (AtomTable(t.names, t.next + 1), t.next)
  }

  /** Creating a name keeps the table valid, finds the atom under that name
      afterwards, and a second creation of the same name changes nothing and
      returns the same atom. */
  lemma CreateNamedOnce(t: AtomTable, name: string)
    requires Valid(t)
    ensures var (t1, a) := CreateNamed(t, name);
      && Valid(t1)
      && Get(t1, name) == Some(a)
      && CreateNamed(t1, name) == (t1, a)
      && (forall n :: n in t.names ==> n in t1.names && t1.names[n] == t.names[n])
  {
    var (t1, a) := CreateNamed(t, name);
    if name !in t.names {
      forall n, m | n in t1.names && m in t1.names && n != m
        ensures t1.names[n] != t1.names[m]
      {
        if n != name && m != name {
          assert t1.names[n] == t.names[n] && t1.names[m] == t.names[m];
        }
      }
    }
  }

  /** Two anonymous atoms in a row are distinct, and neither is the atom of
      any name, whether the name was created before or after them. */
  lemma AnonFresh(t: AtomTable, name: string)
    requires Valid(t)
    ensures var (t1, a) := CreateAnon(t);
      var (t2, b) := CreateAnon(t1);
      var (t3, c) := CreateNamed(t2, name);
      && Valid(t1) && Valid(t2) && Valid(t3)
      && a != b
      && (forall n :: n in t3.names ==> t3.names[n] != a && t3.names[n] != b)
  {
    var (t1, a) := CreateAnon(t);
    var (t2, b) := CreateAnon(t1);
    CreateNamedOnce(t2, name);
  }
}
