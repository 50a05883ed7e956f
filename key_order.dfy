/** The total order on map keys. Only null, integers, strings and atoms can
    be keys; kinds come first (null < integer < string < atom), then the
    value within a kind (strings lexicographically by character). */
module KeyOrder {
  import opened Values

  /** The kinds a map key may have: exactly the kinds `eqv?` compares by
      value, the ones with a value order. */
  predicate IsKey(v: Value) {
    ComparedByValue(v)
  }

  function Rank(v: Value): nat {
    match v
    case Null => 0
    case Int(_) => 1
    case Str(_) => 2
    case _ => 3
  }

  /** Lexicographic order on strings: a proper prefix comes first. */
  predicate StrLess(a: string, b: string)
    decreases |a|
  {
    if |a| == 0 then |b| > 0
    else if |b| == 0 then false
    else a[0] < b[0] || (a[0] == b[0] && StrLess(a[1..], b[1..]))
  }

  predicate SameKindLess(a: Value, b: Value) {
    match a
    case Int(x) => b.Int? && x < b.i
    case Str(x) => b.Str? && StrLess(x, b.s)
    case Atom(x) => b.Atom? && x < b.id
    case _ => false
  }

  /** The strict order on keys used by the map. */
  predicate Less(a: Value, b: Value) {
    IsKey(a) && IsKey(b) &&
    (Rank(a) < Rank(b) || (Rank(a) == Rank(b) && SameKindLess(a, b)))
  }

  lemma {:induction false} StrLessIrreflexive(a: string)
    ensures !StrLess(a, a)
    decreases |a|
  {
    if |a| > 0 {
      StrLessIrreflexive(a[1..]);
    }
  }

  lemma {:induction false} StrLessTransitive(a: string, b: string, c: string)
    requires StrLess(a, b) && StrLess(b, c)
    ensures StrLess(a, c)
    decreases |a|
  {
    if |a| > 0 && a[0] == b[0] && b[0] == c[0] {
      StrLessTransitive(a[1..], b[1..], c[1..]);
    }
  }

  lemma {:induction false} StrLessTotal(a: string, b: string)
    requires a != b
    ensures StrLess(a, b) || StrLess(b, a)
    decreases |a|
  {
    if |a| > 0 && |b| > 0 && a[0] == b[0] {
      assert a == [a[0]] + a[1..] && b == [b[0]] + b[1..];
      StrLessTotal(a[1..], b[1..]);
    }
  }

  lemma LessIrreflexive(a: Value)
    ensures !Less(a, a)
  {
    if a.Str? {
      StrLessIrreflexive(a.s);
    }
  }

  lemma LessTransitive(a: Value, b: Value, c: Value)
    requires Less(a, b) && Less(b, c)
    ensures Less(a, c)
  {
    if a.Str? && b.Str? && c.Str? {
      StrLessTransitive(a.s, b.s, c.s);
    }
  }

  lemma LessAsymmetric(a: Value, b: Value)
    requires Less(a, b)
    ensures !Less(b, a)
  {
    if Less(b, a) {
      LessTransitive(a, b, a);
      LessIrreflexive(a);
    }
  }

  /** Two distinct keys are always ordered one way or the other. */
  lemma LessTotal(a: Value, b: Value)
    requires IsKey(a) && IsKey(b) && a != b
    ensures Less(a, b) || Less(b, a)
  {
    if a.Str? && b.Str? {
      StrLessTotal(a.s, b.s);
    }
  }
}
