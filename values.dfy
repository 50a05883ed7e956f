/** The values held in the interpreter's stack slots, their type tags and the
    `eqv?` comparison. */
module Values {

  datatype Option<+T> = None | Some(value: T)

  /** One stack slot. Tuples and strings are values (a later edit through one
      holder is never seen by another); a box is an object, so two slots that
      hold the same box see each other's stores. An empty map is `Null`. */
  datatype Value =
    | Null
    | Int(i: int)
    | Str(s: string)
    | Tuple(items: seq<Value>)
    | Atom(id: nat)
    | BoxRef(box: Box)
    | HMap(root: Tree)
    | Cont(cont: nat)

  /** A node of the persistent map; `Empty` is the absent root. */
  datatype Tree = Empty | Node(key: Value, value: Value, left: Tree, right: Tree)

  /** A shared mutable cell holding one value. */
  class Box {
    var contents: Value

    constructor (v: Value)
      ensures contents == v
    {
      contents := v;
    }
  }

  datatype ValueType = NullType | IntType | StringType | TupleType | AtomType | SharedBoxType | HashMapType | ContType

  function TypeOf(v: Value): ValueType {
    match v
    case Null => NullType
    case Int(_) => IntType
    case Str(_) => StringType
    case Tuple(_) => TupleType
    case Atom(_) => AtomType
    case BoxRef(_) => SharedBoxType
    case HMap(_) => HashMapType
    case Cont(_) => ContType
  }

  /** Booleans are integers: true is -1, false is 0. */
  function BoolValue(b: bool): Value {
    Int(if b then -1 else 0)
  }

  /** The kinds `eqv?` compares by value. */
  predicate ComparedByValue(v: Value) {
    v.Null? || v.Int? || v.Str? || v.Atom?
  }

  /** `eqv?`: equal tags, then per tag: null always, atoms, integers and
      strings by value, every other kind never. */
  function Eqv(x: Value, y: Value): (r: bool)
    ensures r ==> TypeOf(x) == TypeOf(y)
    ensures r <==> x == y && ComparedByValue(x)
  {
    if TypeOf(x) == TypeOf(y) then
      match x
      case Null => true
      case Atom(a) => a == y.id
      case Int(n) => n == y.i
      case Str(s) => s == y.s
      case _ => false
    else
      false
  }

  /** Two boxes are never `eqv?`, whatever they hold, even the same box. */
  lemma EqvBoxes(a: Box, b: Box)
    ensures !Eqv(BoxRef(a), BoxRef(b))
  {
  }

  /** `eqv?` is symmetric. */
  lemma EqvSymmetric(x: Value, y: Value)
    ensures Eqv(x, y) == Eqv(y, x)
  {
  }
}
