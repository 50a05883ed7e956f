/** Error kinds and the typed pops of the operand stack, as functions on the
    stack's contents (bottom first, top last). Each returns the remaining
    stack and the popped item, or the kind of failure. */
module Pops {
  import opened Values
  import opened KeyOrder

  datatype Error = TypeMismatch | Underflow | RangeError | KeyError

  datatype Result<+T> = Ok(value: T) | Err(error: Error) {
    predicate IsFailure() {
      Err?
    }

    function PropagateFailure<U>(): Result<U>
      requires Err?
    {
      Err(error)
    }

    function Extract(): T
      requires Ok?
    {
      value
    }
  }

  /** The largest `usize` (64-bit targets). */
  const UsizeMax: int := 0xFFFF_FFFF_FFFF_FFFF
  const U32Max: int := 0xFFFF_FFFF

  /** The popped item of a pop's result, without the remaining stack. */
  function Popped<T>(p: Result<(seq<Value>, T)>): Result<T> {
    match p
    case Ok(x) => Ok(x.1)
    case Err(e) => Err(e)
  }

  function Pop(s: seq<Value>): (r: Result<(seq<Value>, Value)>)
    ensures r.Ok? <==> |s| > 0
    ensures r.Ok? ==> s == r.value.0 + [r.value.1]
    ensures r.Err? ==> r.error == Underflow
  {
    if |s| == 0 then Err(Underflow) else Ok((s[..|s| - 1], s[|s| - 1]))
  }

  function PopInt(s: seq<Value>): (r: Result<(seq<Value>, int)>)
    ensures r.Ok? <==> |s| > 0 && s[|s| - 1].Int?
    ensures r.Ok? ==> s == r.value.0 + [Int(r.value.1)]
    ensures r.Err? ==> r.error == if |s| == 0 then Underflow else TypeMismatch
  {
    var p :- Pop(s);
    if p.1.Int? then Ok((p.0, p.1.i)) else Err(TypeMismatch)
  }

  /** Any non-zero integer reads as true. */
  function PopBool(s: seq<Value>): (r: Result<(seq<Value>, bool)>)
    ensures r.Ok? <==> |s| > 0 && s[|s| - 1].Int?
    ensures r.Ok? ==> s == r.value.0 + [s[|s| - 1]] && r.value.1 == (s[|s| - 1].i != 0)
    ensures r.Err? ==> r.error == if |s| == 0 then Underflow else TypeMismatch
  {
    var p :- PopInt(s);
    Ok((p.0, p.1 != 0))
  }

  /** An integer within `lo..=hi`; a type mismatch or a range error otherwise. */
  function PopRange(s: seq<Value>, lo: int, hi: int): (r: Result<(seq<Value>, int)>)
    ensures r.Ok? <==> |s| > 0 && s[|s| - 1].Int? && lo <= s[|s| - 1].i <= hi
    ensures r.Ok? ==> s == r.value.0 + [Int(r.value.1)]
    ensures r.Err? && |s| > 0 && s[|s| - 1].Int? ==> r.error == RangeError
  {
    var p :- PopInt(s);
    if lo <= p.1 <= hi then Ok(p) else Err(RangeError)
  }

  function PopUsize(s: seq<Value>): Result<(seq<Value>, int)> {
    PopRange(s, 0, UsizeMax)
  }

  function PopString(s: seq<Value>): (r: Result<(seq<Value>, string)>)
    ensures r.Ok? <==> |s| > 0 && s[|s| - 1].Str?
    ensures r.Ok? ==> s == r.value.0 + [Str(r.value.1)]
    ensures r.Err? ==> r.error == if |s| == 0 then Underflow else TypeMismatch
  {
    var p :- Pop(s);
    if p.1.Str? then Ok((p.0, p.1.s)) else Err(TypeMismatch)
  }

  function PopTuple(s: seq<Value>): (r: Result<(seq<Value>, seq<Value>)>)
    ensures r.Ok? <==> |s| > 0 && s[|s| - 1].Tuple?
    ensures r.Ok? ==> s == r.value.0 + [Tuple(r.value.1)]
    ensures r.Err? ==> r.error == if |s| == 0 then Underflow else TypeMismatch
  {
    var p :- Pop(s);
    if p.1.Tuple? then Ok((p.0, p.1.items)) else Err(TypeMismatch)
  }

  function PopBox(s: seq<Value>): (r: Result<(seq<Value>, Box)>)
    ensures r.Ok? <==> |s| > 0 && s[|s| - 1].BoxRef?
    ensures r.Err? ==> r.error == if |s| == 0 then Underflow else TypeMismatch
    ensures r.Ok? ==> s == r.value.0 + [BoxRef(r.value.1)]
  {
    var p :- Pop(s);
    if p.1.BoxRef? then Ok((p.0, p.1.box)) else Err(TypeMismatch)
  }

  function PopCont(s: seq<Value>): (r: Result<(seq<Value>, nat)>)
    ensures r.Ok? <==> |s| > 0 && s[|s| - 1].Cont?
    ensures r.Ok? ==> s == r.value.0 + [Cont(r.value.1)]
    ensures r.Err? ==> r.error == if |s| == 0 then Underflow else TypeMismatch
  {
    var p :- Pop(s);
    if p.1.Cont? then Ok((p.0, p.1.cont)) else Err(TypeMismatch)
  }

  /** How a map root sits on the stack: the empty map is null. */
  function MapValue(t: Tree): Value {
    if t.Empty? then Null else HMap(t)
  }

  /** A map: null is the empty map, anything but null or a map is a type
      mismatch. */
  function PopHashmap(s: seq<Value>): (r: Result<(seq<Value>, Tree)>)
    ensures r.Ok? <==> |s| > 0 && (s[|s| - 1].Null? || s[|s| - 1].HMap?)
    ensures r.Ok? ==> s[..|s| - 1] == r.value.0
    ensures r.Ok? && r.value.1.Node? ==> s[|s| - 1] == HMap(r.value.1)
    ensures r.Ok? && s[|s| - 1].Null? ==> r.value.1 == Empty
    ensures r.Err? ==> r.error == if |s| == 0 then Underflow else TypeMismatch
  {
    var p :- Pop(s);
    match p.1
    case Null => Ok((p.0, Empty))
    case HMap(t) => Ok((p.0, t))
    case _ => Err(TypeMismatch)
  }

  /** A popped value turned into a map key; kinds without an order are a
      key error. */
  function PopKey(s: seq<Value>): (r: Result<(seq<Value>, Value)>)
    ensures r.Ok? <==> |s| > 0 && IsKey(s[|s| - 1])
    ensures r.Ok? ==> s == r.value.0 + [r.value.1]
    ensures r.Err? && |s| > 0 ==> r.error == KeyError
  {
    var p :- Pop(s);
    if IsKey(p.1) then Ok(p) else Err(KeyError)
  }

  /** Every typed pop reads back what a push of the same kind left. */
  lemma PushThenPop(s: seq<Value>, b: bool, n: int, str: string, t: Tree)
    ensures PopBool(s + [BoolValue(b)]) == Ok((s, b))
    ensures PopInt(s + [Int(n)]) == Ok((s, n))
    ensures PopString(s + [Str(str)]) == Ok((s, str))
    ensures PopHashmap(s + [MapValue(t)]) == Ok((s, t))
  {
    assert (s + [BoolValue(b)])[..|s|] == s;
    assert (s + [Int(n)])[..|s|] == s;
    assert (s + [Str(str)])[..|s|] == s;
    assert (s + [MapValue(t)])[..|s|] == s;
  }
}
