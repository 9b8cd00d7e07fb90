/**
 * The dynamically typed arguments that the validators and setters of the
 * materials library receive. Each constructor is one Python type the code
 * tests with `isinstance`; anything else (a dict, a DataFrame, ...) is
 * `OtherObject`.
 */
module PyValue {

  datatype Value =
    | Nothing                    // None
    | Int(i: int)                // int
    | Float(x: real)             // float (finite)
    | Str(s: string)             // str
    | List(items: seq<Value>)    // list
    | Tuple(items: seq<Value>)   // tuple
    | OtherObject

  /** `isinstance(v, (float, int))`. */
  predicate IsNumber(v: Value) {
    v.Int? || v.Float?
  }

  /** The numeric value of an int or a float. */
  function NumberOf(v: Value): real
    requires IsNumber(v)
  {
    if v.Int? then v.i as real else v.x
  }

  /**
   * Python's `a == b`: numbers compare by value across int and float,
   * lists and tuples element by element (a list never equals a tuple),
   * everything else by kind and content (`OtherObject` stands for one object).
   */
  predicate Equal(a: Value, b: Value)
    decreases a
  {
    if IsNumber(a) && IsNumber(b) then NumberOf(a) == NumberOf(b)
    else if a.List? && b.List? then EqualItems(a.items, b.items)
    else if a.Tuple? && b.Tuple? then EqualItems(a.items, b.items)
    else if a.Str? && b.Str? then a.s == b.s
    else a == b
  }

  predicate EqualItems(xs: seq<Value>, ys: seq<Value>)
    decreases xs
  {
    |xs| == |ys| && (|xs| == 0 || (Equal(xs[0], ys[0]) && EqualItems(xs[1..], ys[1..])))
  }

  /**
   * `hash(v)` succeeds: a list is unhashable, and so is a tuple holding an
   * unhashable item; every other value here hashes.
   */
  predicate Hashable(v: Value)
    decreases v
  {
    match v
    case List(_) => false
    case Tuple(items) => forall k :: 0 <= k < |items| ==> Hashable(items[k])
    case _ => true
  }

  /** Python equality is reflexive on these values. */
  lemma {:induction false} EqualReflexive(a: Value)
    ensures Equal(a, a)
    decreases a
  {
    if a.List? || a.Tuple? {
      EqualItemsReflexive(a.items);
    }
  }

  lemma {:induction false} EqualItemsReflexive(xs: seq<Value>)
    ensures EqualItems(xs, xs)
    decreases xs
  {
    if |xs| > 0 {
      EqualReflexive(xs[0]);
      EqualItemsReflexive(xs[1..]);
    }
  }
}
