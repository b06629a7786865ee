/** JSON-like values, the EMPTY sentinel, and Python's `==` on those values
    (mikelogdb/util.py holds the sentinel; the values are what the store keeps). */
module Util {

  datatype Option<+T> = None | Some(value: T)

  /** Success or a raised exception. The source distinguishes ValueError,
      KeyError, IndexError and TypeError; every one of them ends the
      operation, so the model keeps a single failure. */
  datatype Result<+T> = Ok(value: T) | Fail

  /** A JSON value as the store holds it. Numbers are integers. */
  datatype Value =
    | Null
    | Bool(b: bool)
    | Int(n: int)
    | Str(s: string)
    | List(items: seq<Value>)
    | Object(fields: map<string, Value>)

  /** `util.EMPTY` is a value of its own, distinct from `None` (JSON null),
      so that null can still be stored. */
  datatype Opt = Empty | Present(value: Value)

  /** Python's `int(b)`. */
  function BoolInt(b: bool): int {
    if b then 1 else 0
  }

  /** Python's `==` on JSON values: lists compare element-wise, dicts
      compare key set and values. It is coarser than structural equality
      only where a bool meets an int: `True == 1` and `False == 0` hold
      although the values differ, and `True == 2` does not. */
  function Equal(a: Value, b: Value): bool {
    match (a, b)
    case (Null, Null) => true
    case (Bool(x), Bool(y)) => x == y
    case (Bool(x), Int(n)) => n == BoolInt(x)
    case (Int(m), Bool(y)) => m == BoolInt(y)
    case (Int(m), Int(n)) => m == n
    case (Str(s), Str(t)) => s == t
    case (List(xs), List(ys)) =>
      |xs| == |ys| && forall i :: 0 <= i < |xs| ==> Equal(xs[i], ys[i])
    case (Object(m), Object(n)) =>
      m.Keys == n.Keys && forall k :: k in m ==> Equal(m[k], n[k])
    case _ => false
  }

  /** Every value equals itself, so an expected old value that is the
      current value never trips the conflict check. */
  lemma {:induction false} EqualReflexive(a: Value)
    ensures Equal(a, a)
  {
    match a
    case List(xs) =>
      forall i | 0 <= i < |xs| ensures Equal(xs[i], xs[i]) {
        EqualReflexive(xs[i]);
      }
    case Object(m) =>
      forall k | k in m ensures Equal(m[k], m[k]) {
        EqualReflexive(m[k]);
      }
    case _ =>
  }

}
