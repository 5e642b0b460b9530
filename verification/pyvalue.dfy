/** The Python values that flow through the typed-property layer: enough of
    Python's `type()`, `==` and `in` to state what the validators accept. */
module PyValue {

  /** The result of Python's `type(v)`; user classes are told apart by name. */
  datatype PyType = NoneType | BoolType | IntType | StringType | ListType | KeyType | ClassType(name: string)

  datatype Value =
    | NoneVal
    | BoolVal(b: bool)
    | IntVal(i: int)
    | StrVal(s: string)
    | ListVal(items: seq<Value>)
      /** an instance of a user class, `id` standing for its object identity */
    | Instance(cls: string, id: nat)
      /** an `ndb.Key` of an entity of the named kind with a numeric id */
    | KeyVal(kind: string, id: nat)

  function TypeOf(v: Value): PyType {
    match v
    case NoneVal => NoneType
    case BoolVal(_) => BoolType
    case IntVal(_) => IntType
    case StrVal(_) => StringType
    case ListVal(_) => ListType
    case Instance(c, _) => ClassType(c)
    case KeyVal(_, _) => KeyType
  }

  /** The number a bool or an int stands for (`True == 1`, `False == 0`). */
  function Number(v: Value): int
    requires v.BoolVal? || v.IntVal?
  {
    if v.BoolVal? then (if v.b then 1 else 0) else v.i
  }

  /** Python's `a == b` on these values: bools compare equal to the ints
      0 and 1, lists compare element-wise, instances by identity and keys
      by kind and id. */
  predicate Equals(a: Value, b: Value)
    decreases a
  {
    match a
    case NoneVal => b == NoneVal
    case BoolVal(_) => (b.BoolVal? || b.IntVal?) && Number(a) == Number(b)
    case IntVal(_) => (b.BoolVal? || b.IntVal?) && Number(a) == Number(b)
    case StrVal(s) => b == StrVal(s)
    case ListVal(xs) =>
      b.ListVal? && |xs| == |b.items| && forall i | 0 <= i < |xs| :: Equals(xs[i], b.items[i])
    case Instance(_, _) => a == b
    case KeyVal(_, _) => a == b
  }

  /** Python's `v in xs` on a list. */
  predicate IsMember(v: Value, xs: seq<Value>) {
    exists i | 0 <= i < |xs| :: Equals(v, xs[i])
  }

  /** Every item has exactly the given type. */
  predicate AllOfType(items: seq<Value>, t: PyType) {
    forall i | 0 <= i < |items| :: TypeOf(items[i]) == t
  }

  /** `len([item for item in items if type(item) is t])`, the count the
      validators compare with `len(items)`. */
  function CountOfType(items: seq<Value>, t: PyType): (n: nat)
    ensures n <= |items|
  {
    if |items| == 0 then 0
    else CountOfType(items[..|items| - 1], t) + (if TypeOf(items[|items| - 1]) == t then 1 else 0)
  }

  /** Comparing the filtered count with the length is the same as asking
      every item to have the type. */
  lemma {:induction false} CountOfTypeIsLength(items: seq<Value>, t: PyType)
    ensures CountOfType(items, t) == |items| <==> AllOfType(items, t)
  {
    if |items| > 0 {
      var init := items[..|items| - 1];
      CountOfTypeIsLength(init, t);
      if AllOfType(items, t) {
        assert forall i | 0 <= i < |init| :: init[i] == items[i];
      } else if AllOfType(init, t) {
        assert TypeOf(items[|items| - 1]) != t by {
          forall i | 0 <= i < |items| ensures i < |init| ==> TypeOf(items[i]) == t {
            if i < |init| {
              assert items[i] == init[i];
            }
          }
        }
      }
    }
  }

  /** Every string wrapped as a Python `str` value. */
  function StrValues(ss: seq<string>): (vs: seq<Value>)
    ensures |vs| == |ss|
    ensures forall i | 0 <= i < |ss| :: vs[i] == StrVal(ss[i])
    ensures AllOfType(vs, StringType)
  {
    if |ss| == 0 then [] else [StrVal(ss[0])] + StrValues(ss[1..])
  }
}
