/** JavaScript values as the pages hold them in React state, with the few
    language rules the pages depend on: truthiness, `||`, optional chaining,
    object spread with a computed key, `Number(...)` and string conversion. */
module JsValue {
  import opened Common
  import Text
  import Decimal

  /** Numbers are integers here; fractional values are not modelled. */
  datatype Value =
    | Undefined
    | Null
    | NaN
    | Bool(b: bool)
    | Num(n: int)
    | Str(s: string)
    | Arr(items: seq<Value>)
    | Obj(fields: map<string, Value>)

  /** A plain object: own enumerable keys and their values. */
  type Object = map<string, Value>

  /** `Boolean(v)` */
  predicate Truthy(v: Value) {
    match v
    case Undefined => false
    case Null => false
    case NaN => false
    case Bool(b) => b
    case Num(n) => n != 0
    case Str(s) => s != ""
    case Arr(_) => true
    case Obj(_) => true
  }

  /** `o[key]`, which is `undefined` for a missing key. */
  function Get(o: Object, key: string): Value {
    if key in o then o[key] else Undefined
  }

  /** `{ ...o, [key]: v }` */
  function With(o: Object, key: string, v: Value): (r: Object)
    ensures Get(r, key) == v
    ensures forall k :: k != key ==> Get(r, k) == Get(o, k)
    ensures r.Keys == o.Keys + {key}
  {
    o[key := v]
  }

  /** `v?.key`: reading a key of anything but an object gives `undefined`. */
  function Field(v: Value, key: string): Value {
    if v.Obj? then Get(v.fields, key) else Undefined
  }

  /** The own keys `{ ...v }` copies: those of an object, none for `null`
      or `undefined`. */
  function Spread(v: Value): Object {
    if v.Obj? then v.fields else map[]
  }

  /** `a || b` */
  function Or(a: Value, b: Value): (r: Value)
    ensures Truthy(a) ==> r == a
    ensures !Truthy(a) ==> r == b
  {
    if Truthy(a) then a else b
  }

  /** `Number(v)`. Text converts when, once trimmed, it is empty (0) or an
      optionally signed run of decimal digits. */
  function ToNumber(v: Value): (r: Value)
    ensures r.Num? || r.NaN?
    ensures v.Num? ==> r == v
  {
    match v
    case Undefined => NaN
    case Null => Num(0)
    case NaN => NaN
    case Bool(b) => Num(if b then 1 else 0)
    case Num(n) => v
    case Str(s) =>
      var t := Text.Trim(s);
      if t == "" then Num(0)
      else (match Decimal.Parse(t) case Some(n) => Num(n) case None => NaN)
    case Arr(_) => NaN
    case Obj(_) => NaN
  }

  /** `String(v)` for the values that reach a template literal or `join`.
      `null` and `undefined` become empty inside `join`; see `JoinText`. */
  function ToText(v: Value): string
    decreases v, 1
  {
    match v
    case Undefined => "undefined"
    case Null => "null"
    case NaN => "NaN"
    case Bool(b) => if b then "true" else "false"
    case Num(n) => Decimal.Format(n)
    case Str(s) => s
    case Arr(items) => JoinText(items, ",", v)
    case Obj(_) => "[object Object]"
  }

  /** `items.join(sep)`: `null` and `undefined` elements print as empty. */
  function JoinText(items: seq<Value>, sep: string, ghost parent: Value): string
    requires forall k :: 0 <= k < |items| ==> items[k] < parent
    decreases parent, 0, |items|
  {
    Text.Join(seq(|items|, k requires 0 <= k < |items| =>
                              if items[k].Null? || items[k].Undefined? then "" else ToText(items[k])), sep)
  }

  /** `v <= bound` against a number: the value is converted as by `Number`,
      and a `NaN` makes the comparison false. */
  predicate AtMost(v: Value, bound: int) {
    var x := ToNumber(v);
    x.Num? && x.n <= bound
  }

  /** `v > bound` against a number, with the same conversion. */
  predicate Above(v: Value, bound: int) {
    var x := ToNumber(v);
    x.Num? && x.n > bound
  }
}
