/**
 * The slice of JavaScript's value semantics that the modelled code relies on:
 * truthiness, property reads, `Object.keys(..).length` and `??`.
 */
module Js {
  import opened Wrappers

  /**
   * A JavaScript value. Numbers are integers; objects are plain objects whose
   * own enumerable keys map to values; `Date` is a Date instance reduced to
   * its calendar date (months counted from 0, as `getMonth` does).
   */
  datatype JsValue =
    | Undefined
    | Null
    | Bool(b: bool)
    | Num(n: int)
    | Str(s: string)
    | Arr(items: seq<JsValue>)
    | Obj(fields: map<string, JsValue>)
    | Date(year: int, month: int, day: int)

  /** JavaScript truthiness: `undefined`, `null`, `false`, `0` and `''` are falsy. */
  predicate Truthy(v: JsValue) {
    match v
    case Undefined => false
    case Null => false
    case Bool(b) => b
    case Num(n) => n != 0
    case Str(s) => s != ""
    case _ => true
  }

  /** `v === null || v === undefined`, the values `??` replaces. */
  predicate Nullish(v: JsValue) {
    v.Undefined? || v.Null?
  }

  /** `a ?? b` */
  function Coalesce(a: JsValue, b: JsValue): JsValue {
    if Nullish(a) then b else a
  }

  /** `a || b` */
  function Or(a: JsValue, b: JsValue): JsValue {
    if Truthy(a) then a else b
  }

  /**
   * `v?.[key]` for a key that no built-in prototype defines (`data`,
   * `sendRaw`, `message`, `error`): only a plain object's own keys answer.
   * Reading a property of `null` or `undefined` through `?.` gives `undefined`.
   */
  function Prop(v: JsValue, key: string): (r: JsValue)
    ensures !v.Obj? ==> r == Undefined
    ensures v.Obj? && key in v.fields ==> r == v.fields[key]
    ensures v.Obj? && key !in v.fields ==> r == Undefined
  {
    match v
    case Obj(fields) => if key in fields then fields[key] else Undefined
    case _ => Undefined
  }

  /**
   * `Object.keys(v).length` for a non-nullish `v`: a string has one key per
   * character, an array one per element, a plain object one per own key, and
   * booleans, numbers and dates none. A plain object has exactly one key
   * when some key is its only key.
   */
  function KeyCount(v: JsValue): (n: nat)
    ensures v.Obj? ==> (n == 1 <==> exists k :: k in v.fields && v.fields.Keys == {k})
    ensures v.Str? ==> n == |v.s|
  {
    match v
    case Str(s) => |s|
    case Arr(items) => |items|
    case Obj(fields) =>
      assert |fields| == 1 ==> exists k :: k in fields && fields.Keys == {k} by {
        if |fields| == 1 {
          var k :| k in fields;
          var rest := fields.Keys - {k};
          assert fields.Keys == rest + {k};
          assert |rest| == 0;
          assert fields.Keys == {k};
        }
      }
      |fields|
    case _ => 0
  }

  /** `typeof v === 'object'`, which holds of `null` too. */
  predicate TypeofObject(v: JsValue) {
    v.Null? || v.Arr? || v.Obj? || v.Date?
  }

  /** An optional string used as a condition: set and not `''`. */
  predicate Present(o: Option<string>) {
    o.Some? && o.value != ""
  }
}
