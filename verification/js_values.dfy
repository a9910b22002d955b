/** JavaScript values as `JSON.parse` produces them, and the few pieces of JS
    semantics the ingest endpoint relies on: truthiness, property reads and
    `toString`.  Number-to-text formatting is not modelled: callers pass a
    formatter for it. */
module JsValues {

  /** A JS number.  `-0` is `Finite(0.0)`; `NaN` is kept because it is falsy. */
  datatype Number = Finite(value: real) | NaN | Infinity(negative: bool)

  /** `Number.prototype.toString()`, supplied by the caller. */
  type NumberFormatter = Number -> string

  datatype JsValue =
    | Undefined
    | Null
    | Bool(b: bool)
    | Num(n: Number)
    | Str(s: string)
    | Arr(elems: seq<JsValue>)
    | Obj(props: map<string, JsValue>)

  /** What a thrown exception stands for; its text is only ever logged or echoed. */
  datatype JsError =
    | ReadOfNullish(property: string)   // TypeError: cannot read a property of null/undefined
    | NotCallable(property: string)     // TypeError: an own non-function property shadows a method
    | ParseError(detail: string)        // SyntaxError raised by JSON.parse
    | AppendRejected                    // the spreadsheet service refused an appendRow

  /** How a JS expression finishes: with a value, or by throwing. */
  datatype Completion<T> = Normal(value: T) | Thrown(error: JsError)

  predicate Nullish(v: JsValue) {
    v.Undefined? || v.Null?
  }

  /** `!!v` in JS: undefined, null, false, 0, -0, NaN and "" are falsy. */
  predicate Truthy(v: JsValue) {
    match v
    case Undefined => false
    case Null => false
    case Bool(b) => b
    case Num(n) => !(n.NaN? || (n.Finite? && n.value == 0.0))
    case Str(s) => s != ""
    case Arr(_) => true
    case Obj(_) => true
  }

  /** `v[key]` for a key that no prototype supplies (every key this program
      reads: "logs" and the nine log fields).  Reading from null or
      undefined throws. */
  function Get(v: JsValue, key: string): (r: Completion<JsValue>)
    ensures r.Thrown? <==> Nullish(v)
    ensures r.Thrown? ==> r.error == ReadOfNullish(key)
    ensures v.Obj? && key !in v.props ==> r == Normal(Undefined)
  {
    match v
    case Undefined => Thrown(ReadOfNullish(key))
    case Null => Thrown(ReadOfNullish(key))
    case Obj(props) => Normal(if key in props then props[key] else Undefined)
    case _ => Normal(Undefined)
  }

  /** `v.toString()`.  A parsed object owns a "toString" property only as a
      plain JSON value, which is not callable; arrays join their elements. */
  function ToText(v: JsValue, fmt: NumberFormatter): (r: Completion<string>)
    ensures Nullish(v) ==> r.Thrown?
    ensures v.Str? ==> r == Normal(v.s)
    decreases v
  {
    match v
    case Undefined => Thrown(ReadOfNullish("toString"))
    case Null => Thrown(ReadOfNullish("toString"))
    case Bool(b) => Normal(if b then "true" else "false")
    case Num(n) => Normal(fmt(n))
    case Str(s) => Normal(s)
    case Arr(elems) => JoinText(elems, fmt)
    case Obj(props) =>
      if "toString" in props then Thrown(NotCallable("toString")) else Normal("[object Object]")
  }

  /** `Array.prototype.join(",")`: null and undefined elements become "". */
  function JoinText(elems: seq<JsValue>, fmt: NumberFormatter): (r: Completion<string>)
    ensures |elems| == 0 ==> r == Normal("")
    decreases elems
  {
    if |elems| == 0 then Normal("")
    else
      var head := if Nullish(elems[0]) then Normal("") else ToText(elems[0], fmt);
      if |elems| == 1 then head
      else
        match head
        case Thrown(e) => Thrown(e)
        case Normal(h) =>
          match JoinText(elems[1..], fmt)
          case Thrown(e) => Thrown(e)
          case Normal(t) => Normal(h + "," + t)
  }
}
