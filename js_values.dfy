/**
 * The JavaScript values that reach the core from clients and tokens: payload
 * fields, token claims and room hosts. Only truthiness and `String(v)` matter.
 */
module JsValues {
  import opened JsNumber

  /** `Object` stands for any plain object, such as an ObjectId-free JSON object or a document. */
  datatype JsValue = Undefined | Null | Bool(b: bool) | Number(n: Num) | Str(s: string) | Object

  /** The value of `!!v`. */
  predicate Truthy(v: JsValue): (t: bool)
    ensures !t <==> v in {Undefined, Null, Bool(false), Number(NaN), Number(Int(0)), Str("")}
  {
    match v
    case Undefined => false
    case Null => false
    case Bool(b) => b
    case Number(n) => n.Int? && n.i != 0
    case Str(s) => s != []
    case Object => true
  }

  /** `String(v)` */
  function ToString(v: JsValue): (r: string)
    ensures r == [] <==> v == Str("")
    ensures v.Str? ==> r == v.s
  {
    match v
    case Undefined => "undefined"
    case Null => "null"
    case Bool(b) => if b then "true" else "false"
    case Number(n) => NumToString(n)
    case Str(s) => s
    case Object => "[object Object]"
  }

  /** `v || d`: the left operand when it is truthy, otherwise the right one. */
  function Or(v: JsValue, d: JsValue): (r: JsValue)
    ensures Truthy(v) ==> r == v
    ensures !Truthy(v) ==> r == d
  {
    if Truthy(v) then v else d
  }

  /** A falsy value becomes the empty text under `String(v || '')`; a truthy one keeps its own rendering. */
  lemma ToStringOrEmpty(v: JsValue)
    ensures ToString(Or(v, Str(""))) == (if Truthy(v) then ToString(v) else "")
    ensures ToString(Or(v, Str(""))) == "" <==> !Truthy(v)
  {
    if Truthy(v) {
      match v
      case Number(n) => assert |NumToString(n)| >= 1;
      case _ =>
    }
  }
}
