/**
 * The parsed JSON value the renderer walks, and the formatter's own
 * classification of it (`_typeof`).
 */
module Json {

  datatype Option<+T> = None | Some(value: T)

  /** A value as `JSON.parse` delivers it. A number keeps its literal text;
      an object keeps its members in the order `for ... in` enumerates them. */
  datatype Json =
    | JNull
    | JBool(b: bool)
    | JNum(literal: string)
    | JStr(s: string)
    | JArr(items: seq<Json>)
    | JObj(fields: seq<(string, Json)>)

  /** A JavaScript object holds each key once. */
  predicate UniqueKeys(fields: seq<(string, Json)>)
  {
    forall i, j :: 0 <= i < j < |fields| ==> fields[i].0 != fields[j].0
  }

  /** JavaScript's own `typeof`, which answers "object" for null and for arrays. */
  function JsTypeof(v: Json): string
  {
    match v
    case JNull => "object"
    case JBool(_) => "boolean"
    case JNum(_) => "number"
    case JStr(_) => "string"
    case JArr(_) => "object"
    case JObj(_) => "object"
  }

  /** `_typeof`: null is checked first, then arrays, and only then `typeof`
      is consulted; every kind of value gets its own name. */
  function TypeOf(v: Json): (t: string)
    ensures t == "null" <==> v.JNull?
    ensures t == "array" <==> v.JArr?
    ensures t == "object" <==> v.JObj?
    ensures t == "string" <==> v.JStr?
    ensures t == "number" <==> v.JNum?
    ensures t == "boolean" <==> v.JBool?
    ensures v.JNull? || v.JArr? || t == JsTypeof(v)
  {
    if v.JNull? then "null"
    else if v.JArr? then "array"
    else JsTypeof(v)
  }

  /** The kinds that render as a plain value span. */
  predicate IsScalar(v: Json)
  {
    v.JNull? || v.JBool? || v.JNum? || v.JStr?
  }

  /** Reads the text of a boolean or of null back as the value it names. */
  function Keyword(t: string): Option<Json>
  {
    if t == "null" then Some(JNull)
    else if t == "true" then Some(JBool(true))
    else if t == "false" then Some(JBool(false))
    else None
  }

  /** `document.createTextNode(l)`: the text a scalar converts to. A
      boolean or null shows the keyword that names it, a number its
      literal, a string its characters without quotes. */
  function Literal(v: Json): (text: string)
    requires IsScalar(v)
    ensures v.JNull? || v.JBool? ==> Keyword(text) == Some(v)
    ensures v.JNum? ==> text == v.literal
    ensures v.JStr? ==> text == v.s
  {
    match v
    case JNull => "null"
    case JBool(b) => if b then "true" else "false"
    case JNum(lit) => lit
    case JStr(s) => s
  }

  /** The keys of an object in enumeration order (`for (var i in obj)`). */
  function Keys(fields: seq<(string, Json)>): seq<string>
  {
    seq(|fields|, i requires 0 <= i < |fields| => fields[i].0)
  }

  /** Position of the member `obj[k]` reads: the first one with key `k`. */
  function IndexOf(fields: seq<(string, Json)>, k: string): (i: nat)
    requires k in Keys(fields)
    ensures i < |fields| && fields[i].0 == k
    ensures forall j :: 0 <= j < i ==> fields[j].0 != k
  {
    if fields[0].0 == k then 0
    else
      assert k in Keys(fields[1..]) by {
        var m :| 0 <= m < |fields| && Keys(fields)[m] == k;
        assert Keys(fields[1..])[m - 1] == k;
      }
      1 + IndexOf(fields[1..], k)
  }

  /** With unique keys, looking up the key of the `i`-th member finds that member. */
  lemma LookupOwnKey(fields: seq<(string, Json)>, i: nat)
    requires UniqueKeys(fields) && i < |fields|
    ensures fields[i].0 in Keys(fields)
    ensures IndexOf(fields, fields[i].0) == i
  {
    assert Keys(fields)[i] == fields[i].0;
  }
}
