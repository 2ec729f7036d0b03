/** JavaScript values as they reach the viewer in query results and
    resources, with the three conversions the viewer relies on: truthiness,
    `typeof`, and the text a template literal inserts. Numbers are the
    integer-valued ones. */
module Js {
  import opened Wrappers
  import opened Dict
  import Text

  datatype Value =
    | Undefined
    | Null
    | Bool(b: bool)
    | Num(n: int)
    | Str(s: string)
    | Arr(items: seq<Value>)
    | Obj(entries: Entries<Value>)

  /** `!!v`. */
  predicate Truthy(v: Value) {
    match v
    case Undefined => false
    case Null => false
    case Bool(b) => b
    case Num(n) => n != 0
    case Str(s) => s != ""
    case Arr(_) => true
    case Obj(_) => true
  }

  /** A form value: text, or `undefined` once the input was unset. It is
      truthy when it is non-empty text. */
  predicate Filled(v: Option<string>) {
    v.Some? && v.value != ""
  }

  /** `typeof v`. */
  function TypeOf(v: Value): (t: string)
    ensures t == "object" <==> v.Null? || v.Arr? || v.Obj?
  {
    match v
    case Undefined => "undefined"
    case Null => "object"
    case Bool(_) => "boolean"
    case Num(_) => "number"
    case Str(_) => "string"
    case Arr(_) => "object"
    case Obj(_) => "object"
  }

  /** `${v}`: the text a template literal inserts for `v`. An array joins its
      elements with commas, writing nothing for `null` and `undefined`. */
  function Template(v: Value): (t: string)
    ensures v.Str? ==> t == v.s
    ensures v.Num? ==> t == Text.IntToString(v.n)
    ensures v.Undefined? ==> t == "undefined"
  {
    match v
    case Undefined => "undefined"
    case Null => "null"
    case Bool(b) => if b then "true" else "false"
    case Num(n) => Text.IntToString(n)
    case Str(s) => s
    case Arr(items) => Text.Join(ElementTexts(items), ",")
    case Obj(_) => "[object Object]"
  }

  function ElementTexts(items: seq<Value>): (r: seq<string>)
    ensures |r| == |items|
    decreases items
  {
    if |items| == 0 then []
    else
      [if items[0].Null? || items[0].Undefined? then "" else Template(items[0])]
      + ElementTexts(items[1..])
  }

  /** `v?.[k]` for a string key: an object's own entry, `undefined` otherwise. */
  function Property(v: Value, k: string): (r: Value)
    ensures !v.Obj? ==> r == Undefined
    ensures v.Obj? ==> (r.Undefined? || HasKey(v.entries, k))
  {
    match v
    case Obj(es) => Get(es, k).GetOr(Undefined)
    case _ => Undefined
  }

  /** The own enumerable entries an object spread `{...v}` copies. */
  function SpreadEntries(v: Value): Entries<Value> {
    match v
    case Obj(es) => es
    case _ => []
  }

  lemma TemplateExamples()
    ensures Template(Arr([Num(1), Null, Str("a")])) == "1,,a"
    ensures Template(Num(-12)) == "-12"
  {
    assert ElementTexts([Num(1), Null, Str("a")]) == ["1", "", "a"];
    assert Text.NatToString(12) == "12";
  }
}
