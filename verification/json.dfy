/** The JSON-like values the converters receive from the issue tracker, and
    the handful of Python dict/list/str behaviours applied to them.

    Key presence (`k in d`, `d.get(k, default)`) and truthiness (`if x`,
    `x or y`) are kept apart: `{"value": ""}` has the key "value" but it is
    falsy.
 */
module Json {
  import opened Wrappers
  import opened Text

  /** Numbers are integers only; the source's floats are not modelled. */
  datatype JValue =
    | JStr(s: string)
    | JNum(n: int)
    | JBool(b: bool)
    | JNull
    | JList(items: seq<JValue>)
    | JObj(fields: seq<(string, JValue)>)

  /** Index of the first binding of `k`; a JSON object has each key once,
      so the first binding is the binding. */
  function Find(fields: seq<(string, JValue)>, k: string): (r: Option<nat>)
    ensures r.Some? ==> r.value < |fields| && fields[r.value].0 == k
    ensures r.Some? ==> forall i :: 0 <= i < r.value ==> fields[i].0 != k
    ensures r.None? <==> forall i :: 0 <= i < |fields| ==> fields[i].0 != k
  {
    if fields == [] then None
    else if fields[0].0 == k then Some(0)
    else match Find(fields[1..], k)
      case None => None
      case Some(i) => Some(i + 1)
  }

  /** `k in d` for a dict `d`. */
  predicate Has(d: JValue, k: string) {
    d.JObj? && Find(d.fields, k).Some?
  }

  /** `d.get(k, default)` for a value already known to be a dict. */
  function Field(d: JValue, k: string, default: JValue): (r: JValue)
    requires d.JObj?
    ensures Has(d, k) ==> r in set i | 0 <= i < |d.fields| :: d.fields[i].1
    ensures !Has(d, k) ==> r == default
  {
    match Find(d.fields, k)
    case Some(i) => d.fields[i].1
    case None => default
  }

  /** `d.get(k, default)` on any value: only dicts have `.get`. */
  function Get(d: JValue, k: string, default: JValue): (r: Result<JValue>)
    ensures r.Ok? <==> d.JObj?
    ensures r.Err? ==> r.fault == AttributeError
    ensures d.JObj? ==> r.value == Field(d, k, default)
  {
    if d.JObj? then Ok(Field(d, k, default)) else Err(AttributeError)
  }

  /** `d[k]`: a missing key raises KeyError, a non-dict TypeError. */
  function Index(d: JValue, k: string): (r: Result<JValue>)
    ensures r.Ok? <==> Has(d, k)
    ensures r.Ok? ==> r.value == Field(d, k, JNull)
  {
    if !d.JObj? then Err(TypeError)
    else match Find(d.fields, k)
      case Some(i) => Ok(d.fields[i].1)
      case None => Err(KeyError)
  }

  /** Python truthiness. */
  predicate Truthy(v: JValue) {
    match v
    case JStr(s) => s != ""
    case JNum(n) => n != 0
    case JBool(b) => b
    case JNull => false
    case JList(items) => items != []
    case JObj(fields) => fields != []
  }

  /** `a or b`: the first operand when it is truthy, else the second. */
  function Or(a: JValue, b: JValue): JValue {
    if Truthy(a) then a else b
  }

  /** `for x in v`: a list yields its items, a string its characters, a dict
      its keys; anything else is not iterable. */
  function Iter(v: JValue): (r: Result<seq<JValue>>)
    ensures r.Ok? <==> v.JList? || v.JStr? || v.JObj?
    ensures r.Ok? ==> (|r.value| == 0 <==> !Truthy(v))
  {
    match v
    case JList(items) => Ok(items)
    case JStr(s) => Ok(seq(|s|, i requires 0 <= i < |s| => JStr([s[i]])))
    case JObj(fields) => Ok(seq(|fields|, i requires 0 <= i < |fields| => JStr(fields[i].0)))
    case _ => Err(TypeError)
  }

  /** `str(v)`: a string is itself, everything else its Python spelling. */
  function Str(v: JValue): string {
    match v
    case JStr(s) => s
    case _ => Repr(v)
  }

  /** `repr(v)`, without the escaping of quotes and backslashes inside
      strings. */
  function Repr(v: JValue): string {
    match v
    case JStr(s) => "'" + s + "'"
    case JNum(n) => Decimal(n)
    case JBool(b) => if b then "True" else "False"
    case JNull => "None"
    case JList(items) =>
      "[" + Join(seq(|items|, i requires 0 <= i < |items| => Repr(items[i])), ", ") + "]"
    case JObj(fields) =>
      "{" + Join(seq(|fields|, i requires 0 <= i < |fields| =>
                   "'" + fields[i].0 + "': " + Repr(fields[i].1)), ", ") + "}"
  }
}
