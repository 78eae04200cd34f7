/** `CustomFieldRenderer`: a custom field's value as Markdown text, chosen
    by the field's schema type when one is given and by the value's shape
    otherwise. Python's `None` is `Option.None`; a schema path can hand
    back a non-string value (an option's "value" may be a number), so the
    final result is a JSON value.
 */
module CustomFields {
  import opened Wrappers
  import opened Text
  import opened Json
  import opened Seqs

  /** The ADF parser the renderer was built with, if any. */
  type Parser = Option<JValue -> Result<string>>

  /** `value.get("type") == "doc"` on a dict. */
  predicate IsDoc(value: JValue) {
    value.JObj? && Field(value, "type", JNull) == JStr("doc")
  }

  /** A value `.get` handed back, with JSON null read as `None`. */
  function NoneIfNull(v: JValue): (r: Option<JValue>)
    ensures r.None? <==> v == JNull
    ensures r.Some? ==> r.value == v
  {
    if v == JNull then None else Some(v)
  }

  /** `str(v)` is never empty for a truthy value. */
  lemma StrOfTruthy(v: JValue)
    requires Truthy(v)
    ensures Str(v) != ""
  {
    match v
    case JNum(n) =>
      if n < 0 { assert Str(v) == "-" + NatDigits(-n); } else { assert |NatDigits(n)| >= 1; }
    case JList(_) =>
      assert Str(v)[0] == '[';
    case JObj(_) =>
      assert Str(v)[0] == '{';
    case _ =>
  }

  // ---------------------------------------------------------------------
  // Arrays.

  /** The text of one array item: for a dict the first truthy of "value",
      "displayName" and "name", else the dict's `str`; anything else as
      `str` shows it. */
  function ItemText(item: JValue): (r: string)
    ensures !item.JObj? ==> r == Str(item)
    ensures item.JObj? && Truthy(Field(item, "value", JNull)) ==> r == Str(Field(item, "value", JNull))
    ensures item.JObj? && !Truthy(Field(item, "value", JNull)) && Truthy(Field(item, "displayName", JNull)) ==>
              r == Str(Field(item, "displayName", JNull))
    ensures (item.JObj? && !Truthy(Field(item, "value", JNull)) && !Truthy(Field(item, "displayName", JNull))
             && Truthy(Field(item, "name", JNull))) ==> r == Str(Field(item, "name", JNull))
    ensures (item.JObj? && !Truthy(Field(item, "value", JNull)) && !Truthy(Field(item, "displayName", JNull))
             && !Truthy(Field(item, "name", JNull))) ==> r == Repr(item)
  {
    if item.JObj? then
      Str(Or(Field(item, "value", JNull), Or(Field(item, "displayName", JNull), Or(Field(item, "name", JNull), JStr(Str(item))))))
    else Str(item)
  }

  /** A dict item always shows some text. */
  lemma DictItemNotEmpty(item: JValue)
    requires item.JObj?
    ensures ItemText(item) != ""
  {
    var v := Field(item, "value", JNull);
    var d := Field(item, "displayName", JNull);
    var n := Field(item, "name", JNull);
    if Truthy(v) { StrOfTruthy(v); }
    else if Truthy(d) { StrOfTruthy(d); }
    else if Truthy(n) { StrOfTruthy(n); }
    else { assert Repr(item)[0] == '{'; }
  }

  function ItemTexts(items: seq<JValue>): (r: seq<string>)
    ensures |r| == |items|
    ensures forall i :: 0 <= i < |items| ==> r[i] == ItemText(items[i])
  {
    seq(|items|, i requires 0 <= i < |items| => ItemText(items[i]))
  }

  /** `_render_array`: a non-list as `str` shows it, nothing for an empty
      list, else the item texts joined by ", ". */
  function RenderArray(value: JValue): (r: Option<string>)
    ensures r.None? <==> value == JList([])
    ensures !value.JList? ==> r == Some(Str(value))
    ensures value.JList? && |value.items| == 1 ==> r == Some(ItemText(value.items[0]))
    ensures value.JList? && |value.items| >= 2 ==>
              r == Some(ItemText(value.items[0]) + ", " + RenderArray(JList(value.items[1..])).value)
    decreases if value.JList? then |value.items| else 0
  {
    if !value.JList? then Some(Str(value))
    else if |value.items| == 0 then None
    else
      var items := value.items;
      assert |items| >= 2 ==> ItemTexts(items)[1..] == ItemTexts(items[1..]);
      Some(Join(ItemTexts(items), ", "))
  }

  /** Reads a ", "-joined list back: the parts between commas, each part
      after the first without the space the separator put before it. */
  function CommaParts(s: string): (r: seq<string>)
    ensures |r| == |Split(s, ',')|
  {
    Unpad(Split(s, ','))
  }

  /** The parts after the first without their leading space. */
  function Unpad(parts: seq<string>): (r: seq<string>)
    requires |parts| >= 1
    ensures |r| == |parts| && r[0] == parts[0]
    ensures forall i :: 1 <= i < |parts| ==> r[i] == Unspace(parts[i])
  {
    [parts[0]] + seq(|parts| - 1, i requires 0 <= i < |parts| - 1 => Unspace(parts[i + 1]))
  }

  function Unspace(p: string): string {
    if |p| > 0 && p[0] == ' ' then p[1..] else p
  }

  /** Each part with a space in front. */
  function Padded(xs: seq<string>): (r: seq<string>)
    ensures |r| == |xs|
    ensures forall i :: 0 <= i < |xs| ==> r[i] == " " + xs[i]
  {
    seq(|xs|, i requires 0 <= i < |xs| => " " + xs[i])
  }

  lemma PaddedJoin(t: seq<string>)
    requires |t| >= 1
    ensures Join(Padded(t), ",") == " " + Join([t[0]] + Padded(t[1..]), ",")
  {
    var p := Padded(t);
    var q := [t[0]] + Padded(t[1..]);
    assert p[1..] == Padded(t[1..]);
    assert q[1..] == Padded(t[1..]);
    if |t| > 1 {
      var j := Join(Padded(t[1..]), ",");
      assert Join(p, ",") == (" " + t[0]) + "," + j;
      assert Join(q, ",") == t[0] + "," + j;
      assert (" " + t[0]) + "," + j == " " + (t[0] + "," + j);
    } else {
      assert Join(p, ",") == " " + t[0];
    }
  }

  /** ", " between the parts is "," between the parts padded by a space. */
  lemma {:induction false} JoinComma(xs: seq<string>)
    requires |xs| >= 1
    ensures Join(xs, ", ") == Join([xs[0]] + Padded(xs[1..]), ",")
    decreases |xs|
  {
    if |xs| >= 2 {
      var tail := xs[1..];
      JoinComma(tail);
      PaddedJoin(tail);
      var ys := [xs[0]] + Padded(tail);
      assert ys[1..] == Padded(tail);
      var j := Join([tail[0]] + Padded(tail[1..]), ",");
      assert Join(xs, ", ") == xs[0] + ", " + j;
      assert Join(ys, ",") == xs[0] + "," + (" " + j);
      assert xs[0] + ", " + j == xs[0] + "," + (" " + j);
    } else {
      assert [xs[0]] + Padded(xs[1..]) == [xs[0]];
    }
  }

  /** Unpadding undoes the padding of every part after the first. */
  lemma UnpadPadded(xs: seq<string>)
    requires |xs| >= 1
    ensures Unpad([xs[0]] + Padded(xs[1..])) == xs
  {
    var ys := [xs[0]] + Padded(xs[1..]);
    var r := Unpad(ys);
    forall i | 1 <= i < |xs|
      ensures r[i] == xs[i]
    {
      assert ys[i] == " " + xs[i];
      assert (" " + xs[i])[1..] == xs[i];
    }
  }

  /** Padding adds no comma. */
  lemma PaddedCommaFree(xs: seq<string>)
    requires |xs| >= 1
    requires forall i :: 0 <= i < |xs| ==> ',' !in xs[i]
    ensures forall i :: 0 <= i < |xs| ==> ',' !in ([xs[0]] + Padded(xs[1..]))[i]
  {
    var ys := [xs[0]] + Padded(xs[1..]);
    forall i | 1 <= i < |xs|
      ensures ',' !in ys[i]
    {
      assert ys[i] == " " + xs[i];
    }
  }

  /** Joining by ", " and reading back gives the parts, when none of them
      holds a comma. */
  lemma CommaRoundTrip(xs: seq<string>)
    requires |xs| >= 1
    requires forall i :: 0 <= i < |xs| ==> ',' !in xs[i]
    ensures CommaParts(Join(xs, ", ")) == xs
  {
    JoinComma(xs);
    PaddedCommaFree(xs);
    SplitJoin([xs[0]] + Padded(xs[1..]), ',');
    UnpadPadded(xs);
  }

  /** A non-empty list renders as its item texts in order: reading the
      result back by its commas gives them, when no text holds a comma. */
  lemma ArrayListsItems(items: seq<JValue>)
    requires |items| > 0
    requires forall i :: 0 <= i < |items| ==> ',' !in ItemText(items[i])
    ensures RenderArray(JList(items)).Some?
    ensures CommaParts(RenderArray(JList(items)).value) == ItemTexts(items)
  {
    CommaRoundTrip(ItemTexts(items));
  }

  // ---------------------------------------------------------------------
  // Shape rendering.

  /** `_render_by_shape`: "" and `None` give nothing, another string is
      itself, a number or boolean its `str`; a "doc" dict goes to the
      parser when there is one, with an empty result read as nothing;
      another dict shows its "value", "displayName" or "name", the first
      of those keys present, else its `str`; a list renders as an array. */
  function RenderByShape(value: JValue, adf: Parser): (r: Result<Option<string>>)
    ensures r.Err? ==> IsDoc(value) && adf.Some? && adf.value(value).Err?
    ensures r.Ok? ==> (r.value.None? <==>
              || value == JStr("") || value == JNull || value == JList([])
              || (IsDoc(value) && adf.Some? && adf.value(value) == Ok("")))
    ensures value.JStr? && value.s != "" ==> r == Ok(Some(value.s))
    ensures value.JNum? || value.JBool? ==> r == Ok(Some(Str(value)))
    ensures value.JList? ==> r == Ok(RenderArray(value))
    ensures IsDoc(value) && adf.Some? && adf.value(value).Ok? && adf.value(value).value != "" ==>
              r == Ok(Some(adf.value(value).value))
    ensures value.JObj? && !(IsDoc(value) && adf.Some?) ==>
              && (Has(value, "value") ==> r == Ok(Some(Str(Field(value, "value", JNull)))))
              && (!Has(value, "value") && Has(value, "displayName") ==> r == Ok(Some(Str(Field(value, "displayName", JNull)))))
              && (!Has(value, "value") && !Has(value, "displayName") && Has(value, "name") ==>
                    r == Ok(Some(Str(Field(value, "name", JNull)))))
              && (!Has(value, "value") && !Has(value, "displayName") && !Has(value, "name") ==> r == Ok(Some(Repr(value))))
  {
    match value
    case JStr(s) => Ok(if s == "" then None else Some(s))
    case JNum(_) => Ok(Some(Str(value)))
    case JBool(_) => Ok(Some(Str(value)))
    case JNull => Ok(None)
    case JList(_) => Ok(RenderArray(value))
    case JObj(_) =>
      if IsDoc(value) && adf.Some? then
        var rendered :- adf.value(value);
        Ok(if rendered == "" then None else Some(rendered))
      else if Has(value, "value") then Ok(Some(Str(Field(value, "value", JNull))))
      else if Has(value, "displayName") then Ok(Some(Str(Field(value, "displayName", JNull))))
      else if Has(value, "name") then Ok(Some(Str(Field(value, "name", JNull))))
      else Ok(Some(Repr(value)))
  }

  /** The shape rules test a key's presence while array items test its
      truthiness: a dict whose "value" is falsy but present shows that
      value on its own and its display name inside a list. */
  lemma PresenceAgainstTruthiness(d: JValue, adf: Parser)
    requires d.JObj? && !IsDoc(d)
    requires Has(d, "value") && !Truthy(Field(d, "value", JNull))
    requires Truthy(Field(d, "displayName", JNull))
    ensures RenderByShape(d, adf) == Ok(Some(Str(Field(d, "value", JNull))))
    ensures RenderArray(JList([d])) == Some(Str(Field(d, "displayName", JNull)))
  {
  }

  /** `{"value": ""}` renders as "" alone and as its display name in a
      list. */
  lemma PresenceExample()
    ensures RenderByShape(JObj([("value", JStr("")), ("displayName", JStr("Ann"))]), None) == Ok(Some(""))
    ensures RenderArray(JList([JObj([("value", JStr("")), ("displayName", JStr("Ann"))])])) == Some("Ann")
  {
    var d := JObj([("value", JStr("")), ("displayName", JStr("Ann"))]);
    assert Find(d.fields, "value") == Some(0);
    assert Find(d.fields, "displayName") == Some(1);
  }

  // ---------------------------------------------------------------------
  // Schema rendering.

  /** The schema types the renderer knows. */
  predicate IsSchemaType(t: JValue) {
    t in {JStr("string"), JStr("number"), JStr("date"), JStr("datetime"), JStr("option"), JStr("user"), JStr("array"), JStr("any")}
  }

  /** `_render_by_schema`: "string", "number" and "date" show `str`,
      "datetime" the first 19 characters of it; an "option" dict its
      "value", a "user" dict its "displayName" or else its "name", each
      defaulting to the dict's `str`, while a non-dict shows `str`;
      "array" renders as an array and "any" by shape; any other type gives
      nothing. */
  function RenderBySchema(value: JValue, t: JValue, adf: Parser): (r: Result<Option<JValue>>)
    ensures r.Err? ==> t == JStr("any")
    ensures t in {JStr("string"), JStr("number"), JStr("date")} ==> r == Ok(Some(JStr(Str(value))))
    ensures t == JStr("datetime") ==>
              && r.Ok? && r.value.Some? && r.value.value.JStr?
              && |r.value.value.s| == (if |Str(value)| > 19 then 19 else |Str(value)|)
              && r.value.value.s == Str(value)[..|r.value.value.s|]
    ensures t == JStr("option") && value.JObj? ==>
              r == Ok(NoneIfNull(Field(value, "value", JStr(Repr(value)))))
    ensures t == JStr("user") && value.JObj? ==>
              r == Ok(NoneIfNull(Field(value, "displayName", Field(value, "name", JStr(Repr(value))))))
    ensures t in {JStr("option"), JStr("user")} && !value.JObj? ==> r == Ok(Some(JStr(Str(value))))
    ensures t == JStr("array") ==> r.Ok? && (r.value.None? <==> value == JList([]))
    ensures t == JStr("array") ==> r == Ok(Lift(RenderArray(value)))
    ensures !IsSchemaType(t) ==> r == Ok(None)
  {
    if t == JStr("string") || t == JStr("number") || t == JStr("date") then Ok(Some(JStr(Str(value))))
    else if t == JStr("datetime") then Ok(Some(JStr(Take(Str(value), 19))))
    else if t == JStr("option") then
      if value.JObj? then Ok(NoneIfNull(Field(value, "value", JStr(Repr(value)))))
      else Ok(Some(JStr(Str(value))))
    else if t == JStr("user") then
      if value.JObj? then Ok(NoneIfNull(Field(value, "displayName", Field(value, "name", JStr(Repr(value))))))
      else Ok(Some(JStr(Str(value))))
    else if t == JStr("array") then Ok(Lift(RenderArray(value)))
    else if t == JStr("any") then
      var s :- RenderByShape(value, adf);
      Ok(Lift(s))
    else Ok(None)
  }

  /** A rendered string as a JSON string. */
  function Lift(s: Option<string>): (r: Option<JValue>)
    ensures r.None? <==> s.None?
    ensures s.Some? ==> r == Some(JStr(s.value))
  {
    match s
    case None => None
    case Some(x) => Some(JStr(x))
  }

  /** `render_value`: nothing for `None`; a truthy schema's type is tried
      first, and the shape rules apply when that gives nothing. A truthy
      schema that is not a dict has no `.get`. */
  function RenderValue(value: JValue, schema: JValue, adf: Parser): (r: Result<Option<JValue>>)
    ensures value == JNull ==> r == Ok(None)
    ensures value != JNull && !Truthy(schema) ==>
              && (r.Ok? <==> RenderByShape(value, adf).Ok?)
              && (r.Ok? ==> r.value == Lift(RenderByShape(value, adf).value))
    ensures value != JNull && Truthy(schema) && !schema.JObj? ==> r.Err?
  {
    if value == JNull then Ok(None)
    else if Truthy(schema) then
      var t :- Get(schema, "type", JStr(""));
      var rendered :- RenderBySchema(value, t, adf);
      if rendered.Some? then Ok(rendered)
      else
        var s :- RenderByShape(value, adf);
        Ok(Lift(s))
    else
      var s :- RenderByShape(value, adf);
      Ok(Lift(s))
  }

  /** A schema whose type the schema rules give a value for decides the
      result; when they give nothing (an unknown type, an empty array, a
      null option value) the shape rules decide, exactly as with no
      schema. */
  lemma SchemaFirst(value: JValue, schema: JValue, adf: Parser)
    requires value != JNull && schema.JObj? && Truthy(schema)
    ensures var t := Field(schema, "type", JStr(""));
            && (RenderBySchema(value, t, adf).Ok? && RenderBySchema(value, t, adf).value.Some? ==>
                  RenderValue(value, schema, adf) == RenderBySchema(value, t, adf))
            && (RenderBySchema(value, t, adf) == Ok(None) ==>
                  RenderValue(value, schema, adf) == RenderValue(value, JNull, adf))
  {
  }

  /** An unknown or missing schema type renders exactly as no schema. */
  lemma UnknownTypeIsShape(value: JValue, schema: JValue, adf: Parser)
    requires schema.JObj? && Truthy(schema)
    requires !IsSchemaType(Field(schema, "type", JStr("")))
    ensures RenderValue(value, schema, adf) == RenderValue(value, JNull, adf)
  {
  }

  /** Schema "any" renders exactly as no schema. */
  lemma AnyIsShape(value: JValue, schema: JValue, adf: Parser)
    requires schema.JObj? && Field(schema, "type", JStr("")) == JStr("any")
    ensures RenderValue(value, schema, adf) == RenderValue(value, JNull, adf)
  {
    var s := RenderByShape(value, adf);
    if s.Ok? && s.value.None? {
      assert RenderBySchema(value, JStr("any"), adf) == Ok(None);
    }
  }
}
