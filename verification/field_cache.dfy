/** `FieldMetadataCache`: the issue tracker's field definitions kept in a
    per-domain JSON file for a day, and the id → name and id → schema
    lookups over them. The file is a value of the model (missing,
    unreadable, or holding some JSON), the clock a parameter in whole
    seconds, and the API call the outcome it had.
 */
module FieldCache {
  import opened Wrappers
  import opened Json
  import Text

  /** How long a saved list stays fresh, in seconds. */
  const TtlSeconds := 86400

  /** The cache file: absent, unreadable or not JSON, or holding a JSON
      value. */
  datatype File = Missing | Corrupt | Stored(data: JValue)

  /** The cache: its domain, its file and the id → name map built on the
      first name lookup. */
  datatype Cache = Cache(domain: string, file: File, memo: Option<map<JValue, JValue>>)

  /** A number as arithmetic sees it; a boolean counts as 0 or 1. */
  function Number(v: JValue): Option<int> {
    match v
    case JNum(n) => Some(n)
    case JBool(b) => Some(if b then 1 else 0)
    case _ => None
  }

  /** `is_stale`: a missing or unreadable file is stale; otherwise the file
      is stale when more than a day has passed since its "cached_at", which
      counts as 0 when absent. A JSON value that is not a dict, or a time
      that is not a number, raises. */
  function IsStale(file: File, now: int): (r: Result<bool>)
    ensures file.Missing? || file.Corrupt? ==> r == Ok(true)
    ensures file.Stored? ==>
              && (r.Ok? <==> file.data.JObj? && Number(Field(file.data, "cached_at", JNum(0))).Some?)
              && (r.Ok? ==> (r.value <==> now - Number(Field(file.data, "cached_at", JNum(0))).value > 86400))
  {
    match file
    case Stored(data) =>
      var at :- Get(data, "cached_at", JNum(0));
      (match Number(at)
       case Some(t) => Ok(now - t > TtlSeconds)
       case None => Err(TypeError))
    case _ => Ok(true)
  }

  /** `load`: the saved field list, and an empty list for a missing or
      unreadable file or a dict without "fields". */
  function Load(file: File): (r: Result<JValue>)
    ensures file.Missing? || file.Corrupt? ==> r == Ok(JList([]))
    ensures file.Stored? ==> (r.Ok? <==> file.data.JObj?)
    ensures file.Stored? && file.data.JObj? && !Has(file.data, "fields") ==> r == Ok(JList([]))
    ensures file.Stored? && Has(file.data, "fields") ==> r == Index(file.data, "fields")
  {
    match file
    case Stored(data) => Get(data, "fields", JList([]))
    case _ => Ok(JList([]))
  }

  /** `save`: the file now holds the time, the domain and the list, and
      the memoised map is dropped. */
  function Save(c: Cache, fields: JValue, now: int): (r: Cache)
    ensures r.memo.None? && r.domain == c.domain
    ensures r.file.Stored? && r.file.data.JObj?
  {
    Cache(c.domain, Stored(JObj([("cached_at", JNum(now)), ("domain", JStr(c.domain)), ("fields", fields)])), None)
  }

  /** What was saved is what is loaded. */
  lemma SaveThenLoad(c: Cache, fields: JValue, now: int)
    ensures Load(Save(c, fields, now).file) == Ok(fields)
  {
    var d := Save(c, fields, now).file.data;
    assert Find(d.fields[2..], "fields") == Some(0);
    assert Find(d.fields[1..], "fields") == Some(1);
  }

  /** A list saved at `saved` is stale at `now` exactly when more than a
      day has passed. */
  lemma SaveThenStale(c: Cache, fields: JValue, saved: int, now: int)
    ensures IsStale(Save(c, fields, saved).file, now) == Ok(now - saved > TtlSeconds)
  {
    var d := Save(c, fields, saved).file.data;
    assert Find(d.fields, "cached_at") == Some(0);
  }

  // ---------------------------------------------------------------------
  // Names.

  /** The entry defines `key`: a dict whose "id" is `key`. */
  predicate Defines(f: JValue, key: JValue) {
    f.JObj? && Has(f, "id") && Field(f, "id", JNull) == key
  }

  predicate Hashable(v: JValue) {
    !v.JList? && !v.JObj?
  }

  /** One entry of the `{f["id"]: f.get("name", f["id"]) for f in fields
      if "id" in f}` comprehension: a dict with an "id" gives a binding,
      a dict without one is skipped; `"id" in f` on a string is a substring
      test and on a list a membership test, and when either holds
      `f["id"]` raises, as does `in` on anything else. */
  function Entry(f: JValue): (r: Result<Option<(JValue, JValue)>>)
    ensures f.JObj? && !Has(f, "id") ==> r == Ok(None)
    ensures r.Ok? && r.value.Some? ==>
              Defines(f, r.value.value.0) && r.value.value.1 == Field(f, "name", Field(f, "id", JNull))
    ensures r.Ok? && r.value.None? ==> forall key :: !Defines(f, key)
  {
    match f
    case JObj(_) =>
      if Has(f, "id") then
        var key := Field(f, "id", JNull);
        if Hashable(key) then Ok(Some((key, Field(f, "name", key)))) else Err(TypeError)
      else Ok(None)
    case JStr(s) => if Text.Contains(s, "id") then Err(TypeError) else Ok(None)
    case JList(items) => if JStr("id") in items then Err(TypeError) else Ok(None)
    case _ => Err(TypeError)
  }

  /** The id → name map of a field list, later entries overriding earlier
      ones. */
  function NameMap(fields: seq<JValue>): (r: Result<map<JValue, JValue>>)
    ensures r.Ok? ==> forall key :: key in r.value ==> exists i :: 0 <= i < |fields| && Defines(fields[i], key)
    decreases |fields|
  {
    if |fields| == 0 then Ok(map[])
    else
      var m :- NameMap(fields[..|fields| - 1]);
      var e :- Entry(fields[|fields| - 1]);
      match e
      case None => Ok(m)
      case Some(kv) => Ok(m[kv.0 := kv.1])
  }

  /** The name of a field is the "name" of the last entry defining it, or
      its id when that entry has no name. */
  lemma {:induction false} LastWins(fields: seq<JValue>, i: nat, key: JValue)
    requires NameMap(fields).Ok?
    requires i < |fields| && Defines(fields[i], key)
    requires forall j :: i < j < |fields| ==> !Defines(fields[j], key)
    ensures key in NameMap(fields).value
    ensures NameMap(fields).value[key] == Field(fields[i], "name", key)
    decreases |fields|
  {
    var init := fields[..|fields| - 1];
    var e := Entry(fields[|fields| - 1]).value;
    if i == |fields| - 1 {
      assert e.Some? && e.value.0 == key;
    } else {
      assert init[i] == fields[i];
      forall j | i < j < |init| ensures !Defines(init[j], key) {
        assert init[j] == fields[j];
      }
      LastWins(init, i, key);
      assert !Defines(fields[|fields| - 1], key);
    }
  }

  /** `get_field_name` with the map in hand: the bound name, else the id
      itself. */
  function Resolve(m: map<JValue, JValue>, id: string): (r: JValue)
    ensures JStr(id) !in m ==> r == JStr(id)
    ensures JStr(id) in m ==> r == m[JStr(id)]
  {
    if JStr(id) in m then m[JStr(id)] else JStr(id)
  }

  /** A name lookup: the cache afterwards and the name. */
  datatype Lookup = Lookup(cache: Cache, name: JValue)

  /** `get_field_name`: the memoised map, built from the loaded list on
      first use, resolves the id. */
  function GetFieldName(c: Cache, id: string): (r: Result<Lookup>)
    ensures r.Ok? ==> r.value.cache.memo.Some? && r.value.cache.file == c.file
    ensures c.memo.Some? ==> r == Ok(Lookup(c, Resolve(c.memo.value, id)))
  {
    var m :- if c.memo.Some? then Ok(c.memo.value) else
               var fs :- Load(c.file);
               var items :- Iter(fs);
               NameMap(items);
    Ok(Lookup(c.(memo := Some(m)), Resolve(m, id)))
  }

  /** Without a memoised map the lookup builds it from the loaded list. */
  lemma FreshLookup(c: Cache, items: seq<JValue>, id: string)
    requires c.memo.None? && Load(c.file) == Ok(JList(items)) && NameMap(items).Ok?
    ensures GetFieldName(c, id) == Ok(Lookup(c.(memo := Some(NameMap(items).value)), Resolve(NameMap(items).value, id)))
  {
  }

  /** After a save the name lookups see the saved list: an id no entry
      defines is its own name. */
  lemma SavedUnknown(c: Cache, fields: seq<JValue>, now: int, id: string)
    requires NameMap(fields).Ok?
    requires forall i :: 0 <= i < |fields| ==> !Defines(fields[i], JStr(id))
    ensures GetFieldName(Save(c, JList(fields), now), id).Ok?
    ensures GetFieldName(Save(c, JList(fields), now), id).value.name == JStr(id)
  {
    SaveThenLoad(c, JList(fields), now);
    FreshLookup(Save(c, JList(fields), now), fields, id);
    assert JStr(id) !in NameMap(fields).value;
  }

  /** After a save a defined id has the name of the last saved entry
      defining it. */
  lemma SavedName(c: Cache, fields: seq<JValue>, now: int, id: string, i: nat)
    requires NameMap(fields).Ok?
    requires i < |fields| && Defines(fields[i], JStr(id))
    requires forall j :: i < j < |fields| ==> !Defines(fields[j], JStr(id))
    ensures GetFieldName(Save(c, JList(fields), now), id).Ok?
    ensures GetFieldName(Save(c, JList(fields), now), id).value.name == Field(fields[i], "name", JStr(id))
  {
    SaveThenLoad(c, JList(fields), now);
    FreshLookup(Save(c, JList(fields), now), fields, id);
    LastWins(fields, i, JStr(id));
  }

  // ---------------------------------------------------------------------
  // Schemas.

  /** The scan of `get_field_schema`: the "schema" of the first entry whose
      "id" is the id, {} when that entry has none or no entry matches; an
      entry that is not a dict has no `.get`. */
  function FirstSchema(fields: seq<JValue>, id: string): (r: Result<JValue>)
    ensures (forall i :: 0 <= i < |fields| ==> fields[i].JObj? && Field(fields[i], "id", JNull) != JStr(id)) ==>
              r == Ok(JObj([]))
    decreases |fields|
  {
    if |fields| == 0 then Ok(JObj([]))
    else
      var f := fields[0];
      if !f.JObj? then Err(AttributeError)
      else if Field(f, "id", JNull) == JStr(id) then Ok(Field(f, "schema", JObj([])))
      else FirstSchema(fields[1..], id)
  }

  /** The first matching entry decides the schema. */
  lemma {:induction false} FirstWins(fields: seq<JValue>, id: string, i: nat)
    requires i < |fields| && fields[i].JObj? && Field(fields[i], "id", JNull) == JStr(id)
    requires forall j :: 0 <= j < i ==> fields[j].JObj? && Field(fields[j], "id", JNull) != JStr(id)
    ensures FirstSchema(fields, id) == Ok(Field(fields[i], "schema", JObj([])))
    decreases i
  {
    if i > 0 {
      forall j | 0 <= j < i - 1
        ensures fields[1..][j].JObj? && Field(fields[1..][j], "id", JNull) != JStr(id)
      {
        assert fields[1..][j] == fields[j + 1];
      }
      FirstWins(fields[1..], id, i - 1);
    }
  }

  /** Every first match decides the schema. */
  lemma FirstMatches(fields: seq<JValue>, id: string)
    ensures forall i :: 0 <= i < |fields| && fields[i].JObj? && Field(fields[i], "id", JNull) == JStr(id) &&
                        (forall j :: 0 <= j < i ==> fields[j].JObj? && Field(fields[j], "id", JNull) != JStr(id)) ==>
              FirstSchema(fields, id) == Ok(Field(fields[i], "schema", JObj([])))
  {
    forall i | 0 <= i < |fields| && fields[i].JObj? && Field(fields[i], "id", JNull) == JStr(id) &&
               (forall j :: 0 <= j < i ==> fields[j].JObj? && Field(fields[j], "id", JNull) != JStr(id))
      ensures FirstSchema(fields, id) == Ok(Field(fields[i], "schema", JObj([])))
    {
      FirstWins(fields, id, i);
    }
  }

  /** `get_field_schema`: the scan over the loaded list. The schema is that
      of the first dict entry whose "id" is the id, {} without a match. */
  function GetFieldSchema(file: File, id: string): (r: Result<JValue>)
    ensures file.Missing? || file.Corrupt? ==> r == Ok(JObj([]))
    ensures Load(file).Ok? && Iter(Load(file).value).Ok? ==>
              var items := Iter(Load(file).value).value;
              && (forall i :: 0 <= i < |items| && items[i].JObj? && Field(items[i], "id", JNull) == JStr(id) &&
                              (forall j :: 0 <= j < i ==> items[j].JObj? && Field(items[j], "id", JNull) != JStr(id)) ==>
                    r == Ok(Field(items[i], "schema", JObj([]))))
              && ((forall i :: 0 <= i < |items| ==> items[i].JObj? && Field(items[i], "id", JNull) != JStr(id)) ==>
                    r == Ok(JObj([])))
  {
    var fs :- Load(file);
    var items :- Iter(fs);
    FirstMatches(items, id);
    FirstSchema(items, id)
  }

  /** With two dict entries for the same id, the name comes from the later
      and the schema from the earlier. */
  lemma NameLastSchemaFirst(c: Cache, a: JValue, b: JValue, id: string, now: int)
    requires Defines(a, JStr(id)) && Defines(b, JStr(id)) && Hashable(JStr(id))
    ensures GetFieldName(Save(c, JList([a, b]), now), id).Ok?
    ensures GetFieldName(Save(c, JList([a, b]), now), id).value.name == Field(b, "name", JStr(id))
    ensures GetFieldSchema(Save(c, JList([a, b]), now).file, id) == Ok(Field(a, "schema", JObj([])))
  {
    var fs := [a, b];
    assert fs[..1] == [a] && [a][..0] == [];
    assert Entry(a).Ok? && Entry(b).Ok?;
    assert NameMap([a]).Ok?;
    assert NameMap(fs).Ok?;
    SavedName(c, fs, now, id, 1);
    SaveThenLoad(c, JList(fs), now);
    FirstWins(fs, id, 0);
  }

  // ---------------------------------------------------------------------
  // Refreshing.

  /** The cache after a refresh and the list it returns. */
  datatype Refreshed = Refreshed(cache: Cache, fields: JValue)

  /** `refresh`: a fresh cache, unless forced, answers from the file
      without calling the API; otherwise a fetched list is saved and
      returned, and a failed fetch falls back to the saved list when that
      is not empty, else to []. `fetched` is the API's answer, `None`
      when the call raised. */
  function Refresh(c: Cache, force: bool, now: int, fetched: Option<seq<JValue>>): (r: Result<Refreshed>)
  {
    var stale :- if force then Ok(true) else IsStale(c.file, now);
    if !stale then
      var fs :- Load(c.file);
      Ok(Refreshed(c, fs))
    else match fetched
      case Some(fs) => Ok(Refreshed(Save(c, JList(fs), now), JList(fs)))
      case None =>
        var cached :- Load(c.file);
        Ok(Refreshed(c, if Truthy(cached) then cached else JList([])))
  }

  /** Unforced on a fresh cache the API's answer plays no part: the saved
      list comes back and the cache is unchanged. */
  lemma FreshSkipsApi(c: Cache, now: int, a: Option<seq<JValue>>, b: Option<seq<JValue>>)
    requires IsStale(c.file, now) == Ok(false)
    ensures Refresh(c, false, now, a) == Refresh(c, false, now, b)
    ensures Refresh(c, false, now, a).Ok? <==> Load(c.file).Ok?
    ensures Refresh(c, false, now, a).Ok? ==> Refresh(c, false, now, a) == Ok(Refreshed(c, Load(c.file).value))
  {
  }

  /** A forced or stale refresh whose fetch succeeds returns the fetched
      list, and afterwards the file holds it, is fresh, and the names are
      looked up anew. */
  lemma FetchedIsSaved(c: Cache, force: bool, now: int, fs: seq<JValue>)
    requires force || IsStale(c.file, now) == Ok(true)
    ensures Refresh(c, force, now, Some(fs)).Ok?
    ensures Refresh(c, force, now, Some(fs)).value.fields == JList(fs)
    ensures Load(Refresh(c, force, now, Some(fs)).value.cache.file) == Ok(JList(fs))
    ensures IsStale(Refresh(c, force, now, Some(fs)).value.cache.file, now) == Ok(false)
    ensures Refresh(c, force, now, Some(fs)).value.cache.memo.None?
  {
    SaveThenLoad(c, JList(fs), now);
    SaveThenStale(c, JList(fs), now, now);
  }

  /** A forced or stale refresh whose fetch fails returns the saved list
      when it is not empty and [] otherwise, leaving the cache alone. */
  lemma FailedFetchFallsBack(c: Cache, force: bool, now: int)
    requires force || IsStale(c.file, now) == Ok(true)
    ensures Refresh(c, force, now, None).Ok? <==> Load(c.file).Ok?
    ensures Refresh(c, force, now, None).Ok? ==>
              && Refresh(c, force, now, None).value.cache == c
              && (Truthy(Load(c.file).value) ==> Refresh(c, force, now, None).value.fields == Load(c.file).value)
              && (!Truthy(Load(c.file).value) ==> Refresh(c, force, now, None).value.fields == JList([]))
  {
  }
}
