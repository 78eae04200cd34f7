/** `ConfigManager.get_field_filter` and `should_include_field`: which
    fields an export shows, from the command line's comma-separated lists
    or else the "fields" table of an already-parsed configuration.
    Set members are JSON values because a configuration list may hold
    numbers as well as names.
 */
module FieldFilter {
  import opened Wrappers
  import opened Text
  import opened Json

  /** `{"include": set|None, "exclude": set}`: no include set means every
      field; the exclude set is always there, possibly empty. */
  datatype Filter = Filter(included: Option<set<JValue>>, excluded: set<JValue>)

  /** Names as a command-line list gives them: the parts between commas,
      stripped, without the blank ones. */
  function CliNames(s: string): (r: set<JValue>)
    ensures forall x :: x in r ==> x.JStr? && x.s != "" && ',' !in x.s
  {
    set p | p in Split(s, ',') && Strip(p) != "" :: JStr(Strip(p))
  }

  /** A name with no white space at either end. */
  predicate Stripped(n: string) {
    n != "" && !IsSpace(n[0]) && !IsSpace(n[|n| - 1])
  }

  lemma StrippedIsFixed(n: string)
    requires Stripped(n)
    ensures Strip(n) == n
  {
    assert RStrip(n) == n;
  }

  /** Listing names with commas and reading the list back gives the same
      names. */
  lemma CliRoundTrip(names: seq<string>)
    requires |names| >= 1
    requires forall i :: 0 <= i < |names| ==> Stripped(names[i]) && ',' !in names[i]
    ensures CliNames(Join(names, ",")) == set i | 0 <= i < |names| :: JStr(names[i])
  {
    SplitJoin(names, ',');
    assert Split(Join(names, ","), ',') == names;
    forall i | 0 <= i < |names|
      ensures Strip(names[i]) == names[i]
    {
      StrippedIsFixed(names[i]);
    }
    var lhs := CliNames(Join(names, ","));
    var rhs := set i | 0 <= i < |names| :: JStr(names[i]);
    forall x | x in rhs
      ensures x in lhs
    {
      var i :| 0 <= i < |names| && x == JStr(names[i]);
      assert names[i] in Split(Join(names, ","), ',');
    }
  }

  /** Nothing but white space. */
  predicate Blank(s: string) {
    forall i :: 0 <= i < |s| ==> IsSpace(s[i])
  }

  /** An empty or blank command-line list names nothing. */
  lemma BlankCliIsEmpty(s: string)
    requires Blank(s)
    ensures CliNames(s) == {}
  {
    SplitBlank(s);
    forall p | p in Split(s, ',')
      ensures Strip(p) == ""
    {
      BlankStrips(p);
    }
  }

  /** The parts of a blank text are blank. */
  lemma {:induction false} SplitBlank(s: string)
    requires Blank(s)
    ensures forall p :: p in Split(s, ',') ==> Blank(p)
    decreases |s|
  {
    if |s| > 0 {
      SplitBlank(s[1..]);
      var rest := Split(s[1..], ',');
      if s[0] != ',' {
        var first := [s[0]] + rest[0];
        assert rest[0] in rest;
        assert Blank(first) by {
          forall i | 0 <= i < |first| ensures IsSpace(first[i]) {
            if i > 0 { assert first[i] == rest[0][i - 1]; }
          }
        }
        forall p | p in rest[1..] ensures Blank(p) { assert p in rest; }
      }
    }
  }

  lemma BlankStrips(p: string)
    requires Blank(p)
    ensures Strip(p) == ""
  {
  }

  /** `set(v)`: the items of a list, the characters of a string or the
      keys of a dict; a list or dict among the items is unhashable, and
      anything else is not iterable. */
  function SetOf(v: JValue): (r: Result<set<JValue>>)
    ensures r.Ok? ==> Iter(v).Ok? && forall x :: x in r.value <==> x in Iter(v).value
    ensures r.Ok? <==> Iter(v).Ok? && forall i :: 0 <= i < |Iter(v).value| ==> Hashable(Iter(v).value[i])
  {
    var items :- Iter(v);
    if forall i :: 0 <= i < |items| ==> Hashable(items[i]) then
      Ok(set i | 0 <= i < |items| :: items[i])
    else Err(TypeError)
  }

  predicate Hashable(v: JValue) {
    !v.JList? && !v.JObj?
  }

  /** The configuration's list under `key` can be read: the "fields"
      section is a dict, and the list, when truthy, makes a set. */
  predicate ConfigListReads(fieldsConfig: JValue, key: string) {
    fieldsConfig.JObj? && (Truthy(Field(fieldsConfig, key, JNull)) ==> SetOf(Field(fieldsConfig, key, JNull)).Ok?)
  }

  /** The configuration's list under `key` when that is truthy. */
  function FromConfig(fieldsConfig: JValue, key: string): (r: Result<Option<set<JValue>>>)
    ensures r.Ok? <==> ConfigListReads(fieldsConfig, key)
    ensures r.Ok? ==> fieldsConfig.JObj?
    ensures r.Ok? ==> (r.value.Some? <==> Truthy(Field(fieldsConfig, key, JNull)))
    ensures r.Ok? && r.value.Some? ==> SetOf(Field(fieldsConfig, key, JNull)) == Ok(r.value.value)
  {
    var v :- Get(fieldsConfig, key, JNull);
    if Truthy(v) then
      var s :- SetOf(v);
      Ok(Some(s))
    else Ok(None)
  }

  /** `get_field_filter`: a command-line list, when given, decides its set
      and the configuration's list for it is not looked at; otherwise a
      truthy configuration list does; otherwise the include set is absent
      and the exclude set empty. */
  function GetFieldFilter(config: JValue, cliInclude: Option<string>, cliExclude: Option<string>): (r: Result<Filter>)
    ensures r.Ok? <==>
              && config.JObj?
              && (cliInclude.None? ==> ConfigListReads(Field(config, "fields", JObj([])), "include"))
              && (cliExclude.None? ==> ConfigListReads(Field(config, "fields", JObj([])), "exclude"))
    ensures config.JObj? && !Has(config, "fields") && cliInclude.None? && cliExclude.None? ==>
              r == Ok(Filter(None, {}))
    ensures r.Ok? ==> config.JObj?
    ensures r.Ok? && cliInclude.Some? ==> r.value.included == Some(CliNames(cliInclude.value))
    ensures r.Ok? && cliExclude.Some? ==> r.value.excluded == CliNames(cliExclude.value)
    ensures r.Ok? && cliInclude.None? ==>
              var fc := Field(config, "fields", JObj([]));
              && fc.JObj?
              && (r.value.included.None? <==> !Truthy(Field(fc, "include", JNull)))
              && (r.value.included.Some? ==> SetOf(Field(fc, "include", JNull)) == Ok(r.value.included.value))
    ensures r.Ok? && cliExclude.None? ==>
              var fc := Field(config, "fields", JObj([]));
              && fc.JObj?
              && (!Truthy(Field(fc, "exclude", JNull)) ==> r.value.excluded == {})
              && (Truthy(Field(fc, "exclude", JNull)) ==> SetOf(Field(fc, "exclude", JNull)) == Ok(r.value.excluded))
  {
    var fc :- Get(config, "fields", JObj([]));
    var inc :- if cliInclude.Some? then Ok(Some(CliNames(cliInclude.value))) else FromConfig(fc, "include");
    var exc :- if cliExclude.Some? then Ok(CliNames(cliExclude.value)) else
                     var s :- FromConfig(fc, "exclude");
                     Ok(s.GetOr({}));
    Ok(Filter(inc, exc))
  }

  /** With both lists on the command line the configuration file plays no
      part. */
  lemma CliOverridesConfig(config1: JValue, config2: JValue, inc: string, exc: string)
    requires config1.JObj? && config2.JObj?
    ensures GetFieldFilter(config1, Some(inc), Some(exc)) == GetFieldFilter(config2, Some(inc), Some(exc))
    ensures GetFieldFilter(config1, Some(inc), Some(exc)) == Ok(Filter(Some(CliNames(inc)), CliNames(exc)))
  {
  }

  /** `should_include_field`: everything without a filter; an excluded
      name never; else every name when there is no include set, and the
      names in it when there is. */
  function ShouldInclude(name: string, filter: Option<Filter>): (r: bool)
    ensures filter.None? ==> r
    ensures filter.Some? && JStr(name) in filter.value.excluded ==> !r
    ensures filter.Some? && filter.value.included.None? ==> (r <==> JStr(name) !in filter.value.excluded)
    ensures filter.Some? && filter.value.included.Some? && JStr(name) !in filter.value.excluded ==>
              (r <==> JStr(name) in filter.value.included.value)
  {
    match filter
    case None => true
    case Some(f) =>
      if JStr(name) in f.excluded then false
      else if f.included.None? then true
      else JStr(name) in f.included.value
  }

  /** With command-line lists a field is shown exactly when the include
      list names it and the exclude list does not; an empty include list
      shows nothing. */
  lemma CliDecides(config: JValue, inc: string, exc: string, name: string)
    requires config.JObj?
    ensures var f := GetFieldFilter(config, Some(inc), Some(exc));
            && f.Ok?
            && (ShouldInclude(name, Some(f.value)) <==> JStr(name) in CliNames(inc) && JStr(name) !in CliNames(exc))
  {
  }

  lemma EmptyIncludeShowsNothing(config: JValue, exc: Option<string>, name: string)
    requires GetFieldFilter(config, Some(""), exc).Ok?
    ensures !ShouldInclude(name, Some(GetFieldFilter(config, Some(""), exc).value))
  {
    BlankCliIsEmpty("");
  }
}
