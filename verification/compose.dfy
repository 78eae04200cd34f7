/** The current `compose_markdown` and the sections it is built from: the
    comments section, the metadata map behind the front matter, the title
    line and the order of the document's parts.

    The document is a sequence of lines joined by newlines. Where the
    source raises (`.get` on a value that is not a dict, iterating a
    number), the composer returns `Err`.
 */
module Compose {
  import opened Wrappers
  import opened Text
  import opened Json
  import opened Attachments
  import opened Links
  import opened Html
  import opened Select
  import opened Seqs
  import opened Sections
  import Adf

  // ---------------------------------------------------------------------
  // Comments.

  const NoCommentBody := "*No comment body*"

  /** A comment's Markdown before relinking: the converted rendered HTML,
      else a dict body through the ADF renderer, else a non-empty string
      body as it is, else the placeholder. */
  function CommentBody(comment: JValue, env: Env): (r: Result<string>)
    ensures r.Ok? ==> comment.JObj?
    ensures comment.JObj? ==>
              var html := Field(comment, "renderedBody", JStr(""));
              var body := Field(comment, "body", JNull);
              && (Truthy(html) ==> r == Ok(Convert(html, env.md)))
              && (!Truthy(html) && body.JObj? ==> r == Adf.Render(body))
              && (!Truthy(html) && body.JStr? && body.s != "" ==> r == Ok(body.s))
              && (!Truthy(html) && !body.JObj? && !(body.JStr? && body.s != "") ==> r == Ok(NoCommentBody))
  {
    var html :- Get(comment, "renderedBody", JStr(""));
    if Truthy(html) then Ok(Convert(html, env.md))
    else
      var body := Field(comment, "body", JNull);
      if body.JObj? then Adf.Render(body)
      else if body.JStr? && body.s != "" then Ok(body.s)
      else Ok(NoCommentBody)
  }

  /** "**author** - _date_", with "Unknown" for a missing display name and
      "Unknown date" for a missing date. */
  function CommentHeader(comment: JValue, env: Env): (r: Result<string>)
    ensures r.Ok? <==> comment.JObj? && Field(comment, "author", JObj([])).JObj?
    ensures r.Ok? ==>
              var author := Field(Field(comment, "author", JObj([])), "displayName", JStr("Unknown"));
              var date := FormatDate(Field(comment, "created", JStr("")), env.parseDate);
              && StartsWith(r.value, "**" + Str(author) + "** - _")
              && r.value[|Str(author)| + 8..] == date + "_"
  {
    var author :- Get(comment, "author", JObj([]));
    var name :- Get(author, "displayName", JStr("Unknown"));
    var date := FormatDate(Field(comment, "created", JStr("")), env.parseDate);
    var head := "**" + Str(name) + "** - _";
    assert |head| == |Str(name)| + 8;
    var r := head + (date + "_");
    assert r[..|head|] == head && r[|head|..] == date + "_";
    Ok(r)
  }

  /** One comment's lines: header, blank, relinked body. */
  function CommentBlock(comment: JValue, env: Env, atts: seq<Saved>): (r: Result<seq<string>>)
    ensures r.Ok? <==> CommentHeader(comment, env).Ok? && CommentBody(comment, env).Ok?
    ensures r.Ok? ==>
              && |r.value| == 3
              && r.value[0] == CommentHeader(comment, env).value
              && r.value[1] == ""
              && r.value[2] == RewriteText(CommentBody(comment, env).value, env.domain, atts)
  {
    var header := CommentHeader(comment, env);
    var body := CommentBody(comment, env);
    if header.Err? then Err(header.fault)
    else if body.Err? then Err(body.fault)
    else Ok([header.value, "", RewriteText(body.value, env.domain, atts)])
  }

  const Separator: seq<string> := ["", "---", ""]

  /** The blocks in order with `Separator` between consecutive ones. */
  function Separated(blocks: seq<seq<string>>): seq<string>
    decreases |blocks|
  {
    if |blocks| == 0 then []
    else if |blocks| == 1 then blocks[0]
    else blocks[0] + Separator + Separated(blocks[1..])
  }

  /** Three-line blocks sit six lines apart, and exactly the gaps between
      two blocks hold the separator. */
  lemma {:induction false} SeparatedLayout(blocks: seq<seq<string>>)
    requires |blocks| > 0
    requires forall i :: 0 <= i < |blocks| ==> |blocks[i]| == 3
    ensures |Separated(blocks)| == 6 * |blocks| - 3
    ensures forall i :: 0 <= i < |blocks| ==> Separated(blocks)[6 * i..6 * i + 3] == blocks[i]
    ensures forall i :: 0 <= i < |blocks| - 1 ==> Separated(blocks)[6 * i + 3..6 * i + 6] == Separator
    decreases |blocks|
  {
    if |blocks| > 1 {
      var tail := blocks[1..];
      SeparatedLayout(tail);
      var r := Separated(blocks);
      var t := Separated(tail);
      assert r == blocks[0] + Separator + t;
      assert r[..3] == blocks[0];
      assert r[3..6] == Separator;
      forall i | 1 <= i < |blocks|
        ensures r[6 * i..6 * i + 3] == blocks[i]
      {
        assert r[6 * i..6 * i + 3] == t[6 * (i - 1)..6 * (i - 1) + 3];
        assert tail[i - 1] == blocks[i];
      }
      forall i | 1 <= i < |blocks| - 1
        ensures r[6 * i + 3..6 * i + 6] == Separator
      {
        assert r[6 * i + 3..6 * i + 6] == t[6 * (i - 1) + 3..6 * (i - 1) + 6];
      }
    }
  }

  /** The comment list: `fields.comment.comments`, each lookup defaulting
      to an empty dict or list. */
  function CommentList(issue: JValue): (r: Result<JValue>)
    ensures r.Ok? <==> issue.JObj? && Field(issue, "fields", JObj([])).JObj?
                       && Field(Field(issue, "fields", JObj([])), "comment", JObj([])).JObj?
  {
    var fields :- Get(issue, "fields", JObj([]));
    var data :- Get(fields, "comment", JObj([]));
    Get(data, "comments", JList([]))
  }

  /** "## Comments", a blank line, the blocks with separators, and a
      closing blank line. */
  function Framed(blocks: seq<seq<string>>): seq<string> {
    ["## Comments", ""] + Separated(blocks) + [""]
  }

  /** Where each block and each separator sits in the framed section. */
  lemma FramedLayout(blocks: seq<seq<string>>)
    requires |blocks| > 0
    requires forall i :: 0 <= i < |blocks| ==> |blocks[i]| == 3
    ensures var r := Framed(blocks);
            && |r| == 6 * |blocks|
            && r[0] == "## Comments" && r[1] == "" && r[|r| - 1] == ""
            && (forall i :: 0 <= i < |blocks| ==> r[6 * i + 2..6 * i + 5] == blocks[i])
            && (forall i :: 0 <= i < |blocks| - 1 ==> r[6 * i + 5..6 * i + 8] == Separator)
  {
    SeparatedLayout(blocks);
    var body := Separated(blocks);
    var r := Framed(blocks);
    forall i | 0 <= i < |blocks|
      ensures r[6 * i + 2..6 * i + 5] == blocks[i]
    {
      assert r[6 * i + 2..6 * i + 5] == body[6 * i..6 * i + 3];
    }
    forall i | 0 <= i < |blocks| - 1
      ensures r[6 * i + 5..6 * i + 8] == Separator
    {
      assert r[6 * i + 5..6 * i + 8] == body[6 * i + 3..6 * i + 6];
    }
  }

  /** Every comment's block, or the first comment that cannot be
      rendered. */
  function Blocks(comments: seq<JValue>, env: Env, atts: seq<Saved>): (r: Result<seq<seq<string>>>)
    ensures r.Ok? <==> forall i :: 0 <= i < |comments| ==> CommentBlock(comments[i], env, atts).Ok?
    ensures r.Ok? ==> |r.value| == |comments|
    ensures r.Ok? ==> forall i :: 0 <= i < |comments| ==> r.value[i] == CommentBlock(comments[i], env, atts).value
  {
    Each(comments, c => CommentBlock(c, env, atts))
  }

  /** The section for a non-empty list of comments, or the first comment
      that cannot be rendered. */
  function CommentLines(comments: seq<JValue>, env: Env, atts: seq<Saved>): (r: Result<seq<string>>)
    requires |comments| > 0
    ensures r.Ok? <==> forall i :: 0 <= i < |comments| ==> CommentBlock(comments[i], env, atts).Ok?
    ensures r.Ok? ==>
              && |r.value| == 6 * |comments|
              && r.value[0] == "## Comments" && r.value[1] == "" && r.value[|r.value| - 1] == ""
              && (forall i :: 0 <= i < |comments| ==>
                    r.value[6 * i + 2..6 * i + 5] == CommentBlock(comments[i], env, atts).value)
              && (forall i :: 0 <= i < |comments| - 1 ==> r.value[6 * i + 5..6 * i + 8] == Separator)
  {
    var blocks :- Blocks(comments, env, atts);
    FramedLayout(blocks);
    Ok(Framed(blocks))
  }

  /** `_compose_comments_section`: nothing without comments, else the
      comment lines. A truthy string or dict yields strings when iterated,
      and the first one's `.get` raises; anything else cannot be
      iterated. */
  function CommentsSection(issue: JValue, env: Env, atts: seq<Saved>): (r: Result<seq<string>>)
    ensures CommentList(issue).Ok? && !Truthy(CommentList(issue).value) ==> r == Ok([])
    ensures r.Ok? && |r.value| > 0 ==>
              && CommentList(issue).Ok?
              && CommentList(issue).value.JList?
              && |CommentList(issue).value.items| > 0
              && r == CommentLines(CommentList(issue).value.items, env, atts)
    ensures CommentList(issue).Ok? && CommentList(issue).value.JList? && |CommentList(issue).value.items| > 0 ==>
              r == CommentLines(CommentList(issue).value.items, env, atts)
    ensures CommentList(issue).Ok? && Truthy(CommentList(issue).value) && !CommentList(issue).value.JList? ==>
              r.Err?
    ensures CommentList(issue).Err? ==> r.Err?
  {
    var comments :- CommentList(issue);
    SectionOf(comments, env, atts)
  }

  /** The section for the value found under "comment"/"comments". */
  function SectionOf(comments: JValue, env: Env, atts: seq<Saved>): (r: Result<seq<string>>)
    ensures !Truthy(comments) ==> r == Ok([])
    ensures Truthy(comments) && !comments.JList? ==> r.Err?
    ensures comments.JList? && |comments.items| > 0 ==> r == CommentLines(comments.items, env, atts)
    ensures r.Ok? && |r.value| > 0 ==> comments.JList? && |comments.items| > 0
  {
    if !Truthy(comments) then Ok([])
    else match comments
      case JList(items) => CommentLines(items, env, atts)
      case JStr(_) => Err(AttributeError)
      case JObj(_) => Err(AttributeError)
      case _ => Err(TypeError)
  }

  // ---------------------------------------------------------------------
  // The metadata map behind the front matter.

  /** The keys the metadata map can hold, in the order they are set. */
  const KeyOrder: seq<string> := [
    "key", "summary", "type", "status", "priority", "resolution",
    "assignee", "reporter", "creator", "labels", "components",
    "parent_key", "parent_summary", "affects_versions", "fix_versions",
    "created_at", "updated_at", "resolved_at"]

  /** The positions of the keys the title reads. */
  lemma TitleKeys()
    ensures KeyOrder[0] == "key" && KeyOrder[1] == "summary"
  {
  }

  /** No key is listed twice. */
  lemma KeyOrderDistinct()
    ensures |KeyOrder| == 18
    ensures forall i, j :: 0 <= i < j < |KeyOrder| ==> KeyOrder[i] != KeyOrder[j]
  {
  }

  /** The values that survive the final comprehension: neither `None` nor
      an empty list. */
  predicate Kept(v: JValue) {
    !v.JNull? && !(v.JList? && |v.items| == 0)
  }

  /** The value when the filter keeps it, else the default. */
  function KeptOr(v: JValue, d: JValue): JValue {
    if Kept(v) then v else d
  }

  predicate KeptEntry(e: (string, JValue)) {
    Kept(e.1)
  }

  /** `fields.get(k)` when it is truthy, else nothing (`JNull`). */
  function Given(fields: JValue, k: string): (r: JValue)
    requires fields.JObj?
    ensures Truthy(r) <==> Truthy(Field(fields, k, JNull))
    ensures Truthy(r) ==> r == Field(fields, k, JNull)
    ensures !Truthy(r) ==> r == JNull
  {
    var v := Field(fields, k, JNull);
    if Truthy(v) then v else JNull
  }

  /** `fields[k].get(sub)` when `fields.get(k)` is truthy, else nothing. */
  function NameOf(fields: JValue, k: string, sub: string): (r: Result<JValue>)
    ensures r.Ok? <==> fields.JObj? && (Truthy(Field(fields, k, JNull)) ==> Field(fields, k, JNull).JObj?)
    ensures r.Ok? ==> (Truthy(Field(fields, k, JNull)) ==> r.value == Field(Field(fields, k, JNull), sub, JNull))
                      && (!Truthy(Field(fields, k, JNull)) ==> r.value == JNull)
  {
    var v :- Get(fields, k, JNull);
    if Truthy(v) then Get(v, sub, JNull) else Ok(JNull)
  }

  /** An item's "name", or nothing. */
  function NameField(v: JValue): JValue {
    if v.JObj? then Field(v, "name", JNull) else JNull
  }

  /** `[x.get("name") for x in xs if x.get("name")]`: the truthy names in
      order; an item that is not a dict has no `.get`. */
  function Names(xs: JValue): (r: Result<JValue>)
    ensures r.Ok? ==> Iter(xs).Ok? && r.value.JList?
    ensures r.Ok? ==>
              var items := Iter(xs).value;
              var names := seq(|items|, i requires 0 <= i < |items| => NameField(items[i]));
              && (forall i :: 0 <= i < |items| ==> items[i].JObj?)
              && Subseq(r.value.items, names)
              && (forall j :: 0 <= j < |r.value.items| ==> Truthy(r.value.items[j]))
              && (forall i :: 0 <= i < |items| && Truthy(names[i]) ==> names[i] in r.value.items)
              && |r.value.items| == |set i | 0 <= i < |items| && Truthy(names[i])|
    ensures Iter(xs).Ok? && (forall i :: 0 <= i < |Iter(xs).value| ==> Iter(xs).value[i].JObj?) ==> r.Ok?
  {
    var items :- Iter(xs);
    var rs := seq(|items|, i requires 0 <= i < |items| => Get(items[i], "name", JNull));
    assert forall i :: 0 <= i < |items| ==> rs[i] == Get(items[i], "name", JNull);
    var names :- Collect(rs);
    assert names == seq(|items|, i requires 0 <= i < |items| => NameField(items[i]));
    Ok(JList(KeepTruthy(names)))
  }

  /** The truthy elements in order: a subsequence holding each truthy
      element, once per position it occupies. */
  function KeepTruthy(names: seq<JValue>): (r: seq<JValue>)
    ensures Subseq(r, names)
    ensures forall j :: 0 <= j < |r| ==> Truthy(r[j])
    ensures forall i :: 0 <= i < |names| && Truthy(names[i]) ==> names[i] in r
    ensures |r| == |set i | 0 <= i < |names| && Truthy(names[i])|
  {
    FilterSubseq(names, Truthy);
    FilterCount(names, Truthy);
    assert Passing(names, Truthy) == set i | 0 <= i < |names| && Truthy(names[i]);
    Filter(names, Truthy)
  }

  /** `fields[k]` as a list of names when `fields.get(k)` is truthy, else
      nothing. */
  function NamesOf(fields: JValue, k: string): (r: Result<JValue>)
    ensures r.Ok? ==> fields.JObj?
    ensures r.Ok? && !Truthy(Field(fields, k, JNull)) ==> r.value == JNull
    ensures r.Ok? && Truthy(Field(fields, k, JNull)) ==> r == Names(Field(fields, k, JNull))
  {
    var v :- Get(fields, k, JNull);
    if Truthy(v) then Names(v) else Ok(JNull)
  }

  /** The parent's key and, when truthy, its summary; nothing without a
      parent. */
  function ParentOf(fields: JValue): (r: Result<(JValue, JValue)>)
    ensures r.Ok? ==> fields.JObj?
    ensures r.Ok? && !Truthy(Field(fields, "parent", JNull)) ==> r.value == (JNull, JNull)
    ensures r.Ok? && Truthy(Field(fields, "parent", JNull)) ==>
              var p := Field(fields, "parent", JNull);
              && p.JObj?
              && r.value.0 == Field(p, "key", JNull)
              && Field(p, "fields", JObj([])).JObj?
              && (!Truthy(r.value.1) || r.value.1 == Field(Field(p, "fields", JObj([])), "summary", JNull))
  {
    var p :- Get(fields, "parent", JNull);
    if !Truthy(p) then Ok((JNull, JNull))
    else
      var key :- Get(p, "key", JNull);
      var pf := Field(p, "fields", JObj([]));
      var summary :- Get(pf, "summary", JNull);
      Ok((key, if Truthy(summary) then summary else JNull))
  }

  /** The value set for each key of `KeyOrder`, `JNull` where none is set,
      computed in the order of the source (the first raise wins). */
  function Raw(issue: JValue): (r: Result<seq<JValue>>)
    ensures r.Ok? ==> |r.value| == |KeyOrder|
    ensures r.Ok? ==> issue.JObj? && r.value[0] == Field(issue, "key", JStr("UNKNOWN"))
    ensures r.Ok? ==> Field(issue, "fields", JObj([])).JObj?
                      && r.value[1] == Field(Field(issue, "fields", JObj([])), "summary", JStr("No Summary"))
  {
    var fields :- Get(issue, "fields", JObj([]));
    var key := Field(issue, "key", JStr("UNKNOWN"));
    var summary :- Get(fields, "summary", JStr("No Summary"));
    var rest :- Details(fields);
    Ok([key, summary] + rest)
  }

  /** The values set after the key and the summary, for the keys from
      "type" on. */
  function Details(fields: JValue): (r: Result<seq<JValue>>)
    requires fields.JObj?
    ensures r.Ok? ==> |r.value| == |KeyOrder| - 2
  {
    var kind :- NameOf(fields, "issuetype", "name");
    var status :- NameOf(fields, "status", "name");
    var priority :- NameOf(fields, "priority", "name");
    var resolution :- NameOf(fields, "resolution", "name");
    var assignee :- NameOf(fields, "assignee", "displayName");
    var reporter :- NameOf(fields, "reporter", "displayName");
    var creator :- NameOf(fields, "creator", "displayName");
    var labels := Given(fields, "labels");
    var components :- NamesOf(fields, "components");
    var parent :- ParentOf(fields);
    var affects :- NamesOf(fields, "versions");
    var fixes :- NamesOf(fields, "fixVersions");
    var created := Given(fields, "created");
    var updated := Given(fields, "updated");
    var resolved := Given(fields, "resolutiondate");
    Ok([kind, status, priority, resolution, assignee, reporter, creator,
        labels, components, parent.0, parent.1, affects, fixes, created, updated, resolved])
  }

  /** Each key next to its value. */
  function Entries(raw: seq<JValue>): (r: seq<(string, JValue)>)
    requires |raw| == |KeyOrder|
    ensures |r| == |KeyOrder|
    ensures forall i :: 0 <= i < |r| ==> r[i] == (KeyOrder[i], raw[i])
  {
    seq(|KeyOrder|, i requires 0 <= i < |KeyOrder| => (KeyOrder[i], raw[i]))
  }

  /** The keys of a map given as its entries. */
  function Keys(m: seq<(string, JValue)>): (r: seq<string>)
    ensures |r| == |m| && forall i :: 0 <= i < |m| ==> r[i] == m[i].0
  {
    seq(|m|, i requires 0 <= i < |m| => m[i].0)
  }

  /** The entries of the values set that survive the final comprehension,
      in key order. */
  function Chosen(raw: seq<JValue>): (r: seq<(string, JValue)>)
    requires |raw| == |KeyOrder|
    ensures forall j :: 0 <= j < |r| ==> Kept(r[j].1)
    ensures Subseq(r, Entries(raw))
    ensures forall i :: 0 <= i < |KeyOrder| && Kept(raw[i]) ==> (KeyOrder[i], raw[i]) in r
  {
    var all := Entries(raw);
    FilterSubseq(all, KeptEntry);
    assert forall i :: 0 <= i < |KeyOrder| && Kept(raw[i]) ==> KeptEntry(all[i]);
    Filter(all, KeptEntry)
  }

  /** `_generate_metadata_dict`: the entries that were set, in key order,
      without `None` values and empty lists. */
  function Metadata(issue: JValue): (r: Result<seq<(string, JValue)>>)
    ensures r.Ok? <==> Raw(issue).Ok?
    ensures r.Ok? ==> forall j :: 0 <= j < |r.value| ==> Kept(r.value[j].1)
    ensures r.Ok? ==> Subseq(r.value, Entries(Raw(issue).value))
    ensures r.Ok? ==> forall i :: 0 <= i < |KeyOrder| && Kept(Raw(issue).value[i]) ==>
                        (KeyOrder[i], Raw(issue).value[i]) in r.value
  {
    var raw :- Raw(issue);
    Ok(Chosen(raw))
  }

  /** Dropping entries keeps the keys a subsequence. */
  lemma {:induction false} SubseqKeys(a: seq<(string, JValue)>, b: seq<(string, JValue)>)
    requires Subseq(a, b)
    ensures Subseq(Keys(a), Keys(b))
    decreases |b|
  {
    if |a| > 0 {
      assert Keys(b)[1..] == Keys(b[1..]);
      if a[0] == b[0] && Subseq(a[1..], b[1..]) {
        SubseqKeys(a[1..], b[1..]);
        assert Keys(a)[1..] == Keys(a[1..]);
      } else {
        SubseqKeys(a, b[1..]);
      }
    }
  }

  /** The metadata keys come in the fixed order, each at most once. */
  lemma MetadataKeyOrder(issue: JValue)
    requires Metadata(issue).Ok?
    ensures Subseq(Keys(Metadata(issue).value), KeyOrder)
  {
    var all := Entries(Raw(issue).value);
    SubseqKeys(Metadata(issue).value, all);
    assert Keys(all) == KeyOrder;
  }

  /** An entry under a key of the fixed order holds the value set for that
      key, and that value survived the filter. */
  lemma EntryWithKey(raw: seq<JValue>, i: nat, j: nat)
    requires |raw| == |KeyOrder| && i < |KeyOrder|
    requires j < |Chosen(raw)| && Chosen(raw)[j].0 == KeyOrder[i]
    ensures Chosen(raw)[j] == (KeyOrder[i], raw[i])
    ensures Kept(raw[i])
  {
    var meta := Chosen(raw);
    var all := Entries(raw);
    KeyOrderDistinct();
    SubseqMember(meta, all, meta[j]);
    var m :| 0 <= m < |all| && all[m] == meta[j];
    assert KeyOrder[m] == KeyOrder[i];
  }

  /** `get(k, d)` on the chosen entries, for a key of the fixed order: the
      value that was set when it survived the filter, else the default. */
  lemma ChosenLookup(raw: seq<JValue>, i: nat, d: JValue)
    requires |raw| == |KeyOrder| && i < |KeyOrder|
    ensures Field(JObj(Chosen(raw)), KeyOrder[i], d) == KeptOr(raw[i], d)
  {
    var meta := Chosen(raw);
    var k := KeyOrder[i];
    forall j | 0 <= j < |meta| && meta[j].0 == k
      ensures meta[j] == (k, raw[i]) && Kept(raw[i])
    {
      EntryWithKey(raw, i, j);
    }
    if Kept(raw[i]) {
      assert (k, raw[i]) in meta;
    }
  }

  /** `metadata.get(k, d)` for a key of the fixed order: the value that was
      set when it survived the filter, else the default. */
  lemma MetadataLookup(issue: JValue, i: nat, d: JValue)
    requires Metadata(issue).Ok? && i < |KeyOrder|
    ensures Field(JObj(Metadata(issue).value), KeyOrder[i], d) == KeptOr(Raw(issue).value[i], d)
  {
    ChosenLookup(Raw(issue).value, i, d);
  }

  // ---------------------------------------------------------------------
  // The document.

  /** `# [key](base/browse/key): summary`, for the key and summary as the
      f-string shows them. */
  function Title(key: string, summary: string, baseUrl: string): string {
    "# " + (Show(Link(key, baseUrl + "/browse/" + key)) + (": " + summary))
  }

  /** The title reads back as "# ", a link whose text is the key and whose
      target is the issue's browse URL, and the rest. */
  lemma TitleLinksToIssue(key: string, summary: string, baseUrl: string)
    requires ']' !in key && ')' !in baseUrl + "/browse/" + key
    ensures Tokenize(Title(key, summary, baseUrl)) ==
              [Plain("# ")] + ([Link(key, baseUrl + "/browse/" + key)] + Tokenize(": " + summary))
  {
    TokenizePlainShow("# ", Link(key, baseUrl + "/browse/" + key), ": " + summary);
  }

  /** What the document is assembled from. */
  datatype Parts = Parts(meta: seq<(string, JValue)>, desc: string, comments: seq<string>, attachments: seq<string>)

  /** The sections of an issue, or the first failure among them. */
  function Gather(issue: JValue, env: Env, atts: seq<Saved>): (r: Result<Parts>)
    ensures r.Ok? <==>
              && issue.JObj?
              && Metadata(issue).Ok?
              && Description(Field(issue, "fields", JObj([])), Field(issue, "renderedFields", JObj([])), env, Current, atts).Ok?
              && CommentsSection(issue, env, atts).Ok?
              && AttachmentsSection(atts).Ok?
    ensures r.Ok? ==>
              && r.value.meta == Metadata(issue).value
              && r.value.desc == Description(Field(issue, "fields", JObj([])), Field(issue, "renderedFields", JObj([])), env, Current, atts).value
              && r.value.comments == CommentsSection(issue, env, atts).value
              && r.value.attachments == AttachmentsSection(atts).value
  {
    var fields :- Get(issue, "fields", JObj([]));
    var rendered := Field(issue, "renderedFields", JObj([]));
    var meta :- Metadata(issue);
    var desc :- Description(fields, rendered, env, Current, atts);
    var comments :- CommentsSection(issue, env, atts);
    var attachments :- AttachmentsSection(atts);
    Ok(Parts(meta, desc, comments, attachments))
  }

  /** The ten lines before the comments: front matter between "---"
      lines, a blank line, the title, a blank line, and the description
      under its heading. */
  function Front(p: Parts, env: Env, yaml: seq<(string, JValue)> -> string): seq<string> {
    var m := JObj(p.meta);
    ["---", RStrip(yaml(p.meta)), "---", "",
     Title(Str(Field(m, "key", JStr("UNKNOWN"))), Str(Field(m, "summary", JStr("No Summary"))), env.baseUrl), "",
     "## Description", "", p.desc, ""]
  }

  /** The lines of the document: the front lines, then the comment lines
      and the attachment lines, each kept whole and in order. */
  function Document(p: Parts, env: Env, yaml: seq<(string, JValue)> -> string): (r: seq<string>)
    ensures |r| == 10 + |p.comments| + |p.attachments|
    ensures r[..10] == Front(p, env, yaml)
    ensures r[10..10 + |p.comments|] == p.comments
    ensures r[10 + |p.comments|..] == p.attachments
  {
    var head := Front(p, env, yaml);
    var r := head + p.comments + p.attachments;
    Assoc(head, p.comments, p.attachments);
    DropPrefix(head, p.comments + p.attachments);
    SliceOf(r, 10, p.comments, p.attachments);
    AfterOf(r, 10, p.comments, p.attachments);
    r
  }

  /** The title, the description heading and the description sit at
      lines 4, 6 and 8. */
  lemma DocumentFront(p: Parts, env: Env, yaml: seq<(string, JValue)> -> string)
    ensures |Document(p, env, yaml)| >= 10
    ensures Document(p, env, yaml)[4] == Title(Str(Field(JObj(p.meta), "key", JStr("UNKNOWN"))),
                                               Str(Field(JObj(p.meta), "summary", JStr("No Summary"))), env.baseUrl)
    ensures Document(p, env, yaml)[6] == "## Description"
    ensures Document(p, env, yaml)[8] == p.desc
  {
    var r := Document(p, env, yaml);
    var f := Front(p, env, yaml);
    assert r[4] == f[4] && r[6] == f[6] && r[8] == f[8];
  }

  /** `compose_markdown` as lines. `yaml` is the front-matter serialiser. */
  function ComposeLines(issue: JValue, env: Env, atts: seq<Saved>, yaml: seq<(string, JValue)> -> string): (r: Result<seq<string>>)
    ensures r.Ok? <==> Gather(issue, env, atts).Ok?
    ensures r.Ok? ==> |r.value| >= 10 && r.value[6] == "## Description"
  {
    var p :- Gather(issue, env, atts);
    DocumentFront(p, env, yaml);
    Ok(Document(p, env, yaml))
  }

  lemma ComposeIsDocument(issue: JValue, env: Env, atts: seq<Saved>, yaml: seq<(string, JValue)> -> string)
    requires ComposeLines(issue, env, atts, yaml).Ok?
    ensures Gather(issue, env, atts).Ok?
    ensures ComposeLines(issue, env, atts, yaml).value == Document(Gather(issue, env, atts).value, env, yaml)
  {
  }

  /** The key the title shows: the issue's "key" when it survived the
      filter, else "UNKNOWN". */
  lemma MetadataKey(issue: JValue)
    requires Metadata(issue).Ok?
    ensures issue.JObj?
    ensures Field(JObj(Metadata(issue).value), "key", JStr("UNKNOWN")) ==
              KeptOr(Field(issue, "key", JStr("UNKNOWN")), JStr("UNKNOWN"))
  {
    TitleKeys();
    MetadataLookup(issue, 0, JStr("UNKNOWN"));
  }

  /** The summary the title shows: the fields' "summary" when it survived
      the filter, else "No Summary". */
  lemma MetadataSummary(issue: JValue)
    requires Metadata(issue).Ok?
    ensures issue.JObj? && Field(issue, "fields", JObj([])).JObj?
    ensures Field(JObj(Metadata(issue).value), "summary", JStr("No Summary")) ==
              KeptOr(Field(Field(issue, "fields", JObj([])), "summary", JStr("No Summary")), JStr("No Summary"))
  {
    TitleKeys();
    MetadataLookup(issue, 1, JStr("No Summary"));
  }

  /** The title shows the issue's key and summary, or "UNKNOWN" and
      "No Summary" when they are missing, null or an empty list. */
  lemma ComposeTitle(issue: JValue, env: Env, atts: seq<Saved>, yaml: seq<(string, JValue)> -> string)
    requires ComposeLines(issue, env, atts, yaml).Ok?
    ensures issue.JObj? && Field(issue, "fields", JObj([])).JObj?
    ensures var key := Field(issue, "key", JStr("UNKNOWN"));
            var summary := Field(Field(issue, "fields", JObj([])), "summary", JStr("No Summary"));
            ComposeLines(issue, env, atts, yaml).value[4] ==
              Title(if Kept(key) then Str(key) else "UNKNOWN",
                    if Kept(summary) then Str(summary) else "No Summary", env.baseUrl)
  {
    ComposeIsDocument(issue, env, atts, yaml);
    var p := Gather(issue, env, atts).value;
    assert p.meta == Metadata(issue).value;
    DocumentFront(p, env, yaml);
    MetadataKey(issue);
    MetadataSummary(issue);
  }

  /** The line under "## Description" is the description, and it is the
      placeholder when neither a rendered nor a raw description gives any
      HTML. */
  lemma ComposeDescription(issue: JValue, env: Env, atts: seq<Saved>, yaml: seq<(string, JValue)> -> string)
    requires ComposeLines(issue, env, atts, yaml).Ok?
    ensures issue.JObj?
    ensures var fields := Field(issue, "fields", JObj([]));
            var rendered := Field(issue, "renderedFields", JObj([]));
            && DescriptionSource(fields, rendered).Ok?
            && ComposeLines(issue, env, atts, yaml).value[6] == "## Description"
            && ComposeLines(issue, env, atts, yaml).value[8] == Description(fields, rendered, env, Current, atts).value
            && (!Truthy(DescriptionSource(fields, rendered).value) ==> ComposeLines(issue, env, atts, yaml).value[8] == NoDescription)
  {
    ComposeIsDocument(issue, env, atts, yaml);
    var p := Gather(issue, env, atts).value;
    var fields := Field(issue, "fields", JObj([]));
    var rendered := Field(issue, "renderedFields", JObj([]));
    DocumentFront(p, env, yaml);
    assert p.desc == Description(fields, rendered, env, Current, atts).value;
  }

  /** The sections come in the order description, comments, attachments:
      "## Comments" heads the comment lines when there are any, and
      "## Attachments" follows them exactly when something was
      downloaded, one line per attachment. */
  lemma ComposeSectionOrder(issue: JValue, env: Env, atts: seq<Saved>, yaml: seq<(string, JValue)> -> string)
    requires ComposeLines(issue, env, atts, yaml).Ok?
    ensures var lines := ComposeLines(issue, env, atts, yaml).value;
            var c := |CommentsSection(issue, env, atts).value|;
            && lines[6] == "## Description"
            && (c > 0 ==> lines[10] == "## Comments")
            && (|atts| > 0 <==> |lines| > 10 + c)
            && (|atts| > 0 ==> lines[10 + c] == "## Attachments" && |lines| == 13 + c + |atts|)
  {
    ComposeIsDocument(issue, env, atts, yaml);
  }

  /** `compose_markdown`: the lines joined by newlines. Read back line by
      line, the file gives every line's own lines in order (the front
      matter and a multi-paragraph description span several), and exactly
      the lines when none of them holds a newline. */
  function Compose(issue: JValue, env: Env, atts: seq<Saved>, yaml: seq<(string, JValue)> -> string): (r: Result<string>)
    ensures r.Ok? <==> ComposeLines(issue, env, atts, yaml).Ok?
    ensures r.Ok? ==> Split(r.value, '\n') == SplitEach(ComposeLines(issue, env, atts, yaml).value, '\n')
    ensures r.Ok? ==> var lines := ComposeLines(issue, env, atts, yaml).value;
                      (forall i :: 0 <= i < |lines| ==> '\n' !in lines[i]) ==> Split(r.value, '\n') == lines
  {
    var lines :- ComposeLines(issue, env, atts, yaml);
    SplitJoinEach(lines, '\n');
    if forall i :: 0 <= i < |lines| ==> '\n' !in lines[i] then
      SplitEachPlain(lines, '\n');
      Ok(Join(lines, "\n"))
    else Ok(Join(lines, "\n"))
  }

  /** Any document opens with the front matter between "---" lines, a
      blank line and line 4. */
  lemma DocumentOpens(p: Parts, env: Env, yaml: seq<(string, JValue)> -> string)
    ensures |Document(p, env, yaml)| >= 10
    ensures StartsWith(Join(Document(p, env, yaml), "\n"),
                       "---\n" + RStrip(yaml(p.meta)) + "\n---\n\n" + Document(p, env, yaml)[4] + "\n")
  {
    var lines := Document(p, env, yaml);
    var f := Front(p, env, yaml);
    assert f[0] == "---" && f[1] == RStrip(yaml(p.meta)) && f[2] == "---" && f[3] == "";
    JoinOpens(lines, 5, "\n");
    var h := lines[..5];
    assert h[0] == f[0] && h[1] == f[1] && h[2] == f[2] && h[3] == f[3] && h[4] == lines[4];
    assert h == ["---", f[1], "---", "", lines[4]];
    FrontText(f[1], lines[4]);
  }

  /** The opening lines as text. */
  lemma FrontText(y: string, t: string)
    ensures Join(["---", y, "---", "", t], "\n") + "\n" == "---\n" + y + "\n---\n\n" + t + "\n"
  {
    JoinFive("---", y, "---", "", t, "\n");
    assert "---" + "\n" == "---\n";
    assert "\n" + "---" + "\n" + "" + "\n" == "\n---\n\n";
  }

  /** Five parts joined. */
  lemma JoinFive(a: string, b: string, c: string, d: string, e: string, sep: string)
    ensures Join([a, b, c, d, e], sep) == a + sep + b + sep + c + sep + d + sep + e
  {
    assert [d, e][1..] == [e];
    assert Join([d, e], sep) == d + sep + e;
    assert [c, d, e][1..] == [d, e];
    assert Join([c, d, e], sep) == c + sep + (d + sep + e);
    assert [b, c, d, e][1..] == [c, d, e];
    assert Join([b, c, d, e], sep) == b + sep + (c + sep + (d + sep + e));
    assert [a, b, c, d, e][1..] == [b, c, d, e];
  }

  /** The file opens with the front matter between "---" lines, a blank
      line and the title that links the key and shows the summary. */
  lemma ComposeOpens(issue: JValue, env: Env, atts: seq<Saved>, yaml: seq<(string, JValue)> -> string)
    requires Compose(issue, env, atts, yaml).Ok?
    ensures Metadata(issue).Ok? && issue.JObj? && Field(issue, "fields", JObj([])).JObj?
    ensures var key := Field(issue, "key", JStr("UNKNOWN"));
            var summary := Field(Field(issue, "fields", JObj([])), "summary", JStr("No Summary"));
            var title := Title(if Kept(key) then Str(key) else "UNKNOWN",
                               if Kept(summary) then Str(summary) else "No Summary", env.baseUrl);
            StartsWith(Compose(issue, env, atts, yaml).value,
                       "---\n" + RStrip(yaml(Metadata(issue).value)) + "\n---\n\n" + title + "\n")
  {
    ComposeIsDocument(issue, env, atts, yaml);
    ComposeTitle(issue, env, atts, yaml);
    var p := Gather(issue, env, atts).value;
    assert p.meta == Metadata(issue).value;
    DocumentOpens(p, env, yaml);
  }

}
