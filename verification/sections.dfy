/** The pieces every `compose_markdown` shares: the environment a converter
    works in, the comment date, the "## Description" body and the
    "## Attachments" section. */
module Sections {
  import opened Wrappers
  import opened Text
  import opened Json
  import opened Percent
  import opened Attachments
  import opened Links
  import opened Html
  import opened Seqs

  /** What a converter is given besides the issue: the site's base URL and
      domain, the HTML-to-Markdown converter, and the date reformatting
      (`datetime.fromisoformat` followed by `strftime`, `None` where
      parsing raises). */
  datatype Env = Env(
    baseUrl: string,
    domain: string,
    md: JValue -> string,
    parseDate: string -> Option<string>)

  /** Which `replace_attachment_links` a converter uses. */
  datatype Relinker = Current | Greedy

  function Relink(k: Relinker, text: string, domain: string, atts: seq<Saved>): string {
    match k
    case Current => RewriteText(text, domain, atts)
    case Greedy => GreedyRewriteText(text, domain, atts)
  }

  /** Both rewriters leave a text alone when nothing was downloaded. */
  lemma RelinkWithoutAttachments(k: Relinker, text: string, domain: string)
    ensures Relink(k, text, domain, []) == text
  {
    NoAttachmentsNoChange(text, domain);
    GreedyNoAttachmentsNoChange(text, domain);
  }

  // ---------------------------------------------------------------------
  // Comment dates.

  /** The offset rewriting before the date is parsed: a trailing "Z"
      becomes "+00:00", and otherwise, when there is a "+" and the text
      does not end in "+00:00", every "+0000" becomes "+00:00". */
  function NormaliseDate(c: string): (r: string)
    ensures EndsWith(c, "Z") ==> EndsWith(r, "+00:00") && r[..|r| - 6] == c[..|c| - 1]
    ensures !EndsWith(c, "Z") && '+' !in c ==> r == c
    ensures EndsWith(c, "+00:00") ==> r == c
  {
    if EndsWith(c, "Z") then
      var r := c[..|c| - 1] + "+00:00";
      assert c[|c| - 1] == 'Z';
      assert r[|r| - 6..] == "+00:00" && r[..|r| - 6] == c[..|c| - 1];
      r
    else if '+' in c && !EndsWith(c, "+00:00") then ReplaceAll(c, "+0000", "+00:00")
    else c
  }

  /** A compact "+0000" offset after an offset-free date becomes "+00:00",
      the form `fromisoformat` accepts. */
  lemma CompactOffset(p: string)
    requires '+' !in p
    ensures NormaliseDate(p + "+0000") == p + "+00:00"
  {
    var c := p + "+0000";
    assert c[|c| - 5..] == "+0000";
    assert '+' in c by { assert c[|p|] == '+'; }
    assert !EndsWith(c, "+00:00") by { assert c[|c| - 3] == '0'; }
    ReplaceSkip(p, "+0000", "+0000", "+00:00");
    assert "+0000"[|"+0000"|..] == "";
    EmptyRight(p + "+00:00", "");
  }

  /** The date shown after a comment's author: "Unknown date" for a falsy
      value; for a string, the reformatted date, or the offset-rewritten
      text when it does not parse; any other value as `str` shows it (its
      `endswith` raises inside the `try`). */
  function FormatDate(created: JValue, parse: string -> Option<string>): (r: string)
    ensures !Truthy(created) ==> r == "Unknown date"
    ensures Truthy(created) && !created.JStr? ==> r == Str(created)
    ensures created.JStr? && created.s != "" && parse(NormaliseDate(created.s)).None? ==>
              && r == NormaliseDate(created.s)
              && (!EndsWith(created.s, "Z") && '+' !in created.s ==> r == created.s)
    ensures created.JStr? && created.s != "" && parse(NormaliseDate(created.s)).Some? ==>
              r == parse(NormaliseDate(created.s)).value
  {
    if !Truthy(created) then "Unknown date"
    else if !created.JStr? then Str(created)
    else
      var c := NormaliseDate(created.s);
      match parse(c)
      case Some(d) => d
      case None => c
  }

  // ---------------------------------------------------------------------
  // The description.

  /** The HTML the description is made from: the rendered description,
      else the raw one wrapped in a paragraph when it is truthy. The raw
      field is only looked at when the rendered one is falsy. */
  function DescriptionSource(fields: JValue, rendered: JValue): (r: Result<JValue>)
    ensures r.Ok? <==> rendered.JObj? && (Truthy(Field(rendered, "description", JStr(""))) || fields.JObj?)
    ensures r.Ok? && Truthy(Field(rendered, "description", JStr(""))) ==> r.value == Field(rendered, "description", JStr(""))
    ensures r.Ok? && !Truthy(Field(rendered, "description", JStr(""))) ==>
              fields.JObj? && (Truthy(r.value) <==> Truthy(Field(fields, "description", JNull)))
    ensures r.Ok? && !Truthy(Field(rendered, "description", JStr(""))) && Truthy(Field(fields, "description", JNull)) ==>
              r.value == JStr("<p>" + Str(Field(fields, "description", JNull)) + "</p>")
  {
    var html :- Get(rendered, "description", JStr(""));
    if Truthy(html) then Ok(html)
    else
      var raw :- Get(fields, "description", JNull);
      if Truthy(raw) then Ok(JStr("<p>" + Str(raw) + "</p>")) else Ok(html)
  }

  const NoDescription := "*No description provided*"

  /** The line under "## Description": the converted and relinked HTML, or
      the placeholder when there is none. */
  function Description(fields: JValue, rendered: JValue, env: Env, k: Relinker, atts: seq<Saved>): (r: Result<string>)
    ensures r.Ok? <==> DescriptionSource(fields, rendered).Ok?
    ensures r.Ok? ==>
              var src := DescriptionSource(fields, rendered).value;
              && (!Truthy(src) ==> r.value == NoDescription)
              && (Truthy(src) ==> r.value == Relink(k, Convert(src, env.md), env.domain, atts))
  {
    var src :- DescriptionSource(fields, rendered);
    if Truthy(src) then Ok(Relink(k, Convert(src, env.md), env.domain, atts))
    else Ok(NoDescription)
  }

  /** The description line in terms of the issue's two description fields:
      the rendered HTML when it is truthy, else the raw text in a paragraph
      when that is truthy, else the placeholder; an issue whose rendered
      fields are not a dict fails. */
  lemma DescriptionFromFields(fields: JValue, rendered: JValue, env: Env, k: Relinker, atts: seq<Saved>)
    ensures !rendered.JObj? ==> Description(fields, rendered, env, k, atts).Err?
    ensures rendered.JObj? && Truthy(Field(rendered, "description", JStr(""))) ==>
              Description(fields, rendered, env, k, atts) ==
                Ok(Relink(k, Convert(Field(rendered, "description", JStr("")), env.md), env.domain, atts))
    ensures rendered.JObj? && !Truthy(Field(rendered, "description", JStr(""))) && !fields.JObj? ==>
              Description(fields, rendered, env, k, atts).Err?
    ensures rendered.JObj? && !Truthy(Field(rendered, "description", JStr(""))) &&
            fields.JObj? && Truthy(Field(fields, "description", JNull)) ==>
              Description(fields, rendered, env, k, atts) ==
                Ok(Relink(k, Convert(JStr("<p>" + Str(Field(fields, "description", JNull)) + "</p>"), env.md), env.domain, atts))
    ensures rendered.JObj? && !Truthy(Field(rendered, "description", JStr(""))) &&
            fields.JObj? && !Truthy(Field(fields, "description", JNull)) ==>
              Description(fields, rendered, env, k, atts) == Ok(NoDescription)
  {
    var r := Description(fields, rendered, env, k, atts);
    var src := DescriptionSource(fields, rendered);
    assert src.Ok? ==> r.Ok? && (Truthy(src.value) ==> r.value == Relink(k, Convert(src.value, env.md), env.domain, atts))
                            && (!Truthy(src.value) ==> r.value == NoDescription);
  }

  /** Without downloads the description is the cleaned converter output:
      no surrounding white space and never three newlines in a row. */
  lemma DescriptionWithoutAttachments(fields: JValue, rendered: JValue, env: Env, k: Relinker)
    requires Description(fields, rendered, env, k, []).Ok?
    ensures var d := Description(fields, rendered, env, k, []).value;
            && NoBlankRun(d)
            && (d == [] || (!IsSpace(d[0]) && !IsSpace(d[|d| - 1])))
  {
    var src := DescriptionSource(fields, rendered).value;
    if Truthy(src) {
      RelinkWithoutAttachments(k, Convert(src, env.md), env.domain);
    }
  }

  // ---------------------------------------------------------------------
  // The attachments section.

  /** Whether a record's MIME type marks an image: a falsy type does not,
      a string does when it starts with "image/", and anything else has no
      `startswith`. */
  function IsImage(mime: JValue): (r: Result<bool>)
    ensures r.Ok? <==> !Truthy(mime) || mime.JStr?
    ensures r.Ok? ==> r.value == (mime.JStr? && StartsWith(mime.s, "image/"))
  {
    if !Truthy(mime) then Ok(false)
    else if mime.JStr? then Ok(StartsWith(mime.s, "image/"))
    else Err(AttributeError)
  }

  /** The segment an attachment line shows: the file embedded as an image
      or linked, under its own name, pointing at its quoted name. */
  function AttachmentSegment(a: Saved, image: bool): Segment {
    if image then Image(a.filename, Quote(a.filename)) else Link(a.filename, Quote(a.filename))
  }

  /** "- ![f](quote(f))" for an image, "- [f](quote(f))" otherwise. */
  function AttachmentLine(a: Saved): (r: Result<string>)
    ensures r.Ok? <==> IsImage(a.mimeType).Ok?
    ensures r.Ok? ==> r.value == "- " + Show(AttachmentSegment(a, IsImage(a.mimeType).value))
  {
    var image :- IsImage(a.mimeType);
    Ok("- " + Show(AttachmentSegment(a, image)))
  }

  /** An attachment line reads back as the list marker and one image or
      link, whose bracket text is the file name and whose target decodes to
      the file name's UTF-8 bytes. */
  lemma AttachmentLineReadsBack(a: Saved)
    requires AttachmentLine(a).Ok? && ']' !in a.filename
    ensures var image := IsImage(a.mimeType).value;
            var segs := Tokenize(AttachmentLine(a).value);
            && |segs| == 2 && segs[0] == Plain("- ")
            && segs[1].Image? == image && !segs[1].Plain?
            && Label(segs[1]) == a.filename
            && UnquoteToBytes(segs[1].url) == Encode(a.filename)
  {
    var g := AttachmentSegment(a, IsImage(a.mimeType).value);
    QuoteHasNoMarkup(a.filename);
    QuoteRoundTrip(a.filename);
    EmptyRight(Show(g), "");
    TokenizePlainShow("- ", g, "");
    EmptyRight([g], Tokenize(""));
  }

  /** The lines of every record, or the first record whose type cannot be
      tested. */
  function AttachmentLines(atts: seq<Saved>): (r: Result<seq<string>>)
    ensures r.Ok? <==> forall i :: 0 <= i < |atts| ==> AttachmentLine(atts[i]).Ok?
    ensures r.Ok? ==> |r.value| == |atts| && forall i :: 0 <= i < |atts| ==> r.value[i] == AttachmentLine(atts[i]).value
  {
    var rs := seq(|atts|, i requires 0 <= i < |atts| => AttachmentLine(atts[i]));
    assert forall i :: 0 <= i < |atts| ==> rs[i] == AttachmentLine(atts[i]);
    Collect(rs)
  }

  /** "## Attachments" only when something was downloaded: the heading, a
      blank line, one line per record in order, a blank line. */
  function AttachmentsSection(atts: seq<Saved>): (r: Result<seq<string>>)
    ensures |atts| == 0 ==> r == Ok([])
    ensures r.Ok? <==> AttachmentLines(atts).Ok?
    ensures r.Ok? && |atts| > 0 ==>
              && |r.value| == |atts| + 3
              && r.value[0] == "## Attachments" && r.value[1] == "" && r.value[|atts| + 2] == ""
              && forall i :: 0 <= i < |atts| ==> r.value[i + 2] == AttachmentLine(atts[i]).value
  {
    if |atts| == 0 then Ok([])
    else
      var lines :- AttachmentLines(atts);
      Ok(["## Attachments", ""] + lines + [""])
  }
}
