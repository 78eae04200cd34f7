/** The older `compose_markdown`s: the one at the top of the repository,
    the one of the first package and the one of the single-file script.
    All three write the title, five metadata lines and the description;
    only the first adds a comments section, each comment's body quoted line
    by line. The first relinks with the current rewriter, the other two
    with the greedy one.
 */
module Legacy {
  import opened Wrappers
  import opened Text
  import opened Json
  import opened Attachments
  import opened Links
  import opened Html
  import opened Seqs
  import opened Sections
  import Compose

  /** Which of the older converters. */
  datatype Converter = Root | Package | Script

  function RelinkerOf(c: Converter): Relinker {
    if c == Root then Current else Greedy
  }

  // ---------------------------------------------------------------------
  // The header: title and metadata lines.

  /** `fields.get(k, {}).get(sub, d)`: a present key whose value is not a
      dict (a JSON null, say) raises. */
  function NameOr(fields: JValue, k: string, sub: string, d: string): (r: Result<JValue>)
    requires fields.JObj?
    ensures r.Ok? <==> Field(fields, k, JObj([])).JObj?
    ensures !Has(fields, k) ==> r == Ok(JStr(d))
    ensures r.Ok? ==> r.value == Field(Field(fields, k, JObj([])), sub, JStr(d))
  {
    Get(Field(fields, k, JObj([])), sub, JStr(d))
  }

  /** `fields.get(k, {}).get(sub, d) if fields.get(k) else d`: a falsy
      value gives the default, a truthy one that is not a dict raises. */
  function GivenNameOr(fields: JValue, k: string, sub: string, d: string): (r: Result<JValue>)
    requires fields.JObj?
    ensures !Truthy(Field(fields, k, JNull)) ==> r == Ok(JStr(d))
    ensures Truthy(Field(fields, k, JNull)) ==>
              && (r.Ok? <==> Field(fields, k, JNull).JObj?)
              && (r.Ok? ==> r.value == Field(Field(fields, k, JNull), sub, JStr(d)))
  {
    var v := Field(fields, k, JNull);
    if Truthy(v) then Get(v, sub, JStr(d)) else Ok(JStr(d))
  }

  /** The values the header shows. */
  datatype Header = Header(
    key: JValue, summary: JValue, kind: JValue, status: JValue,
    priority: JValue, assignee: JValue, reporter: JValue)

  /** The header values, read in the order of the source; the first lookup
      that raises ends the call. */
  function ReadHeader(issue: JValue): (r: Result<Header>)
    ensures r.Ok? ==> issue.JObj? && Field(issue, "fields", JObj([])).JObj?
    ensures r.Ok? <==>
              && issue.JObj? && Field(issue, "fields", JObj([])).JObj?
              && var fields := Field(issue, "fields", JObj([]));
                 && Field(fields, "issuetype", JObj([])).JObj?
                 && Field(fields, "status", JObj([])).JObj?
                 && (Truthy(Field(fields, "priority", JNull)) ==> Field(fields, "priority", JNull).JObj?)
                 && (Truthy(Field(fields, "assignee", JNull)) ==> Field(fields, "assignee", JNull).JObj?)
                 && (Truthy(Field(fields, "reporter", JNull)) ==> Field(fields, "reporter", JNull).JObj?)
  {
    var fields :- Get(issue, "fields", JObj([]));
    var key := Field(issue, "key", JStr("UNKNOWN"));
    var summary :- Get(fields, "summary", JStr("No Summary"));
    var kind :- NameOr(fields, "issuetype", "name", "Unknown");
    var status :- NameOr(fields, "status", "name", "Unknown");
    var priority :- GivenNameOr(fields, "priority", "name", "Normal");
    var assignee :- GivenNameOr(fields, "assignee", "displayName", "Unassigned");
    var reporter :- GivenNameOr(fields, "reporter", "displayName", "Unknown");
    Ok(Header(key, summary, kind, status, priority, assignee, reporter))
  }

  /** Missing values show the defaults: "UNKNOWN", "No Summary", type and
      status "Unknown", priority "Normal", assignee "Unassigned", reporter
      "Unknown"; a value that is set is shown as it is. */
  lemma HeaderDefaults(issue: JValue)
    requires ReadHeader(issue).Ok?
    ensures var h := ReadHeader(issue).value;
            var fields := Field(issue, "fields", JObj([]));
            && (!Has(issue, "key") ==> h.key == JStr("UNKNOWN"))
            && (Has(issue, "key") ==> h.key == Field(issue, "key", JNull))
            && (!Has(fields, "summary") ==> h.summary == JStr("No Summary"))
            && (!Has(fields, "issuetype") ==> h.kind == JStr("Unknown"))
            && (!Has(fields, "status") ==> h.status == JStr("Unknown"))
            && (!Truthy(Field(fields, "priority", JNull)) ==> h.priority == JStr("Normal"))
            && (!Truthy(Field(fields, "assignee", JNull)) ==> h.assignee == JStr("Unassigned"))
            && (!Truthy(Field(fields, "reporter", JNull)) ==> h.reporter == JStr("Unknown"))
  {
    var fields := Field(issue, "fields", JObj([]));
    FieldDefault(issue, "key", JStr("UNKNOWN"));
    FieldDefault(fields, "summary", JStr("No Summary"));
  }

  /** A present key reads the same whatever the default. */
  lemma FieldDefault(d: JValue, k: string, default: JValue)
    requires d.JObj?
    ensures Has(d, k) ==> Field(d, k, default) == Field(d, k, JNull)
  {
  }

  /** A present "issuetype" or "status" that is not a dict (a JSON null)
      makes the header raise. */
  lemma HeaderRaises(issue: JValue)
    requires issue.JObj? && Field(issue, "fields", JObj([])).JObj?
    requires var fields := Field(issue, "fields", JObj([]));
             || (Has(fields, "issuetype") && !Field(fields, "issuetype", JNull).JObj?)
             || (Has(fields, "status") && !Field(fields, "status", JNull).JObj?)
    ensures ReadHeader(issue).Err?
  {
    var fields := Field(issue, "fields", JObj([]));
    FieldDefault(fields, "issuetype", JObj([]));
    FieldDefault(fields, "status", JObj([]));
  }

  /** The title, a blank line, the five metadata lines and a blank line. */
  function HeaderLines(h: Header, baseUrl: string): (r: seq<string>)
    ensures |r| == 8 && r[1] == "" && r[7] == ""
    ensures forall i :: 2 <= i < 6 ==> EndsWith(r[i], "  ")
    ensures StartsWith(r[6], "**Reporter:** ")
  {
    var lines := [
      Compose.Title(Str(h.key), Str(h.summary), baseUrl), "",
      "**Type:** " + Str(h.kind) + "  ",
      "**Status:** " + Str(h.status) + "  ",
      "**Priority:** " + Str(h.priority) + "  ",
      "**Assignee:** " + Str(h.assignee) + "  ",
      "**Reporter:** " + Str(h.reporter), ""];
    TwoSpaces("**Type:** " + Str(h.kind));
    TwoSpaces("**Status:** " + Str(h.status));
    TwoSpaces("**Priority:** " + Str(h.priority));
    TwoSpaces("**Assignee:** " + Str(h.assignee));
    DropPrefix("**Reporter:** ", Str(h.reporter));
    lines
  }

  /** The header of an issue line by line: the title from the key and the
      summary, then the type and status lines with the name the issue sets
      or "Unknown". */
  lemma HeaderShowsIssue(issue: JValue, baseUrl: string)
    requires ReadHeader(issue).Ok?
    ensures var fields := Field(issue, "fields", JObj([]));
            var r := HeaderLines(ReadHeader(issue).value, baseUrl);
            && r[0] == Compose.Title(Str(Field(issue, "key", JStr("UNKNOWN"))),
                                     Str(Field(fields, "summary", JStr("No Summary"))), baseUrl)
            && (!Has(fields, "issuetype") ==> r[2] == "**Type:** " + "Unknown" + "  ")
            && (Has(fields, "issuetype") ==>
                  r[2] == "**Type:** " + Str(Field(Field(fields, "issuetype", JNull), "name", JStr("Unknown"))) + "  ")
            && (!Has(fields, "status") ==> r[3] == "**Status:** " + "Unknown" + "  ")
            && (Has(fields, "status") ==>
                  r[3] == "**Status:** " + Str(Field(Field(fields, "status", JNull), "name", JStr("Unknown"))) + "  ")
  {
    var fields := Field(issue, "fields", JObj([]));
    HeaderValues(issue);
    HeaderLinesAt(ReadHeader(issue).value, baseUrl);
    FieldDefault(fields, "issuetype", JObj([]));
    FieldDefault(fields, "status", JObj([]));
  }

  /** The priority, assignee and reporter lines show the name the issue
      sets when the field is truthy, else "Normal", "Unassigned" and
      "Unknown". */
  lemma HeaderShowsPeople(issue: JValue, baseUrl: string)
    requires ReadHeader(issue).Ok?
    ensures var fields := Field(issue, "fields", JObj([]));
            var r := HeaderLines(ReadHeader(issue).value, baseUrl);
            && (!Truthy(Field(fields, "priority", JNull)) ==> r[4] == "**Priority:** " + "Normal" + "  ")
            && (Truthy(Field(fields, "priority", JNull)) ==>
                  r[4] == "**Priority:** " + Str(Field(Field(fields, "priority", JNull), "name", JStr("Normal"))) + "  ")
            && (!Truthy(Field(fields, "assignee", JNull)) ==> r[5] == "**Assignee:** " + "Unassigned" + "  ")
            && (Truthy(Field(fields, "assignee", JNull)) ==>
                  r[5] == "**Assignee:** " + Str(Field(Field(fields, "assignee", JNull), "displayName", JStr("Unassigned"))) + "  ")
            && (!Truthy(Field(fields, "reporter", JNull)) ==> r[6] == "**Reporter:** " + "Unknown")
            && (Truthy(Field(fields, "reporter", JNull)) ==>
                  r[6] == "**Reporter:** " + Str(Field(Field(fields, "reporter", JNull), "displayName", JStr("Unknown"))))
  {
    HeaderValues(issue);
    HeaderLinesAt(ReadHeader(issue).value, baseUrl);
  }

  lemma HeaderLinesAt(h: Header, baseUrl: string)
    ensures var r := HeaderLines(h, baseUrl);
            && r[0] == Compose.Title(Str(h.key), Str(h.summary), baseUrl)
            && r[2] == "**Type:** " + Str(h.kind) + "  "
            && r[3] == "**Status:** " + Str(h.status) + "  "
            && r[4] == "**Priority:** " + Str(h.priority) + "  "
            && r[5] == "**Assignee:** " + Str(h.assignee) + "  "
            && r[6] == "**Reporter:** " + Str(h.reporter)
  {
  }

  /** Where each header value comes from. */
  lemma HeaderValues(issue: JValue)
    requires ReadHeader(issue).Ok?
    ensures var h := ReadHeader(issue).value;
            var fields := Field(issue, "fields", JObj([]));
            var priority := Field(fields, "priority", JNull);
            var assignee := Field(fields, "assignee", JNull);
            var reporter := Field(fields, "reporter", JNull);
            && h.key == Field(issue, "key", JStr("UNKNOWN"))
            && h.summary == Field(fields, "summary", JStr("No Summary"))
            && h.kind == Field(Field(fields, "issuetype", JObj([])), "name", JStr("Unknown"))
            && h.status == Field(Field(fields, "status", JObj([])), "name", JStr("Unknown"))
            && h.priority == (if Truthy(priority) then Field(priority, "name", JStr("Normal")) else JStr("Normal"))
            && h.assignee == (if Truthy(assignee) then Field(assignee, "displayName", JStr("Unassigned")) else JStr("Unassigned"))
            && h.reporter == (if Truthy(reporter) then Field(reporter, "displayName", JStr("Unknown")) else JStr("Unknown"))
  {
  }

  lemma TwoSpaces(s: string)
    ensures EndsWith(s + "  ", "  ")
  {
    DropPrefix(s, "  ");
  }

  // ---------------------------------------------------------------------
  // The comments of the top-level converter.

  /** One body line as a quote: "> line", or ">" for a line that is blank
      once stripped. */
  function QuoteLine(l: string): string {
    if Strip(l) != "" then "> " + l else ">"
  }

  /** The body line a quote line stands for. */
  function UnquoteLine(q: string): string {
    if |q| >= 2 && q[..2] == "> " then q[2..] else ""
  }

  /** Quoting keeps every line that is empty or has a non-blank
      character. */
  lemma QuoteLineReadsBack(l: string)
    requires l == "" || Strip(l) != ""
    ensures UnquoteLine(QuoteLine(l)) == l
  {
    if Strip(l) != "" {
      DropPrefix("> ", l);
    } else {
      assert QuoteLine(l) == ">";
    }
  }

  /** A body as quote lines. */
  function QuoteLines(lines: seq<string>): (r: seq<string>)
    ensures |r| == |lines|
    ensures forall i :: 0 <= i < |lines| ==> r[i] == QuoteLine(lines[i])
  {
    seq(|lines|, i requires 0 <= i < |lines| => QuoteLine(lines[i]))
  }

  function UnquoteLines(lines: seq<string>): (r: seq<string>)
    ensures |r| == |lines|
    ensures forall i :: 0 <= i < |lines| ==> r[i] == UnquoteLine(lines[i])
  {
    seq(|lines|, i requires 0 <= i < |lines| => UnquoteLine(lines[i]))
  }

  /** No line is blank without being empty. */
  predicate NoBlankLine(lines: seq<string>) {
    forall i :: 0 <= i < |lines| ==> lines[i] == "" || Strip(lines[i]) != ""
  }

  /** The quoted body gives the body back when no line of it is blank
      without being empty. */
  lemma QuoteLinesReadBack(body: string)
    requires NoBlankLine(Split(body, '\n'))
    ensures Join(UnquoteLines(QuoteLines(Split(body, '\n'))), "\n") == body
  {
    var lines := Split(body, '\n');
    var back := UnquoteLines(QuoteLines(lines));
    forall i | 0 <= i < |lines|
      ensures back[i] == lines[i]
    {
      QuoteLineReadsBack(lines[i]);
    }
    assert back == lines;
    JoinSplit(body, '\n');
  }

  /** The HTML of a comment: the rendered body, else the raw body wrapped
      in a paragraph when it is truthy. */
  function CommentSource(comment: JValue): (r: JValue)
    requires comment.JObj?
    ensures Truthy(Field(comment, "renderedBody", JStr(""))) ==> r == Field(comment, "renderedBody", JStr(""))
    ensures Truthy(r) <==> Truthy(Field(comment, "renderedBody", JStr(""))) || Truthy(Field(comment, "body", JNull))
    ensures !Truthy(Field(comment, "renderedBody", JStr(""))) && Truthy(Field(comment, "body", JNull)) ==>
              r == JStr("<p>" + Str(Field(comment, "body", JNull)) + "</p>")
  {
    var html := Field(comment, "renderedBody", JStr(""));
    var body := Field(comment, "body", JNull);
    if !Truthy(html) && Truthy(body) then JStr("<p>" + Str(body) + "</p>") else html
  }

  /** The relinked Markdown of a comment, the placeholder when it has no
      HTML. */
  function CommentBody(comment: JValue, env: Env, atts: seq<Saved>): (r: string)
    requires comment.JObj?
    ensures !Truthy(CommentSource(comment)) ==> r == RewriteText(Compose.NoCommentBody, env.domain, atts)
    ensures !Truthy(CommentSource(comment)) && |atts| == 0 ==> r == Compose.NoCommentBody
    ensures Truthy(CommentSource(comment)) ==> r == RewriteText(Convert(CommentSource(comment), env.md), env.domain, atts)
  {
    var src := CommentSource(comment);
    NoAttachmentsNoChange(Compose.NoCommentBody, env.domain);
    RewriteText(if Truthy(src) then Convert(src, env.md) else Compose.NoCommentBody, env.domain, atts)
  }

  /** One comment: its header line, its body quoted line by line, a blank
      line. */
  function CommentBlock(comment: JValue, env: Env, atts: seq<Saved>): (r: Result<seq<string>>)
    ensures r.Ok? <==> Compose.CommentHeader(comment, env).Ok?
    ensures r.Ok? ==>
              && comment.JObj?
              && var body := QuoteLines(Split(CommentBody(comment, env, atts), '\n'));
                 && |r.value| == |body| + 2
                 && r.value[0] == Compose.CommentHeader(comment, env).value
                 && r.value[1..|r.value| - 1] == body
                 && r.value[|r.value| - 1] == ""
  {
    var header :- Compose.CommentHeader(comment, env);
    var body := QuoteLines(Split(CommentBody(comment, env, atts), '\n'));
    var r := [header] + body + [""];
    Assoc([header], body, [""]);
    DropPrefix([header], body + [""]);
    SliceOf(r, 1, body, [""]);
    Ok(r)
  }

  /** A comment's block gives its body back when no line of the body is
      blank without being empty. */
  lemma CommentReadsBack(comment: JValue, env: Env, atts: seq<Saved>)
    requires CommentBlock(comment, env, atts).Ok?
    requires comment.JObj? && NoBlankLine(Split(CommentBody(comment, env, atts), '\n'))
    ensures var b := CommentBlock(comment, env, atts).value;
            Join(UnquoteLines(b[1..|b| - 1]), "\n") == CommentBody(comment, env, atts)
  {
    QuoteLinesReadBack(CommentBody(comment, env, atts));
  }

  /** The blocks one after another. */
  function Concat(blocks: seq<seq<string>>): (r: seq<string>)
  {
    if |blocks| == 0 then [] else blocks[0] + Concat(blocks[1..])
  }

  /** Every block is a run of the concatenation, starting after the
      blocks before it. */
  lemma {:induction false} ConcatHolds(blocks: seq<seq<string>>, i: nat)
    requires i < |blocks|
    ensures |Concat(blocks[..i])| + |blocks[i]| <= |Concat(blocks)|
    ensures Concat(blocks)[|Concat(blocks[..i])|..|Concat(blocks[..i])| + |blocks[i]|] == blocks[i]
    decreases i
  {
    var c := Concat(blocks);
    var rest := Concat(blocks[1..]);
    if i == 0 {
      assert blocks[..0] == [];
      SliceOf(c, 0, blocks[0], rest);
    } else {
      ConcatHolds(blocks[1..], i - 1);
      assert blocks[1..][..i - 1] == blocks[1..i];
      assert blocks[..i][1..] == blocks[1..i];
      var before := Concat(blocks[1..i]);
      assert Concat(blocks[..i]) == blocks[0] + before;
      DropPrefix(blocks[0], rest);
      TakeDrop(c, |blocks[0]|, |before| + |blocks[i]|);
      DropDrop(c, |blocks[0]|, |before|);
      assert blocks[1..][i - 1] == blocks[i];
      var s := |blocks[0]| + |before|;
      assert c[s..s + |blocks[i]|] == rest[|before|..|before| + |blocks[i]|];
    }
  }

  /** The blocks of all comments, or the first comment that raises. */
  function CommentBlocks(comments: seq<JValue>, env: Env, atts: seq<Saved>): (r: Result<seq<seq<string>>>)
    ensures r.Ok? <==> forall i :: 0 <= i < |comments| ==> CommentBlock(comments[i], env, atts).Ok?
    ensures r.Ok? ==> |r.value| == |comments|
    ensures r.Ok? ==> forall i :: 0 <= i < |comments| ==> r.value[i] == CommentBlock(comments[i], env, atts).value
  {
    Each(comments, c => CommentBlock(c, env, atts))
  }

  /** The comments section: nothing without comments, else "## Comments",
      a blank line and the blocks. A truthy string or dict yields strings
      when iterated, whose `.get` raises; anything else cannot be
      iterated. */
  function CommentsSection(issue: JValue, env: Env, atts: seq<Saved>): (r: Result<seq<string>>)
    ensures Compose.CommentList(issue).Ok? && !Truthy(Compose.CommentList(issue).value) ==> r == Ok([])
    ensures r.Ok? && |r.value| > 0 ==>
              && Compose.CommentList(issue).Ok?
              && Compose.CommentList(issue).value.JList?
              && var items := Compose.CommentList(issue).value.items;
                 && CommentBlocks(items, env, atts).Ok?
                 && r.value == ["## Comments", ""] + Concat(CommentBlocks(items, env, atts).value)
    ensures Compose.CommentList(issue).Ok? && Compose.CommentList(issue).value.JList? &&
            |Compose.CommentList(issue).value.items| > 0 ==>
              var items := Compose.CommentList(issue).value.items;
              && (r.Ok? <==> CommentBlocks(items, env, atts).Ok?)
              && (r.Ok? ==> r.value == ["## Comments", ""] + Concat(CommentBlocks(items, env, atts).value))
    ensures (Compose.CommentList(issue).Ok? && Truthy(Compose.CommentList(issue).value) &&
             !Compose.CommentList(issue).value.JList?) ==> r.Err?
    ensures Compose.CommentList(issue).Err? ==> r.Err?
  {
    var comments :- Compose.CommentList(issue);
    SectionOf(comments, env, atts)
  }

  /** The section for the value found under "comment"/"comments". */
  function SectionOf(comments: JValue, env: Env, atts: seq<Saved>): (r: Result<seq<string>>)
    ensures !Truthy(comments) ==> r == Ok([])
    ensures Truthy(comments) && !comments.JList? ==> r.Err?
    ensures comments.JList? && |comments.items| > 0 ==>
              && (r.Ok? <==> CommentBlocks(comments.items, env, atts).Ok?)
              && (r.Ok? ==> r.value == ["## Comments", ""] + Concat(CommentBlocks(comments.items, env, atts).value))
  {
    if !Truthy(comments) then Ok([])
    else match comments
      case JList(items) =>
        var blocks :- CommentBlocks(items, env, atts);
        Ok(["## Comments", ""] + Concat(blocks))
      case JStr(_) => Err(AttributeError)
      case JObj(_) => Err(AttributeError)
      case _ => Err(TypeError)
  }

  /** Block k of a section sits after the heading, the blank line and the
      blocks before it. */
  lemma BlockInSection(blocks: seq<seq<string>>, k: nat)
    requires k < |blocks|
    ensures var at := 2 + |Concat(blocks[..k])|;
            var r := ["## Comments", ""] + Concat(blocks);
            && at + |blocks[k]| <= |r|
            && r[at..at + |blocks[k]|] == blocks[k]
  {
    ConcatHolds(blocks, k);
    var r := ["## Comments", ""] + Concat(blocks);
    DropPrefix(["## Comments", ""], Concat(blocks));
    var at := |Concat(blocks[..k])|;
    TakeDrop(r, 2, at + |blocks[k]|);
    DropDrop(r, 2, at);
    var s := r[2..];
    assert r[2 + at..2 + at + |blocks[k]|] == s[at..at + |blocks[k]|];
  }

  /** Comment k's block sits in the section after the heading, the blank
      line and the blocks before it. */
  lemma CommentInSection(issue: JValue, env: Env, atts: seq<Saved>, items: seq<JValue>, blocks: seq<seq<string>>, k: nat)
    requires CommentsSection(issue, env, atts).Ok? && |CommentsSection(issue, env, atts).value| > 0
    requires Compose.CommentList(issue) == Ok(JList(items))
    requires CommentBlocks(items, env, atts) == Ok(blocks)
    requires k < |items|
    ensures CommentsSection(issue, env, atts).value[..2] == ["## Comments", ""]
    ensures 2 + |Concat(blocks[..k])| + |blocks[k]| <= |CommentsSection(issue, env, atts).value|
    ensures CommentsSection(issue, env, atts).value[2 + |Concat(blocks[..k])|..2 + |Concat(blocks[..k])| + |blocks[k]|]
              == CommentBlock(items[k], env, atts).value
  {
    DropPrefix(["## Comments", ""], Concat(blocks));
    BlockInSection(blocks, k);
  }

  // ---------------------------------------------------------------------
  // The document.

  /** The header, then "## Description", a blank line, the description
      and a blank line. */
  function Front(h: Header, desc: string, baseUrl: string): (r: seq<string>)
    ensures |r| == 12
  {
    HeaderLines(h, baseUrl) + ["## Description", "", desc, ""]
  }

  /** The lines: the front lines, the comment lines and the attachment
      lines, each kept whole and in order. */
  function Document(h: Header, desc: string, comments: seq<string>, attachments: seq<string>, baseUrl: string): (r: seq<string>)
    ensures |r| == 12 + |comments| + |attachments|
    ensures r[..12] == Front(h, desc, baseUrl)
    ensures r[12..12 + |comments|] == comments
    ensures r[12 + |comments|..] == attachments
  {
    var head := Front(h, desc, baseUrl);
    var r := head + comments + attachments;
    Assoc(head, comments, attachments);
    DropPrefix(head, comments + attachments);
    SliceOf(r, 12, comments, attachments);
    AfterOf(r, 12, comments, attachments);
    r
  }

  /** The parts of the document, or the first failure among them, in the
      order the source computes them. */
  datatype Parts = Parts(header: Header, desc: string, comments: seq<string>, attachments: seq<string>)

  function Gather(c: Converter, issue: JValue, env: Env, atts: seq<Saved>): (r: Result<Parts>)
    ensures r.Ok? <==>
              && ReadHeader(issue).Ok?
              && Description(Field(issue, "fields", JObj([])), Field(issue, "renderedFields", JObj([])), env, RelinkerOf(c), atts).Ok?
              && (c == Root ==> CommentsSection(issue, env, atts).Ok?)
              && AttachmentsSection(atts).Ok?
    ensures r.Ok? ==>
              && r.value.header == ReadHeader(issue).value
              && r.value.desc == Description(Field(issue, "fields", JObj([])), Field(issue, "renderedFields", JObj([])), env, RelinkerOf(c), atts).value
              && r.value.comments == (if c == Root then CommentsSection(issue, env, atts).value else [])
              && r.value.attachments == AttachmentsSection(atts).value
  {
    var h :- ReadHeader(issue);
    var fields := Field(issue, "fields", JObj([]));
    var rendered := Field(issue, "renderedFields", JObj([]));
    var desc :- Description(fields, rendered, env, RelinkerOf(c), atts);
    var comments :- if c == Root then CommentsSection(issue, env, atts) else Ok([]);
    var attachments :- AttachmentsSection(atts);
    Ok(Parts(h, desc, comments, attachments))
  }

  /** `compose_markdown` of an older converter, as lines. */
  function Lines(c: Converter, issue: JValue, env: Env, atts: seq<Saved>): (r: Result<seq<string>>)
    ensures r.Ok? <==> Gather(c, issue, env, atts).Ok?
  {
    var p :- Gather(c, issue, env, atts);
    Ok(Document(p.header, p.desc, p.comments, p.attachments, env.baseUrl))
  }

  /** In any document the header comes first, "## Description" follows
      with the description, then the comments, and "## Attachments" opens
      whatever comes after them. */
  lemma DocumentLayout(h: Header, desc: string, comments: seq<string>, attachments: seq<string>, baseUrl: string)
    ensures Document(h, desc, comments, attachments, baseUrl)[..8] == HeaderLines(h, baseUrl)
    ensures Document(h, desc, comments, attachments, baseUrl)[8] == "## Description"
    ensures Document(h, desc, comments, attachments, baseUrl)[10] == desc
    ensures |comments| > 0 ==> Document(h, desc, comments, attachments, baseUrl)[12] == comments[0]
    ensures |attachments| > 0 ==> Document(h, desc, comments, attachments, baseUrl)[12 + |comments|] == attachments[0]
  {
    var lines := Document(h, desc, comments, attachments, baseUrl);
    var f := Front(h, desc, baseUrl);
    DropPrefix(HeaderLines(h, baseUrl), ["## Description", "", desc, ""]);
    TakeTake(lines, 12, 8);
    assert lines[8] == lines[..12][8] && lines[10] == lines[..12][10];
    if |comments| > 0 {
      assert lines[12] == lines[12..12 + |comments|][0];
    }
    if |attachments| > 0 {
      assert lines[12 + |comments|] == lines[12 + |comments|..][0];
    }
  }

  /** Title and metadata come first, "## Description" always follows with
      the description or its placeholder, then the comments (only in the
      top-level converter) and "## Attachments" exactly when something was
      downloaded, one line per attachment. */
  lemma SectionOrder(c: Converter, issue: JValue, env: Env, atts: seq<Saved>, p: Parts)
    requires Gather(c, issue, env, atts) == Ok(p)
    ensures Lines(c, issue, env, atts).Ok?
    ensures Lines(c, issue, env, atts).value[..8] == HeaderLines(ReadHeader(issue).value, env.baseUrl)
    ensures Lines(c, issue, env, atts).value[8] == "## Description"
    ensures Lines(c, issue, env, atts).value[10] == p.desc
    ensures c != Root ==> |p.comments| == 0
    ensures c == Root && |p.comments| > 0 ==> Lines(c, issue, env, atts).value[12] == "## Comments"
    ensures |atts| > 0 <==> |Lines(c, issue, env, atts).value| > 12 + |p.comments|
    ensures |atts| > 0 ==> Lines(c, issue, env, atts).value[12 + |p.comments|] == "## Attachments"
    ensures |atts| > 0 ==> |Lines(c, issue, env, atts).value| == 15 + |p.comments| + |atts|
  {
    DocumentLayout(p.header, p.desc, p.comments, p.attachments, env.baseUrl);
  }

  /** The description line is the placeholder exactly when neither a
      rendered nor a raw description gives any HTML. */
  lemma DescriptionLine(c: Converter, issue: JValue, env: Env, atts: seq<Saved>)
    requires Lines(c, issue, env, atts).Ok?
    ensures var fields := Field(issue, "fields", JObj([]));
            var rendered := Field(issue, "renderedFields", JObj([]));
            && DescriptionSource(fields, rendered).Ok?
            && (!Truthy(DescriptionSource(fields, rendered).value) ==>
                  Lines(c, issue, env, atts).value[10] == NoDescription)
            && (Truthy(DescriptionSource(fields, rendered).value) ==>
                  Lines(c, issue, env, atts).value[10] ==
                    Relink(RelinkerOf(c), Convert(DescriptionSource(fields, rendered).value, env.md), env.domain, atts))
  {
    SectionOrder(c, issue, env, atts, Gather(c, issue, env, atts).value);
  }

  /** `compose_markdown`: the lines joined by newlines. Read back line by
      line, the file gives every line's own lines in order (a
      multi-paragraph description or comment spans several), and exactly
      the lines when none of them holds a newline. */
  function ComposeMarkdown(c: Converter, issue: JValue, env: Env, atts: seq<Saved>): (r: Result<string>)
    ensures r.Ok? <==> Lines(c, issue, env, atts).Ok?
    ensures r.Ok? ==> Split(r.value, '\n') == SplitEach(Lines(c, issue, env, atts).value, '\n')
    ensures r.Ok? ==> var lines := Lines(c, issue, env, atts).value;
                      (forall i :: 0 <= i < |lines| ==> '\n' !in lines[i]) ==> Split(r.value, '\n') == lines
  {
    var lines :- Lines(c, issue, env, atts);
    SplitJoinEach(lines, '\n');
    if forall i :: 0 <= i < |lines| ==> '\n' !in lines[i] then
      SplitEachPlain(lines, '\n');
      Ok(Join(lines, "\n"))
    else Ok(Join(lines, "\n"))
  }

  /** The description heading and the description as text. */
  lemma DescriptionText(desc: string)
    ensures Join(["## Description", "", desc], "\n") == "## Description\n\n" + desc
  {
    assert ["", desc][1..] == [desc];
    assert Join(["", desc], "\n") == "" + "\n" + desc;
    assert ["## Description", "", desc][1..] == ["", desc];
    assert "## Description" + "\n" + ("" + "\n" + desc) == "## Description\n\n" + desc;
  }

  /** The first eleven lines: the header, the description heading, a
      blank line and the description. */
  lemma DocumentHead(h: Header, desc: string, comments: seq<string>, attachments: seq<string>, baseUrl: string)
    ensures Document(h, desc, comments, attachments, baseUrl)[..11] == HeaderLines(h, baseUrl) + ["## Description", "", desc]
  {
    var lines := Document(h, desc, comments, attachments, baseUrl);
    TakeTake(lines, 12, 11);
    var f := Front(h, desc, baseUrl);
    assert f[..11] == HeaderLines(h, baseUrl) + ["## Description", "", desc];
  }

  /** Any document opens with the header lines, then the description
      heading, a blank line and the description. */
  lemma DocumentOpens(h: Header, desc: string, comments: seq<string>, attachments: seq<string>, baseUrl: string)
    ensures StartsWith(Join(Document(h, desc, comments, attachments, baseUrl), "\n"),
                       Join(HeaderLines(h, baseUrl), "\n") + "\n## Description\n\n" + desc + "\n")
  {
    var lines := Document(h, desc, comments, attachments, baseUrl);
    var hl := HeaderLines(h, baseUrl);
    var d := ["## Description", "", desc];
    DocumentHead(h, desc, comments, attachments, baseUrl);
    JoinOpens(lines, 11, "\n");
    JoinAppend(hl, d, "\n");
    DescriptionText(desc);
    OpensText(Join(hl, "\n"), desc);
  }

  /** The opening text regrouped. */
  lemma OpensText(x: string, desc: string)
    ensures x + "\n" + ("## Description\n\n" + desc) + "\n" == x + "\n## Description\n\n" + desc + "\n"
  {
  }

  /** The file opens with the eight header lines (title, the issue's
      fields and a blank line), then "## Description", a blank line and
      the description or its placeholder. */
  lemma ComposeMarkdownOpens(c: Converter, issue: JValue, env: Env, atts: seq<Saved>)
    requires ComposeMarkdown(c, issue, env, atts).Ok?
    ensures ReadHeader(issue).Ok?
    ensures Description(Field(issue, "fields", JObj([])), Field(issue, "renderedFields", JObj([])), env, RelinkerOf(c), atts).Ok?
    ensures StartsWith(ComposeMarkdown(c, issue, env, atts).value,
                       Join(HeaderLines(ReadHeader(issue).value, env.baseUrl), "\n") + "\n## Description\n\n" +
                       Description(Field(issue, "fields", JObj([])), Field(issue, "renderedFields", JObj([])), env, RelinkerOf(c), atts).value + "\n")
  {
    var p := Gather(c, issue, env, atts).value;
    DocumentOpens(p.header, p.desc, p.comments, p.attachments, env.baseUrl);
  }
}
