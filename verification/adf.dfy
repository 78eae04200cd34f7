/** The Atlassian Document Format renderer of
    `MarkdownConverter._parse_adf_to_markdown`: a recursive transducer from a
    JSON document tree to Markdown text, keyed on each node's "type".

    A string node renders as itself, any other non-dict as "", and a dict of
    an unknown type as its children joined by newlines. Where the source
    raises (iterating a number, `.get` on a non-dict mark or attrs value,
    `"#" * "2"`), the renderer returns `Err`.
 */
module Adf {
  import opened Wrappers
  import opened Text
  import opened Json

  /** Markdown for one ADF node. */
  function Render(node: JValue): Result<string>
    decreases node, 3
  {
    match node
    case JStr(s) => Ok(s)
    case JObj(_) => RenderObject(node)
    case _ => Ok("")
  }

  /** The node types the renderer knows, and `Other` for the rest. */
  datatype Kind =
    | Doc | Paragraph | TextNode | BulletList | OrderedList | ListItem
    | Heading | CodeBlock | Blockquote | Media | Mention | HardBreak | Other

  /** The kind a node's "type" value names. */
  function KindOf(t: JValue): Kind {
    if !t.JStr? then Other
    else match t.s
      case "doc" => Doc
      case "paragraph" => Paragraph
      case "text" => TextNode
      case "bulletList" => BulletList
      case "orderedList" => OrderedList
      case "listItem" => ListItem
      case "heading" => Heading
      case "codeBlock" => CodeBlock
      case "blockquote" => Blockquote
      case "mediaSingle" => Media
      case "media" => Media
      case "mention" => Mention
      case "hardBreak" => HardBreak
      case _ => Other
  }

  /** A dict node, dispatched on its "type" (default ""). */
  function RenderObject(node: JValue): Result<string>
    requires node.JObj?
    decreases node, 2
  {
    match KindOf(Field(node, "type", JStr("")))
    case Paragraph =>
      if !Truthy(Field(node, "content", JList([]))) then Ok("")
      else
        var kids :- Children(node);
        Ok(Join(kids, ""))
    case TextNode => RenderText(node)
    case Heading => RenderHeading(node)
    case CodeBlock => RenderCodeBlock(node)
    case Media => RenderMedia(node)
    case Mention => RenderMention(node)
    case HardBreak => Ok("\n")
    case Other =>
      if !Truthy(Field(node, "content", JList([]))) then Ok("")
      else
        var kids :- Children(node);
        Ok(Join(kids, "\n"))
    case _ =>
      var kids :- Children(node);
      Ok(Layout(KindOf(Field(node, "type", JStr(""))), kids))
  }

  /** How a document, list, list item or block quote lays out the
      renderings of its children. */
  function Layout(kind: Kind, kids: seq<string>): string {
    match kind
    case Doc => Join(kids, "\n\n")
    case BulletList => Join(BulletLines(kids), "\n")
    case OrderedList => Join(OrderedLines(kids, 1), "\n")
    case Blockquote => Join(Quoted(Split(Join(kids, "\n"), '\n')), "\n")
    case _ => Join(kids, "\n")
  }

  /** A text node: its "text" wrapped by its marks, which must yield a
      string. */
  function RenderText(node: JValue): Result<string>
    requires node.JObj?
  {
    var marks :- Iter(Field(node, "marks", JList([])));
    var t :- ApplyMarks(Field(node, "text", JStr("")), marks);
    if t.JStr? then Ok(t.s) else Err(TypeError)
  }

  /** "#" times the level (default 1), a space, the inline children. */
  function RenderHeading(node: JValue): Result<string>
    requires node.JObj?
    decreases node, 1
  {
    var attrs :- Get(node, "attrs", JObj([]));
    var level :- Get(attrs, "level", JNum(1));
    var kids :- Children(node);
    var hashes :- Hashes(level);
    Ok(hashes + " " + Join(kids, ""))
  }

  /** A fenced block with the language (default "") after the fence. */
  function RenderCodeBlock(node: JValue): Result<string>
    requires node.JObj?
    decreases node, 1
  {
    var kids :- Children(node);
    var attrs :- Get(node, "attrs", JObj([]));
    var language :- Get(attrs, "language", JStr(""));
    Ok("```" + Str(language) + "\n" + Join(kids, "\n") + "\n```")
  }

  /** An image placeholder named by alt, else title, else "attachment". */
  function RenderMedia(node: JValue): Result<string>
    requires node.JObj?
  {
    var attrs :- Get(node, "attrs", JObj([]));
    var alt :- Get(attrs, "alt", JStr(""));
    var title :- Get(attrs, "title", JStr(""));
    Ok("![" + Str(Or(Or(alt, title), JStr("attachment"))) + "](attachment)")
  }

  /** "@" and the mention's text, else its id, else "@user". */
  function RenderMention(node: JValue): Result<string>
    requires node.JObj?
  {
    var attrs :- Get(node, "attrs", JObj([]));
    var text :- Get(attrs, "text", JStr(""));
    var id :- Get(attrs, "id", JStr("@user"));
    Ok("@" + Str(Or(text, id)))
  }

  /** The renderings of `node.get("content", [])`, iterated the Python way:
      a string's characters and a dict's keys are string nodes, which render
      as themselves. */
  function Children(node: JValue): Result<seq<string>>
    requires node.JObj?
    decreases node, 0
  {
    match Find(node.fields, "content")
    case None => Ok([])
    case Some(i) =>
      match node.fields[i].1
      case JList(items) => Collect(seq(|items|, j requires 0 <= j < |items| => Render(items[j])))
      case JStr(s) => Ok(seq(|s|, j requires 0 <= j < |s| => [s[j]]))
      case JObj(fs) => Ok(seq(|fs|, j requires 0 <= j < |fs| => fs[j].0))
      case _ => Err(TypeError)
  }

  /** `"#" * level`: an int repeats, a bool counts as 0 or 1, anything else
      cannot multiply a string. */
  function Hashes(level: JValue): (r: Result<string>)
    ensures level.JNum? ==> r == Ok(Repeat("#", level.n))
    ensures level.JBool? ==> r == Ok(Repeat("#", if level.b then 1 else 0))
    ensures r.Ok? <==> level.JNum? || level.JBool?
  {
    match level
    case JNum(n) => Ok(Repeat("#", n))
    case JBool(b) =>
      assert Repeat("#", 1) == "#" + Repeat("#", 0) == "#";
      Ok(if b then "#" else "")
    case _ => Err(TypeError)
  }

  /** One mark wraps the text built so far; unknown mark types leave it. */
  function ApplyMark(text: JValue, mark: JValue): Result<JValue> {
    var kind :- Get(mark, "type", JStr(""));
    if kind == JStr("strong") then Ok(JStr("**" + Str(text) + "**"))
    else if kind == JStr("em") then Ok(JStr("*" + Str(text) + "*"))
    else if kind == JStr("code") then Ok(JStr("`" + Str(text) + "`"))
    else if kind == JStr("link") then
      var attrs :- Get(mark, "attrs", JObj([]));
      var href :- Get(attrs, "href", JStr(""));
      Ok(JStr("[" + Str(text) + "](" + Str(href) + ")"))
    else Ok(text)
  }

  /** The marks in list order, each wrapping the current text. */
  function ApplyMarks(text: JValue, marks: seq<JValue>): Result<JValue>
    decreases |marks|
  {
    if marks == [] then Ok(text)
    else
      var next :- ApplyMark(text, marks[0]);
      ApplyMarks(next, marks[1..])
  }

  /** Non-empty lines, each prefixed. */
  function Prefixed(lines: seq<string>, prefix: string): (r: seq<string>)
    ensures forall i :: 0 <= i < |r| ==>
              StartsWith(r[i], prefix) && |r[i]| > |prefix| && r[i][|prefix|..] in lines
    ensures forall l :: l in lines && l != "" ==> prefix + l in r
  {
    if lines == [] then []
    else
      var rest := Prefixed(lines[1..], prefix);
      assert forall l :: l in lines[1..] ==> l in lines;
      if lines[0] == "" then rest
      else
        assert (prefix + lines[0])[|prefix|..] == lines[0];
        [prefix + lines[0]] + rest
  }

  /** The bullet list lines: "- " before every non-empty line of each item. */
  function BulletLines(items: seq<string>): (r: seq<string>)
    ensures forall i :: 0 <= i < |r| ==>
              StartsWith(r[i], "- ") && |r[i]| > 2 && '\n' !in r[i]
  {
    if items == [] then []
    else
      var lines := Split(items[0], '\n');
      var first := Prefixed(lines, "- ");
      forall i | 0 <= i < |first|
        ensures '\n' !in first[i]
      {
        assert first[i] == "- " + first[i][2..];
      }
      first + BulletLines(items[1..])
  }

  /** The lines of item number `n` of an ordered list: "n. " before its
      first line and three spaces before its later lines, empty lines
      dropped. */
  function ItemLines(lines: seq<string>, n: nat, first: bool): (r: seq<string>)
    ensures forall i :: 0 <= i < |r| ==>
              StartsWith(r[i], Decimal(n) + ". ") || StartsWith(r[i], "   ")
  {
    if lines == [] then []
    else
      var rest := ItemLines(lines[1..], n, false);
      if lines[0] == "" then rest
      else if first then [Decimal(n) + ". " + lines[0]] + rest
      else ["   " + lines[0]] + rest
  }

  /** The ordered list lines, numbering the items from `start`. */
  function OrderedLines(items: seq<string>, start: nat): (r: seq<string>)
    ensures forall i :: 0 <= i < |r| ==>
              StartsWith(r[i], "   ") ||
              exists k :: start <= k < start + |items| && StartsWith(r[i], Decimal(k) + ". ")
    decreases |items|
  {
    if items == [] then []
    else
      var own := ItemLines(Split(items[0], '\n'), start, true);
      var rest := OrderedLines(items[1..], start + 1);
      assert forall i :: 0 <= i < |own| ==>
               StartsWith(own[i], "   ") || StartsWith(own[i], Decimal(start) + ". ");
      own + rest
  }

  /** "> " before every line, blank ones included. */
  function Quoted(lines: seq<string>): (r: seq<string>)
    ensures |r| == |lines|
    ensures forall i :: 0 <= i < |r| ==> r[i] == "> " + lines[i]
  {
    seq(|lines|, i requires 0 <= i < |lines| => "> " + lines[i])
  }
}
