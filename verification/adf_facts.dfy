/** What the ADF renderer guarantees: scalar nodes, the forward-compatible
    fallback for unknown node types, the order in which text marks wrap,
    the line shapes of lists, headings, code blocks and block quotes, and
    that a well-formed tree always renders.
 */
module AdfFacts {
  import opened Wrappers
  import opened Text
  import opened Json
  import opened Adf
  import opened Seqs

  /** A dict node whose "type" is `kind`. */
  predicate IsKind(node: JValue, kind: string) {
    node.JObj? && Field(node, "type", JStr("")) == JStr(kind)
  }

  /** The kind of a dict node. */
  function KindOfNode(node: JValue): Kind
    requires node.JObj?
  {
    KindOf(Field(node, "type", JStr("")))
  }

  /** The children as a list, each of which renders. */
  predicate RenderableChildren(node: JValue, items: seq<JValue>) {
    && node.JObj?
    && Field(node, "content", JList([])) == JList(items)
    && forall j :: 0 <= j < |items| ==> Render(items[j]).Ok?
  }

  /** A string node is returned unchanged; any other non-dict gives "". */
  lemma ScalarNodes(node: JValue)
    ensures node.JStr? ==> Render(node) == Ok(node.s)
    ensures !node.JStr? && !node.JObj? ==> Render(node) == Ok("")
  {
  }

  /** A list of renderable children renders as their renderings, in order. */
  lemma ListChildren(node: JValue, items: seq<JValue>)
    requires RenderableChildren(node, items)
    ensures Children(node) == Ok(seq(|items|, j requires 0 <= j < |items| => Render(items[j]).value))
  {
    var want := seq(|items|, j requires 0 <= j < |items| => Render(items[j]).value);
    match Find(node.fields, "content")
    case None =>
      assert items == [];
      assert want == [];
    case Some(i) =>
      var rs := seq(|items|, j requires 0 <= j < |items| => Render(items[j]));
      assert Children(node) == Collect(rs);
      assert Collect(rs).value == want;
  }

  /** Forward compatibility: a node of an unknown type renders as its
      children joined by newlines, and as "" when it has none. */
  lemma {:induction false} UnknownKindJoinsChildren(node: JValue, items: seq<JValue>)
    requires RenderableChildren(node, items) && KindOfNode(node) == Other
    ensures Render(node) ==
              Ok(Join(seq(|items|, j requires 0 <= j < |items| => Render(items[j]).value), "\n"))
  {
    ListChildren(node, items);
  }

  /** Python iteration of the content value and the renderer's own walk over
      the children agree: both fail together, and otherwise every item is
      rendered in order. */
  lemma {:induction false} ChildrenFollowIteration(node: JValue)
    requires node.JObj?
    ensures var content := Field(node, "content", JList([]));
            && (Iter(content).Err? ==> Children(node).Err?)
            && (Iter(content).Ok? ==>
                  var xs := Iter(content).value;
                  Children(node) == Collect(seq(|xs|, j requires 0 <= j < |xs| => Render(xs[j]))))
  {
    var content := Field(node, "content", JList([]));
    match Find(node.fields, "content")
    case None =>
      assert Iter(content).value == [];
    case Some(i) =>
      match content
      case JList(items) =>
      case JStr(s) =>
        var xs := Iter(content).value;
        var rs := seq(|xs|, j requires 0 <= j < |xs| => Render(xs[j]));
        assert forall j :: 0 <= j < |xs| ==> rs[j] == Ok([s[j]]);
        assert Collect(rs).value == seq(|s|, j requires 0 <= j < |s| => [s[j]]);
      case JObj(fs) =>
        var xs := Iter(content).value;
        var rs := seq(|xs|, j requires 0 <= j < |xs| => Render(xs[j]));
        assert forall j :: 0 <= j < |xs| ==> rs[j] == Ok(fs[j].0);
        assert Collect(rs).value == seq(|fs|, j requires 0 <= j < |fs| => fs[j].0);
      case _ =>
  }

  /** A mark dict of a given type. */
  function Mark(kind: string): JValue {
    JObj([("type", JStr(kind))])
  }

  /** Marks compose in list order: the last mark is the outermost wrapper. */
  lemma {:induction false} MarksApplyInOrder(text: JValue, marks: seq<JValue>, last: JValue)
    ensures ApplyMarks(text, marks + [last]) ==
              match ApplyMarks(text, marks)
              case Err(f) => Err(f)
              case Ok(t) => ApplyMark(t, last)
    decreases |marks|
  {
    if marks == [] {
      assert [] + [last] == [last];
    } else {
      assert (marks + [last])[0] == marks[0];
      assert (marks + [last])[1..] == marks[1..] + [last];
      match ApplyMark(text, marks[0])
      case Err(_) =>
      case Ok(next) => MarksApplyInOrder(next, marks[1..], last);
    }
  }

  /** strong, em and code wrap the text; a link makes it the link label;
      any other mark type is ignored. */
  lemma MarkWrappers(s: string, kind: string, href: string)
    ensures ApplyMark(JStr(s), Mark("strong")) == Ok(JStr("**" + s + "**"))
    ensures ApplyMark(JStr(s), Mark("em")) == Ok(JStr("*" + s + "*"))
    ensures ApplyMark(JStr(s), Mark("code")) == Ok(JStr("`" + s + "`"))
    ensures ApplyMark(JStr(s), JObj([("type", JStr("link")),
                                     ("attrs", JObj([("href", JStr(href))]))]))
            == Ok(JStr("[" + s + "](" + href + ")"))
    ensures kind !in {"strong", "em", "code", "link"} ==>
              ApplyMark(JStr(s), Mark(kind)) == Ok(JStr(s))
  {
    MarkKind("strong");
    MarkKind("em");
    MarkKind("code");
    MarkKind(kind);
    LinkMark(s, href);
  }

  /** A mark dict reads back its type. */
  lemma MarkKind(kind: string)
    ensures Get(Mark(kind), "type", JStr("")) == Ok(JStr(kind))
  {
  }

  lemma LinkMark(s: string, href: string)
    ensures ApplyMark(JStr(s), JObj([("type", JStr("link")),
                                     ("attrs", JObj([("href", JStr(href))]))]))
            == Ok(JStr("[" + s + "](" + href + ")"))
  {
    var attrs := JObj([("href", JStr(href))]);
    var link := JObj([("type", JStr("link")), ("attrs", attrs)]);
    assert Get(link, "type", JStr("")) == Ok(JStr("link"));
    assert "type"[0] != "attrs"[0];
    assert Find(link.fields, "attrs") == Some(1);
    assert Get(link, "attrs", JObj([])) == Ok(attrs);
    assert Get(attrs, "href", JStr("")) == Ok(JStr(href));
  }

  /** Bold then italic gives "***t***"; the outer mark is the later one. */
  lemma StrongThenEm(s: string)
    ensures ApplyMarks(JStr(s), [Mark("strong"), Mark("em")]) == Ok(JStr("***" + s + "***"))
  {
    var bold := "**" + s + "**";
    MarkKind("strong");
    MarkKind("em");
    assert ApplyMark(JStr(s), Mark("strong")) == Ok(JStr(bold));
    assert ApplyMark(JStr(bold), Mark("em")) == Ok(JStr("*" + bold + "*"));
    assert [Mark("strong"), Mark("em")][1..] == [Mark("em")];
    assert [Mark("em")][1..] == [];
    assert "*" + bold + "*" == "***" + s + "***";
  }

  /** Joining lines that contain no newline and splitting again gives the
      same lines. */
  lemma LinesOfJoin(lines: seq<string>)
    requires |lines| >= 1
    requires forall i :: 0 <= i < |lines| ==> '\n' !in lines[i]
    ensures Split(Join(lines, "\n"), '\n') == lines
  {
    SplitJoin(lines, '\n');
  }

  /** A bullet list renders exactly when its children do, and then every
      line starts with "- " and carries a non-empty item line; empty item
      lines are dropped. */
  lemma {:induction false} BulletListLines(node: JValue)
    requires IsKind(node, "bulletList")
    ensures Render(node).Ok? <==> Children(node).Ok?
    ensures Render(node).Ok? && Render(node).value != "" ==>
              forall l :: l in Split(Render(node).value, '\n') ==> StartsWith(l, "- ") && |l| > 2
  {
    assert KindOfNode(node) == BulletList;
    if Children(node).Ok? {
      var lines := BulletLines(Children(node).value);
      assert Render(node) == RenderObject(node);
      assert Render(node) == Ok(Join(lines, "\n"));
      if lines != [] {
        LinesOfJoin(lines);
      }
    }
  }

  /** An ordered list of n items renders exactly when its children do, and
      then every line starts with "k. " for an item number 1 <= k <= n, or
      continues an item with three spaces. */
  lemma {:induction false} OrderedListLines(node: JValue)
    requires IsKind(node, "orderedList")
    ensures Render(node).Ok? <==> Children(node).Ok?
    ensures Render(node).Ok? && Render(node).value != "" ==>
              var n := |Children(node).value|;
              forall l :: l in Split(Render(node).value, '\n') ==>
                StartsWith(l, "   ") || exists k :: 1 <= k <= n && StartsWith(l, Decimal(k) + ". ")
  {
    assert KindOfNode(node) == OrderedList;
    if Children(node).Ok? {
      var kids := Children(node).value;
      var lines := OrderedLines(kids, 1);
      assert Render(node) == RenderObject(node);
      assert Render(node) == Ok(Join(lines, "\n"));
      forall i | 0 <= i < |lines|
        ensures '\n' !in lines[i]
      {
        OrderedLineHasNoBreak(kids, 1, i);
      }
      if lines != [] {
        LinesOfJoin(lines);
      }
    }
  }

  lemma {:induction false} OrderedLineHasNoBreak(items: seq<string>, start: nat, i: nat)
    requires i < |OrderedLines(items, start)|
    ensures '\n' !in OrderedLines(items, start)[i]
    decreases |items|
  {
    var own := ItemLines(Split(items[0], '\n'), start, true);
    if i < |own| {
      ItemLineHasNoBreak(Split(items[0], '\n'), start, true, i);
    } else {
      OrderedLineHasNoBreak(items[1..], start + 1, i - |own|);
    }
  }

  lemma {:induction false} ItemLineHasNoBreak(lines: seq<string>, n: nat, first: bool, i: nat)
    requires forall j :: 0 <= j < |lines| ==> '\n' !in lines[j]
    requires i < |ItemLines(lines, n, first)|
    ensures '\n' !in ItemLines(lines, n, first)[i]
    decreases |lines|
  {
    var rest := ItemLines(lines[1..], n, false);
    if lines[0] == "" {
      ItemLineHasNoBreak(lines[1..], n, false, i);
    } else if i == 0 {
      DigitsHaveNoBreak(n);
      var l := if first then Decimal(n) + ". " + lines[0] else "   " + lines[0];
      assert ItemLines(lines, n, first)[0] == l;
    } else {
      ItemLineHasNoBreak(lines[1..], n, false, i - 1);
    }
  }

  lemma {:induction false} DigitsHaveNoBreak(n: nat)
    ensures '\n' !in Decimal(n)
    decreases n
  {
    if n >= 10 {
      DigitsHaveNoBreak(n / 10);
    }
  }

  /** Items are numbered 1, 2, ... in order: item k whose text starts with a
      non-empty line yields the line "k. <that line>". */
  lemma {:induction false} OrderedListNumbersItems(items: seq<string>, start: nat, k: nat)
    requires k < |items|
    requires Split(items[k], '\n')[0] != ""
    ensures Decimal(start + k) + ". " + Split(items[k], '\n')[0] in OrderedLines(items, start)
    decreases k
  {
    if k == 0 {
      var lines := Split(items[0], '\n');
      assert ItemLines(lines, start, true)[0] == Decimal(start) + ". " + lines[0];
    } else {
      OrderedListNumbersItems(items[1..], start + 1, k - 1);
      assert items[1..][k - 1] == items[k];
    }
  }

  /** Every non-empty line of every item appears behind "- ", and every
      bullet line is "- " before a line of some item. */
  lemma {:induction false} BulletLinesContent(items: seq<string>)
    ensures forall k, l :: 0 <= k < |items| && l in Split(items[k], '\n') && l != "" ==>
              "- " + l in BulletLines(items)
    ensures forall i :: 0 <= i < |BulletLines(items)| ==>
              exists k :: 0 <= k < |items| && BulletLines(items)[i][2..] in Split(items[k], '\n')
    decreases |items|
  {
    if items != [] {
      var first := Prefixed(Split(items[0], '\n'), "- ");
      var rest := BulletLines(items[1..]);
      var r := BulletLines(items);
      BulletLinesContent(items[1..]);
      assert r == first + rest;
      forall k, l | 0 <= k < |items| && l in Split(items[k], '\n') && l != ""
        ensures "- " + l in r
      {
        if k == 0 {
          assert "- " + l in first;
        } else {
          assert items[k] == items[1..][k - 1];
          assert "- " + l in rest;
        }
      }
      forall i | 0 <= i < |r|
        ensures exists k :: 0 <= k < |items| && r[i][2..] in Split(items[k], '\n')
      {
        if i < |first| {
          assert r[i] == first[i];
          assert r[i][2..] in Split(items[0], '\n');
        } else {
          assert r[i] == rest[i - |first|];
          var k :| 0 <= k < |items[1..]| && rest[i - |first|][2..] in Split(items[1..][k], '\n');
          assert items[1..][k] == items[k + 1];
        }
      }
      assert BulletLines(items) == r;
    } else {
      assert BulletLines(items) == [];
    }
  }

  /** What precedes line `j` of item number `n` in an ordered list: the
      number on the item's first line, three spaces on the others. */
  function ItemPrefix(n: nat, first: bool, j: nat): string {
    if j == 0 && first then Decimal(n) + ". " else "   "
  }

  /** A non-empty line of an item appears behind its prefix. */
  lemma {:induction false} ItemLineAt(lines: seq<string>, n: nat, first: bool, j: nat)
    requires j < |lines| && lines[j] != ""
    ensures ItemPrefix(n, first, j) + lines[j] in ItemLines(lines, n, first)
    decreases |lines|
  {
    var rest := ItemLines(lines[1..], n, false);
    var head := ItemPrefix(n, first, 0) + lines[0];
    assert lines[0] == "" ==> ItemLines(lines, n, first) == rest;
    assert lines[0] != "" ==> ItemLines(lines, n, first) == [head] + rest;
    if j > 0 {
      ItemLineAt(lines[1..], n, false, j - 1);
      assert lines[1..][j - 1] == lines[j];
    }
  }

  /** Every line of an item is a non-empty line of it behind its prefix. */
  lemma {:induction false} ItemLineSource(lines: seq<string>, n: nat, first: bool, i: nat) returns (j: nat)
    requires i < |ItemLines(lines, n, first)|
    ensures j < |lines| && lines[j] != ""
    ensures ItemLines(lines, n, first)[i] == ItemPrefix(n, first, j) + lines[j]
    decreases |lines|
  {
    var rest := ItemLines(lines[1..], n, false);
    var head := ItemPrefix(n, first, 0) + lines[0];
    assert lines[0] == "" ==> ItemLines(lines, n, first) == rest;
    assert lines[0] != "" ==> ItemLines(lines, n, first) == [head] + rest;
    if lines[0] != "" && i == 0 {
      j := 0;
    } else {
      var i' := if lines[0] != "" then i - 1 else i;
      assert ItemLines(lines, n, first)[i] == rest[i'];
      var j' := ItemLineSource(lines[1..], n, false, i');
      j := j' + 1;
      assert lines[1..][j'] == lines[j];
    }
  }

  /** Every non-empty line of an item appears behind its prefix, and every
      line produced is a non-empty item line behind its prefix. */
  lemma {:induction false} ItemLinesContent(lines: seq<string>, n: nat, first: bool)
    ensures forall j :: 0 <= j < |lines| && lines[j] != "" ==>
              ItemPrefix(n, first, j) + lines[j] in ItemLines(lines, n, first)
    ensures forall i :: 0 <= i < |ItemLines(lines, n, first)| ==>
              exists j :: 0 <= j < |lines| && lines[j] != "" &&
                ItemLines(lines, n, first)[i] == ItemPrefix(n, first, j) + lines[j]
  {
    forall j | 0 <= j < |lines| && lines[j] != ""
      ensures ItemPrefix(n, first, j) + lines[j] in ItemLines(lines, n, first)
    {
      ItemLineAt(lines, n, first, j);
    }
    var r := ItemLines(lines, n, first);
    forall i | 0 <= i < |r|
      ensures exists j :: 0 <= j < |lines| && lines[j] != "" && r[i] == ItemPrefix(n, first, j) + lines[j]
    {
      var j := ItemLineSource(lines, n, first, i);
    }
    assert r == ItemLines(lines, n, first);
  }

  /** `line` is line j of item k behind its prefix, the item numbered
      `start + k`, and that line is not empty. */
  predicate FromItem(items: seq<string>, start: nat, k: nat, j: nat, line: string) {
    && k < |items| && j < |Split(items[k], '\n')| && Split(items[k], '\n')[j] != ""
    && line == ItemPrefix(start + k, true, j) + Split(items[k], '\n')[j]
  }

  /** Item k of an ordered list numbered from `start` contributes its
      non-empty lines, the first behind "start+k. " and the others behind
      three spaces. */
  lemma {:induction false} OrderedLinesComplete(items: seq<string>, start: nat, k: nat, j: nat)
    requires k < |items| && j < |Split(items[k], '\n')| && Split(items[k], '\n')[j] != ""
    ensures ItemPrefix(start + k, true, j) + Split(items[k], '\n')[j] in OrderedLines(items, start)
    decreases k
  {
    if k == 0 {
      OrderedLinesHead(items, start, j);
    } else {
      assert items[1..][k - 1] == items[k] && start + 1 + (k - 1) == start + k;
      OrderedLinesComplete(items[1..], start + 1, k - 1, j);
      OrderedLinesTail(items, start, ItemPrefix(start + k, true, j) + Split(items[k], '\n')[j]);
    }
  }

  /** The first item's lines open an ordered list. */
  lemma OrderedLinesHead(items: seq<string>, start: nat, j: nat)
    requires |items| > 0 && j < |Split(items[0], '\n')| && Split(items[0], '\n')[j] != ""
    ensures ItemPrefix(start, true, j) + Split(items[0], '\n')[j] in OrderedLines(items, start)
  {
    ItemLineAt(Split(items[0], '\n'), start, true, j);
    assert OrderedLines(items, start) == ItemLines(Split(items[0], '\n'), start, true) + OrderedLines(items[1..], start + 1);
  }

  /** The lines of the later items, numbered on from the next number,
      follow in an ordered list. */
  lemma OrderedLinesTail(items: seq<string>, start: nat, line: string)
    requires |items| > 0 && line in OrderedLines(items[1..], start + 1)
    ensures line in OrderedLines(items, start)
  {
    assert OrderedLines(items, start) == ItemLines(Split(items[0], '\n'), start, true) + OrderedLines(items[1..], start + 1);
  }

  /** Every line of an ordered list is a non-empty line of some item behind
      that item's prefix. */
  lemma {:induction false} OrderedLinesSound(items: seq<string>, start: nat, i: nat)
    requires i < |OrderedLines(items, start)|
    ensures exists k: nat, j: nat :: FromItem(items, start, k, j, OrderedLines(items, start)[i])
    decreases |items|
  {
    var lines := Split(items[0], '\n');
    var own := ItemLines(lines, start, true);
    var rest := OrderedLines(items[1..], start + 1);
    var line := OrderedLines(items, start)[i];
    assert OrderedLines(items, start) == own + rest;
    if i < |own| {
      assert line == own[i];
      var j := ItemLineSource(lines, start, true, i);
      assert FromItem(items, start, 0, j, line);
    } else {
      assert line == rest[i - |own|];
      OrderedLinesSound(items[1..], start + 1, i - |own|);
      var k: nat, j: nat :| FromItem(items[1..], start + 1, k, j, rest[i - |own|]);
      assert items[1..][k] == items[k + 1];
      assert FromItem(items, start, k + 1, j, line);
    }
  }

  /** The lines of a rendered bullet list are exactly the non-empty lines
      of its items, each behind "- ". */
  lemma {:induction false} BulletListItems(node: JValue)
    requires IsKind(node, "bulletList") && Children(node).Ok?
    ensures Render(node).Ok?
    ensures var kids := Children(node).value;
            forall k, l :: 0 <= k < |kids| && l in Split(kids[k], '\n') && l != "" ==>
              "- " + l in Split(Render(node).value, '\n')
    ensures var kids := Children(node).value;
            Render(node).value != "" ==>
              forall l :: l in Split(Render(node).value, '\n') ==>
                StartsWith(l, "- ") && exists k :: 0 <= k < |kids| && l[2..] in Split(kids[k], '\n')
  {
    assert KindOfNode(node) == BulletList;
    var kids := Children(node).value;
    var lines := BulletLines(kids);
    assert Render(node) == RenderObject(node);
    assert Render(node) == Ok(Join(lines, "\n"));
    BulletLinesContent(kids);
    if lines != [] {
      LinesOfJoin(lines);
    }
  }

  /** The lines of a rendered ordered list are exactly the non-empty lines
      of its items: line j of item k (counting from 0) appears behind
      "k+1. " when it is the item's first line and behind three spaces
      otherwise. */
  lemma {:induction false} OrderedListItems(node: JValue)
    requires IsKind(node, "orderedList") && Children(node).Ok?
    ensures Render(node).Ok?
    ensures var kids := Children(node).value;
            forall k: nat, j: nat :: k < |kids| && j < |Split(kids[k], '\n')| && Split(kids[k], '\n')[j] != "" ==>
              ItemPrefix(1 + k, true, j) + Split(kids[k], '\n')[j] in Split(Render(node).value, '\n')
    ensures var kids := Children(node).value;
            Render(node).value != "" ==>
              forall l :: l in Split(Render(node).value, '\n') ==>
                exists k: nat, j: nat :: FromItem(kids, 1, k, j, l)
  {
    assert KindOfNode(node) == OrderedList;
    var kids := Children(node).value;
    var lines := OrderedLines(kids, 1);
    assert Render(node) == RenderObject(node);
    assert Render(node) == Ok(Join(lines, "\n"));
    forall i | 0 <= i < |lines|
      ensures '\n' !in lines[i]
    {
      OrderedLineHasNoBreak(kids, 1, i);
    }
    forall k: nat, j: nat | k < |kids| && j < |Split(kids[k], '\n')| && Split(kids[k], '\n')[j] != ""
      ensures ItemPrefix(1 + k, true, j) + Split(kids[k], '\n')[j] in lines
    {
      OrderedLinesComplete(kids, 1, k, j);
    }
    forall i | 0 <= i < |lines|
      ensures exists k: nat, j: nat :: FromItem(kids, 1, k, j, lines[i])
    {
      OrderedLinesSound(kids, 1, i);
    }
    if lines != [] {
      LinesOfJoin(lines);
    }
  }

  /** A heading is "#" times its level, a space and its inline text; the
      level defaults to 1. */
  lemma HeadingShape(node: JValue)
    requires IsKind(node, "heading") && Render(node).Ok?
    ensures var attrs := Field(node, "attrs", JObj([]));
            && attrs.JObj? && Children(node).Ok?
            && var level := Field(attrs, "level", JNum(1));
               var text := Join(Children(node).value, "");
               && (level.JNum? ==> Render(node).value == Repeat("#", level.n) + " " + text)
               && (!Has(node, "attrs") ==> Render(node).value == "# " + text)
  {
    HeadingRenders(node);
    HeadingText(node);
  }

  lemma HeadingRenders(node: JValue)
    requires IsKind(node, "heading")
    ensures Render(node) == RenderHeading(node)
  {
    assert KindOfNode(node) == Heading;
  }

  lemma HeadingText(node: JValue)
    requires node.JObj? && RenderHeading(node).Ok?
    ensures Field(node, "attrs", JObj([])).JObj? && Children(node).Ok?
    ensures Field(Field(node, "attrs", JObj([])), "level", JNum(1)).JNum? ==>
              RenderHeading(node).value ==
                Repeat("#", Field(Field(node, "attrs", JObj([])), "level", JNum(1)).n) + " " + Join(Children(node).value, "")
    ensures !Has(node, "attrs") ==> RenderHeading(node).value == "# " + Join(Children(node).value, "")
  {
    if !Has(node, "attrs") {
      var attrs := Field(node, "attrs", JObj([]));
      assert attrs == JObj([]);
      assert Field(attrs, "level", JNum(1)) == JNum(1);
      assert Repeat("#", 1) == "#";
    }
  }

  /** A code block is fenced with ``` and the language after the opening
      fence, its children one per line in between. */
  lemma CodeBlockShape(node: JValue)
    requires IsKind(node, "codeBlock") && Render(node).Ok?
    ensures Field(node, "attrs", JObj([])).JObj?
    ensures StartsWith(Render(node).value, "```" + Str(Field(Field(node, "attrs", JObj([])), "language", JStr(""))) + "\n")
    ensures EndsWith(Render(node).value, "\n```")
    ensures !Has(node, "attrs") ==> StartsWith(Render(node).value, "```\n")
    ensures Children(node).Ok? &&
            Render(node).value ==
              "```" + Str(Field(Field(node, "attrs", JObj([])), "language", JStr(""))) + "\n" +
              Join(Children(node).value, "\n") + "\n```"
  {
    CodeBlockRenders(node);
    CodeBlockText(node);
    if !Has(node, "attrs") {
      NoLanguage(node);
      EmptyRight("```", "");
    }
  }

  /** Read back line by line, a code block of newline-free children is the
      opening fence with its language, the children, and the closing
      fence. */
  lemma CodeBlockLines(node: JValue)
    requires IsKind(node, "codeBlock") && Render(node).Ok?
    requires Children(node).Ok? && Field(node, "attrs", JObj([])).JObj?
    requires var kids := Children(node).value;
             |kids| > 0 && forall i :: 0 <= i < |kids| ==> '\n' !in kids[i]
    requires '\n' !in Str(Field(Field(node, "attrs", JObj([])), "language", JStr("")))
    ensures Split(Render(node).value, '\n') ==
              ["```" + Str(Field(Field(node, "attrs", JObj([])), "language", JStr("")))] +
              Children(node).value + ["```"]
  {
    CodeBlockShape(node);
    var open := "```" + Str(Field(Field(node, "attrs", JObj([])), "language", JStr("")));
    var kids := Children(node).value;
    JoinAppend([open], kids, "\n");
    JoinAppend([open] + kids, ["```"], "\n");
    assert Join([open] + kids + ["```"], "\n") == Render(node).value;
    var parts := [open] + kids + ["```"];
    forall i | 0 <= i < |parts|
      ensures '\n' !in parts[i]
    {
      if 0 < i < |parts| - 1 {
        assert parts[i] == kids[i - 1];
      }
    }
    SplitJoin(parts, '\n');
  }

  lemma CodeBlockRenders(node: JValue)
    requires IsKind(node, "codeBlock")
    ensures Render(node) == RenderCodeBlock(node)
  {
    assert KindOfNode(node) == CodeBlock;
  }

  /** Without "attrs" the language is "". */
  lemma NoLanguage(node: JValue)
    requires node.JObj? && !Has(node, "attrs")
    ensures Str(Field(Field(node, "attrs", JObj([])), "language", JStr(""))) == ""
  {
    assert Field(node, "attrs", JObj([])) == JObj([]);
  }

  lemma CodeBlockText(node: JValue)
    requires node.JObj? && RenderCodeBlock(node).Ok?
    ensures Field(node, "attrs", JObj([])).JObj?
    ensures StartsWith(RenderCodeBlock(node).value, "```" + Str(Field(Field(node, "attrs", JObj([])), "language", JStr(""))) + "\n")
    ensures EndsWith(RenderCodeBlock(node).value, "\n```")
    ensures Children(node).Ok? &&
            RenderCodeBlock(node).value ==
              "```" + Str(Field(Field(node, "attrs", JObj([])), "language", JStr(""))) + "\n" +
              Join(Children(node).value, "\n") + "\n```"
  {
    var pre := "```" + Str(Field(Field(node, "attrs", JObj([])), "language", JStr(""))) + "\n";
    var body := Join(Children(node).value, "\n");
    Assoc(pre, body, "\n```");
    DropPrefix(pre, body + "\n```");
    DropPrefix(pre + body, "\n```");
  }

  /** A block quote renders exactly when its children do, and then every
      line starts with "> ". */
  lemma {:induction false} BlockquoteLines(node: JValue)
    requires IsKind(node, "blockquote")
    ensures Render(node).Ok? <==> Children(node).Ok?
    ensures Render(node).Ok? ==> forall l :: l in Split(Render(node).value, '\n') ==> StartsWith(l, "> ")
  {
    assert KindOfNode(node) == Blockquote;
    if Children(node).Ok? {
      var kids := Children(node).value;
      var quoted := Quoted(Split(Join(kids, "\n"), '\n'));
      assert Render(node) == RenderObject(node);
      assert Render(node) == Ok(Layout(Blockquote, kids));
      assert Render(node).value == Join(quoted, "\n");
      forall i | 0 <= i < |quoted|
        ensures '\n' !in quoted[i]
      {
        assert quoted[i] == "> " + Split(Join(kids, "\n"), '\n')[i];
      }
      LinesOfJoin(quoted);
    }
  }

  /** A hard break is a newline. */
  lemma HardBreakIsNewline(node: JValue)
    requires IsKind(node, "hardBreak")
    ensures Render(node) == Ok("\n")
  {
    assert KindOfNode(node) == HardBreak;
  }

  /** The shapes the renderer was written for: children in lists, string
      texts, dict marks and attrs, integer heading levels. */
  predicate WellFormed(node: JValue)
    decreases node
  {
    match node
    case JObj(fields) =>
      && (match Find(fields, "content")
          case None => true
          case Some(i) =>
            match fields[i].1
            case JList(items) => forall j :: 0 <= j < |items| ==> WellFormed(items[j])
            case _ => false)
      && (Has(node, "text") ==> Field(node, "text", JNull).JStr?)
      && (Has(node, "marks") ==> GoodMarks(Field(node, "marks", JNull)))
      && (Has(node, "attrs") ==> GoodAttrs(Field(node, "attrs", JNull)))
    case _ => true
  }

  predicate GoodAttrs(attrs: JValue) {
    attrs.JObj? && (Has(attrs, "level") ==> Field(attrs, "level", JNull).JNum?)
  }

  predicate GoodMarks(marks: JValue) {
    && marks.JList?
    && forall m :: m in marks.items ==>
         m.JObj? && (Has(m, "attrs") ==> Field(m, "attrs", JNull).JObj?)
  }

  lemma {:induction false} GoodMarksKeepString(s: string, marks: seq<JValue>)
    requires GoodMarks(JList(marks))
    ensures ApplyMarks(JStr(s), marks).Ok? && ApplyMarks(JStr(s), marks).value.JStr?
    decreases |marks|
  {
    if marks != [] {
      var m := marks[0];
      assert m in marks;
      var next := ApplyMark(JStr(s), m);
      assert next.Ok? && next.value.JStr?;
      assert forall x :: x in marks[1..] ==> x in marks;
      GoodMarksKeepString(next.value.s, marks[1..]);
    }
  }

  /** The children of a well-formed node all render. */
  lemma {:induction false} WellFormedChildren(node: JValue)
    requires node.JObj? && WellFormed(node)
    ensures Children(node).Ok?
    decreases node, 0
  {
    match Find(node.fields, "content")
    case None =>
    case Some(i) =>
      var items := node.fields[i].1.items;
      forall j | 0 <= j < |items|
        ensures Render(items[j]).Ok?
      {
        WellFormedRenders(items[j]);
      }
      var rs := seq(|items|, j requires 0 <= j < |items| => Render(items[j]));
      assert Children(node) == Collect(rs);
  }

  /** The text of a well-formed text node renders. */
  lemma WellFormedText(node: JValue)
    requires node.JObj? && WellFormed(node)
    ensures RenderText(node).Ok?
  {
    var text := Field(node, "text", JStr(""));
    assert text.JStr?;
    if Has(node, "marks") {
      GoodMarksKeepString(text.s, Field(node, "marks", JNull).items);
    } else {
      GoodMarksKeepString(text.s, []);
    }
  }

  /** A well-formed dict node renders once its children and text do. */
  lemma WellFormedObject(node: JValue)
    requires node.JObj? && WellFormed(node)
    requires Children(node).Ok? && RenderText(node).Ok?
    ensures RenderObject(node).Ok?
  {
    assert Has(node, "attrs") ==> GoodAttrs(Field(node, "attrs", JNull));
    WellFormedAttrs(node);
    match KindOfNode(node)
    case Heading =>
      assert RenderObject(node) == RenderHeading(node);
    case CodeBlock =>
      assert RenderObject(node) == RenderCodeBlock(node);
    case Media =>
      assert RenderObject(node) == RenderMedia(node);
    case Mention =>
      assert RenderObject(node) == RenderMention(node);
    case _ =>
  }

  /** With well-formed attrs the renderers that read them succeed. */
  lemma WellFormedAttrs(node: JValue)
    requires node.JObj? && Children(node).Ok?
    requires Has(node, "attrs") ==> GoodAttrs(Field(node, "attrs", JNull))
    ensures RenderHeading(node).Ok? && RenderCodeBlock(node).Ok?
    ensures RenderMedia(node).Ok? && RenderMention(node).Ok?
  {
    var attrs := Field(node, "attrs", JObj([]));
    assert attrs.JObj?;
    assert Hashes(Field(attrs, "level", JNum(1))).Ok?;
  }

  /** The renderer never fails on a well-formed tree. */
  lemma {:induction false} WellFormedRenders(node: JValue)
    requires WellFormed(node)
    ensures Render(node).Ok?
    decreases node, 1
  {
    if node.JObj? {
      WellFormedChildren(node);
      WellFormedText(node);
      WellFormedObject(node);
    }
  }
}
