/** `replace_attachment_links`: pointing the Markdown images and links that
    name an issue-tracker attachment URL at the downloaded local file.

    The regular expressions of the source are read as a tokenisation of the
    text into plain runs, images `![alt](url)` and links `[label](url)`,
    where an alt or label holds no "]" and a URL holds no ")"; every
    `re.sub` pass is then a map over these segments. Two rewriters exist:

    - the current one (and its copy in the older top-level converter),
      which sends a secure URL ending in an attachment's original file name
      to that file and any other attachment URL to the quoted label;
    - the greedy one of the older package and the script, which sends every
      attachment URL to the file of the first attachment in the list and
      then renames the quoted original name to the quoted file name.
 */
module Links {
  import opened Wrappers
  import opened Text
  import opened Percent
  import opened Attachments
  import opened Seqs

  datatype Segment =
    | Plain(s: string)
    | Image(alt: string, url: string)
    | Link(text: string, url: string)

  /** `[text](url)`. */
  function Bracketed(text: string, url: string): string {
    "[" + text + "](" + url + ")"
  }

  /** The text a segment stands for. */
  function Show(g: Segment): string {
    match g
    case Plain(s) => s
    case Image(alt, url) => "!" + Bracketed(alt, url)
    case Link(text, url) => Bracketed(text, url)
  }

  /** The text a sequence of segments stands for. */
  function Render(segs: seq<Segment>): string {
    if |segs| == 0 then "" else Show(segs[0]) + Render(segs[1..])
  }

  /** What the bracket patterns `[^\]]*` and the closing `\)` allow. */
  predicate Delimited(g: Segment) {
    match g
    case Plain(s) => s != ""
    case Image(alt, url) => ']' !in alt && ')' !in url
    case Link(text, url) => ']' !in text && ')' !in url
  }

  /** `[label](url)` at the start of `s`: the label up to the first "]",
      an opening "(" right after it, the URL up to the next ")". What it
      reads is stated by `BracketShapeOf`. */
  function Bracket(s: string): Option<(string, string, nat)>
    requires |s| > 0 && s[0] == '['
  {
    match IndexOf(s[1..], ']')
    case None => None
    case Some(q) =>
      if q + 2 < |s| && s[q + 2] == '(' then
        match IndexOf(s[q + 3..], ')')
        case None => None
        case Some(e) => Some((s[1..q + 1], s[q + 3..q + 3 + e], q + 4 + e))
      else None
  }

  lemma BracketShape(s: string, q: nat, e: nat)
    requires q + 3 + e < |s|
    requires s[0] == '[' && s[q + 1] == ']' && s[q + 2] == '(' && s[q + 3 + e] == ')'
    ensures s[..q + 4 + e] == Bracketed(s[1..q + 1], s[q + 3..q + 3 + e])
  {
    var t := "[" + s[1..q + 1] + "](" + s[q + 3..q + 3 + e] + ")";
    assert |t| == q + 4 + e;
    forall i | 0 <= i < q + 4 + e
      ensures s[i] == t[i]
    {
      if i == 0 {
      } else if i < q + 1 {
        assert t[i] == s[1..q + 1][i - 1];
      } else if i < q + 3 {
      } else if i < q + 3 + e {
        assert t[i] == s[q + 3..q + 3 + e][i - q - 3];
      }
    }
  }

  /** What the bracket pattern reads is a prefix `[text](url)` of the text,
      with no "]" in the text and no ")" in the URL. */
  lemma BracketShapeOf(s: string)
    requires |s| > 0 && s[0] == '[' && Bracket(s).Some?
    ensures 0 < Bracket(s).value.2 <= |s|
    ensures s[..Bracket(s).value.2] == Bracketed(Bracket(s).value.0, Bracket(s).value.1)
    ensures ']' !in Bracket(s).value.0 && ')' !in Bracket(s).value.1
  {
    var q := IndexOf(s[1..], ']').value;
    var e := IndexOf(s[q + 3..], ')').value;
    BracketFound(s, q, e);
    IndexOfFirst(s[1..], ']');
    IndexOfFirst(s[q + 3..], ')');
    TakeDrop(s, 1, q);
    TakeDrop(s, q + 3, e);
    BracketShape(s, q, e);
  }

  /** The image or link that starts the text, with its length: an image
      when "![" opens the text, a link when "[" does. What it reads is
      stated by `TokenAtShape`. */
  function TokenAt(s: string): Option<(Segment, nat)> {
    if |s| >= 2 && s[0] == '!' && s[1] == '[' then
      match Bracket(s[1..])
      case Some((alt, url, n)) => Some((Image(alt, url), n + 1))
      case None => None
    else if |s| > 0 && s[0] == '[' then
      match Bracket(s)
      case Some((text, url, n)) => Some((Link(text, url), n))
      case None => None
    else None
  }

  /** A token is a non-empty prefix showing an image or a link that keeps
      to the bracket patterns. */
  lemma TokenAtShape(s: string)
    requires TokenAt(s).Some?
    ensures var (g, n) := TokenAt(s).value;
            && 0 < n <= |s| && s[..n] == Show(g)
            && Delimited(g) && !g.Plain?
  {
    if |s| >= 2 && s[0] == '!' && s[1] == '[' {
      BracketShapeOf(s[1..]);
      var n := Bracket(s[1..]).value.2;
      assert s[..n + 1] == "!" + s[1..][..n];
    } else {
      BracketShapeOf(s);
    }
  }

  /** One more character in front of the segments, joining a plain run. */
  function Cons(c: char, segs: seq<Segment>): (r: seq<Segment>)
    ensures Render(r) == [c] + Render(segs)
  {
    if |segs| > 0 && segs[0].Plain? then
      assert Render(segs) == segs[0].s + Render(segs[1..]);
      [Plain([c] + segs[0].s)] + segs[1..]
    else [Plain([c])] + segs
  }

  /** The text read left to right as plain runs, images and links. */
  function Tokenize(s: string): (r: seq<Segment>)
    decreases |s|
  {
    if |s| == 0 then []
    else if s[0] != '[' && s[0] != '!' then Cons(s[0], Tokenize(s[1..]))
    else match TokenAt(s)
      case Some((g, n)) => TokenAtShape(s); [g] + Tokenize(s[n..])
      case None => Cons(s[0], Tokenize(s[1..]))
  }

  lemma {:induction false} RenderConcat(a: seq<Segment>, b: seq<Segment>)
    ensures Render(a + b) == Render(a) + Render(b)
  {
    if |a| > 0 {
      RenderConcat(a[1..], b);
      HeadTail(a, b);
      Assoc(Show(a[0]), Render(a[1..]), Render(b));
    } else {
      EmptyLeft(a, b);
      EmptyLeft(Render(a), Render(b));
    }
  }

  /** Reading the text as segments loses nothing. */
  lemma {:induction false} TokenizeRenders(s: string)
    ensures Render(Tokenize(s)) == s
    decreases |s|
  {
    if |s| > 0 {
      match TokenAt(s)
      case Some((g, n)) =>
        TokenAtShape(s);
        TokenizeRenders(s[n..]);
        HeadTail([g], Tokenize(s[n..]));
        SplitAt(s, n);
      case None =>
        TokenizeRenders(s[1..]);
        Uncons(s);
    }
  }

  /** Every segment keeps to the bracket patterns. */
  predicate AllDelimited(segs: seq<Segment>) {
    forall i :: 0 <= i < |segs| ==> Delimited(segs[i])
  }

  /** No two plain runs are adjacent. */
  predicate Maximal(segs: seq<Segment>) {
    forall i :: 0 <= i < |segs| - 1 ==> !(segs[i].Plain? && segs[i + 1].Plain?)
  }

  lemma TokenKeepsShape(g: Segment, segs: seq<Segment>)
    requires Delimited(g) && !g.Plain? && AllDelimited(segs) && Maximal(segs)
    ensures AllDelimited([g] + segs) && Maximal([g] + segs)
  {
    var r := [g] + segs;
    assert forall i :: 1 <= i < |r| ==> r[i] == segs[i - 1];
  }

  lemma ConsKeepsShape(c: char, segs: seq<Segment>)
    requires AllDelimited(segs) && Maximal(segs)
    ensures AllDelimited(Cons(c, segs)) && Maximal(Cons(c, segs))
  {
    var r := Cons(c, segs);
    if |segs| > 0 && segs[0].Plain? {
      assert forall i :: 1 <= i < |r| ==> r[i] == segs[i];
    } else {
      assert forall i :: 1 <= i < |r| ==> r[i] == segs[i - 1];
    }
  }

  /** Every segment of a tokenised text keeps to the bracket patterns, and
      no two plain runs are adjacent. */
  lemma {:induction false} TokenizeDelimited(s: string)
    ensures AllDelimited(Tokenize(s)) && Maximal(Tokenize(s))
    decreases |s|
  {
    if |s| > 0 {
      if s[0] != '[' && s[0] != '!' {
        TokenizeDelimited(s[1..]);
        ConsKeepsShape(s[0], Tokenize(s[1..]));
      } else {
        match TokenAt(s)
        case Some((g, n)) =>
          TokenAtShape(s);
          TokenizeDelimited(s[n..]);
          TokenKeepsShape(g, Tokenize(s[n..]));
        case None =>
          TokenizeDelimited(s[1..]);
          ConsKeepsShape(s[0], Tokenize(s[1..]));
      }
    }
  }

  /** The bracket pattern's result once both closing characters are
      found. */
  lemma BracketFound(s: string, q: nat, e: nat)
    requires |s| > 0 && s[0] == '['
    requires IndexOf(s[1..], ']') == Some(q) && q + 2 < |s| && s[q + 2] == '('
    requires IndexOf(s[q + 3..], ')') == Some(e)
    ensures Bracket(s) == Some((s[1..q + 1], s[q + 3..q + 3 + e], q + 4 + e))
  {
  }

  /** A bracketed part followed by more text, grouped to the right. */
  lemma BracketedBefore(lab: string, url: string, rest: string)
    ensures Bracketed(lab, url) + rest == "[" + (lab + ("](" + (url + (")" + rest))))
  {
    Assoc("[" + lab + "](" + url, ")", rest);
    Assoc("[" + lab + "](", url, ")" + rest);
    Assoc("[" + lab, "](", url + (")" + rest));
    Assoc("[", lab, "](" + (url + (")" + rest)));
  }

  /** The bracket pattern reads a bracket text and a URL back, whatever
      follows them. */
  lemma BracketReads(lab: string, url: string, rest: string)
    requires ']' !in lab && ')' !in url
    ensures Bracket(Bracketed(lab, url) + rest) == Some((lab, url, |lab| + |url| + 4))
  {
    var y := url + (")" + rest);
    var x := "](" + y;
    var t := "[" + (lab + x);
    BracketedBefore(lab, url, rest);
    ConsTail('[', lab + x);
    IndexOfAfter(lab, x, ']');
    SliceOf(t, 1, lab, x);
    AfterOf(t, 1, lab, x);
    AfterOf(t, |lab| + 1, "](", y);
    IndexOfAfter(url, ")" + rest, ')');
    SliceOf(t, |lab| + 3, url, ")" + rest);
    BracketFound(t, |lab|, |url|);
  }

  /** A "!" before a bracketed link makes it an image. */
  lemma ImageAtBang(t: string)
    requires |t| > 0 && t[0] == '[' && Bracket(t).Some?
    ensures TokenAt("!" + t) == Some((Image(Bracket(t).value.0, Bracket(t).value.1), Bracket(t).value.2 + 1))
  {
    ConsTail('!', t);
  }

  lemma ImageAfterBang(alt: string, url: string, rest: string)
    requires ']' !in alt && ')' !in url
    ensures TokenAt("!" + (Bracketed(alt, url) + rest)) == Some((Image(alt, url), |alt| + |url| + 5))
  {
    BracketReads(alt, url, rest);
    ImageAtBang(Bracketed(alt, url) + rest);
  }

  lemma ImageAtShow(alt: string, url: string, rest: string)
    requires ']' !in alt && ')' !in url
    ensures TokenAt(Show(Image(alt, url)) + rest) == Some((Image(alt, url), |alt| + |url| + 5))
  {
    ImageAfterBang(alt, url, rest);
    Assoc("!", Bracketed(alt, url), rest);
  }

  lemma LinkAtShow(text: string, url: string, rest: string)
    requires ']' !in text && ')' !in url
    ensures TokenAt(Show(Link(text, url)) + rest) == Some((Link(text, url), |text| + |url| + 4))
  {
    BracketReads(text, url, rest);
    BracketedBefore(text, url, rest);
  }

  /** An image or a link that keeps to the bracket patterns is the token
      that starts a text it begins. */
  lemma TokenAtShow(g: Segment, rest: string)
    requires Delimited(g) && !g.Plain?
    ensures TokenAt(Show(g) + rest).Some?
    ensures TokenAt(Show(g) + rest).value.0 == g
    ensures TokenAt(Show(g) + rest).value.1 == |Show(g)|
  {
    if g.Image? {
      assert g == Image(g.alt, g.url);
      ImageAtShow(g.alt, g.url, rest);
    } else {
      assert g == Link(g.text, g.url);
      LinkAtShow(g.text, g.url, rest);
    }
  }

  /** A first character that opens no image or link joins the plain text
      read from the rest. */
  lemma TokenizeStep(p: string, u: string)
    requires |p| > 0 && p[0] != '[' && p[0] != '!'
    ensures Tokenize(p + u) == Cons(p[0], Tokenize(p[1..] + u))
  {
    HeadTail(p, u);
  }

  /** Before an image or a link, a character starts a plain run of its
      own. */
  lemma ConsBeforeMarked(c: char, segs: seq<Segment>)
    requires |segs| > 0 && !segs[0].Plain?
    ensures Cons(c, segs) == [Plain([c])] + segs
  {
  }

  /** Before a plain run, a character joins it. */
  lemma ConsBeforePlain(c: char, s: string, segs: seq<Segment>)
    ensures Cons(c, [Plain(s)] + segs) == [Plain([c] + s)] + segs
  {
    assert ([Plain(s)] + segs)[1..] == segs;
  }

  /** An image or a link that keeps to the bracket patterns reads back as
      itself, and the rest of the text is read on its own. */
  lemma TokenizeShow(g: Segment, rest: string)
    requires Delimited(g) && !g.Plain?
    ensures Tokenize(Show(g) + rest) == [g] + Tokenize(rest)
  {
    TokenAtShow(g, rest);
    DropPrefix(Show(g), rest);
  }
  /** Plain text that opens no image or link, then an image or a link,
      read back as one plain segment and the image or link. */
  lemma {:induction false} TokenizePlainShow(p: string, g: Segment, rest: string)
    requires |p| > 0 && '[' !in p && '!' !in p
    requires Delimited(g) && !g.Plain?
    ensures Tokenize(p + (Show(g) + rest)) == [Plain(p)] + ([g] + Tokenize(rest))
    decreases |p|
  {
    var u := Show(g) + rest;
    TokenizeStep(p, u);
    Uncons(p);
    if |p| == 1 {
      EmptyLeft(p[1..], u);
      EmptyRight([p[0]], p[1..]);
      TokenizeShow(g, rest);
      ConsBeforeMarked(p[0], [g] + Tokenize(rest));
    } else {
      TokenizePlainShow(p[1..], g, rest);
      ConsBeforePlain(p[0], p[1..], [g] + Tokenize(rest));
    }
  }

  // ---------------------------------------------------------------------
  // The attachment URLs of the issue tracker at `domain`.

  predicate IsDigit(c: char) {
    '0' <= c <= '9'
  }

  /** `[0-9]+` matching the whole string. */
  predicate AllDigits(s: string) {
    |s| > 0 && forall i :: 0 <= i < |s| ==> IsDigit(s[i])
  }

  /** The length of the leading run of digits. */
  function DigitRun(s: string): (n: nat)
    ensures n <= |s|
    ensures forall i :: 0 <= i < n ==> IsDigit(s[i])
    ensures n < |s| ==> !IsDigit(s[n])
  {
    if |s| > 0 && IsDigit(s[0]) then 1 + DigitRun(s[1..]) else 0
  }

  /** The path after `https?://<domain>`, when the URL starts that way. */
  function AfterHost(url: string, domain: string): (r: Option<string>)
    ensures r.Some? ==> (url == "http://" + domain + r.value || url == "https://" + domain + r.value)
  {
    var plain := "http://" + domain;
    var secure := "https://" + domain;
    if StartsWith(url, plain) then
      assert url == plain + url[|plain|..];
      Some(url[|plain|..])
    else if StartsWith(url, secure) then
      assert url == secure + url[|secure|..];
      Some(url[|secure|..])
    else None
  }

  /** `<root>/rest/api/[0-9]/attachment/<kind>/[0-9]+`. */
  predicate ApiPath(path: string, root: string, kind: string) {
    var head := root + "/rest/api/";
    var mid := "/attachment/" + kind + "/";
    && |path| > |head| + 1 + |mid|
    && path[..|head|] == head
    && IsDigit(path[|head|])
    && path[|head| + 1..|head| + 1 + |mid|] == mid
    && AllDigits(path[|head| + 1 + |mid|..])
  }

  /** The part after `/secure/attachment/[0-9]+/`. */
  function SecureTail(path: string): (r: Option<string>)
    ensures r.Some? ==> exists d :: AllDigits(d) && path == "/secure/attachment/" + d + "/" + r.value
  {
    var head := "/secure/attachment/";
    if !StartsWith(path, head) then None
    else
      var t := path[|head|..];
      var n := DigitRun(t);
      if 0 < n < |t| && t[n] == '/' then
        assert path == head + t[..n] + "/" + t[n + 1..];
        Some(t[n + 1..])
      else None
  }

  /** The URL shapes the rewriters look for. */
  datatype Pattern =
    | SecureNamed(name: string) // a secure URL ending in exactly this name
    | SecureAny                 // a secure URL ending in anything without ")", "]" or space
    | ContentJira               // /jira/rest/api/N/attachment/content/ID
    | Content                   // /rest/api/N/attachment/content/ID
    | ThumbnailJira             // /jira/rest/api/N/attachment/thumbnail/ID

  predicate Matches(url: string, domain: string, p: Pattern) {
    match AfterHost(url, domain)
    case None => false
    case Some(path) =>
      match p
      case SecureNamed(name) => SecureTail(path) == Some(name)
      case SecureAny =>
        SecureTail(path).Some? &&
        forall i :: 0 <= i < |SecureTail(path).value| ==>
          var c := SecureTail(path).value[i]; c != ')' && c != ']' && !IsSpace(c)
      case ContentJira => ApiPath(path, "/jira", "content")
      case Content => ApiPath(path, "", "content")
      case ThumbnailJira => ApiPath(path, "/jira", "thumbnail")
  }

  /** The ":" after the scheme of a URL on the host. */
  lemma SchemeColon(url: string, domain: string)
    ensures StartsWith(url, "http://" + domain) ==> url[4] == ':'
    ensures StartsWith(url, "https://" + domain) ==> url[5] == ':'
  {
    var plain := "http://" + domain;
    var secure := "https://" + domain;
    if StartsWith(url, plain) {
      assert url[4] == url[..|plain|][4] == plain[4];
    }
    if StartsWith(url, secure) {
      assert url[5] == url[..|secure|][5] == secure[5];
    }
  }

  /** A URL without ":" has no scheme, so it has no path on the host. */
  lemma NoColonNoHost(url: string, domain: string)
    requires forall i :: 0 <= i < |url| ==> url[i] != ':'
    ensures AfterHost(url, domain).None?
  {
    SchemeColon(url, domain);
  }

  /** A quoted name is never an attachment URL: it has no ":". */
  lemma QuotedMatchesNothing(x: string, domain: string, p: Pattern)
    ensures !Matches(Quote(x), domain, p)
  {
    QuoteHasNoMarkup(x);
    NoColonNoHost(Quote(x), domain);
  }

  // ---------------------------------------------------------------------
  // One `re.sub` pass.

  /** Where a pass sends a matching URL: a fixed quoted file name, or the
      quoted label of the segment itself. */
  datatype Target = ToFile(q: string) | FromLabel

  /** The bracket text of an image or link. */
  function Label(g: Segment): string
    requires !g.Plain?
  {
    if g.Image? then g.alt else g.text
  }

  function WithUrl(g: Segment, url: string): (r: Segment)
    requires !g.Plain?
    ensures !r.Plain? && Label(r) == Label(g) && r.url == url && r.Image? == g.Image?
  {
    if g.Image? then Image(g.alt, url) else Link(g.text, url)
  }

  /** One segment under the image pattern `(!\[[^\]]*\])\(URL\)` (when
      `images`) or the link pattern `(\[[^\]]+\])\(URL\)`. The link
      pattern needs a non-empty bracket text and also finds the bracket
      part of an image. A label target keeps a segment whose bracket text
      is empty. */
  function SubOne(g: Segment, domain: string, p: Pattern, images: bool, t: Target): Segment {
    if g.Plain? || (g.Link? && images) || (!images && Label(g) == "") then g
    else if !Matches(g.url, domain, p) then g
    else match t
      case ToFile(q) => WithUrl(g, q)
      case FromLabel => if Label(g) == "" then g else WithUrl(g, Quote(Label(g)))
  }

  /** One `re.sub` over the whole text. */
  function Sub(segs: seq<Segment>, domain: string, p: Pattern, images: bool, t: Target): (r: seq<Segment>)
    ensures |r| == |segs|
    ensures forall i :: 0 <= i < |r| ==> r[i] == SubOne(segs[i], domain, p, images, t)
  {
    seq(|segs|, i requires 0 <= i < |segs| => SubOne(segs[i], domain, p, images, t))
  }

  /** The image pass, then the link pass, of one pattern. */
  function Both(segs: seq<Segment>, domain: string, p: Pattern, t: Target): (r: seq<Segment>)
    ensures |r| == |segs|
    ensures forall i :: 0 <= i < |r| ==>
              r[i] == SubOne(SubOne(segs[i], domain, p, true, t), domain, p, false, t)
  {
    Sub(Sub(segs, domain, p, true, t), domain, p, false, t)
  }

  // ---------------------------------------------------------------------
  // The current rewriter.

  /** An image, or a link with a non-empty label: what some pass can
      rewrite. */
  predicate Eligible(g: Segment) {
    g.Image? || (g.Link? && g.text != "")
  }

  /** The secure passes of one attachment: its original name as it is, then
      quoted, both only when the original name is non-empty. */
  function SecurePasses(segs: seq<Segment>, domain: string, atts: seq<Saved>): (r: seq<Segment>)
    ensures |r| == |segs|
    decreases |atts|
  {
    if |atts| == 0 then segs
    else
      var a := atts[0];
      var q := ToFile(Quote(a.filename));
      var next :=
        if a.original == "" then segs
        else Both(Both(segs, domain, SecureNamed(a.original), q), domain, SecureNamed(Quote(a.original)), q);
      SecurePasses(next, domain, atts[1..])
  }

  /** The fallback passes, which name the file after the bracket text. */
  function FallbackPasses(segs: seq<Segment>, domain: string): (r: seq<Segment>)
    ensures |r| == |segs|
  {
    Both(Both(Both(segs, domain, ContentJira, FromLabel), domain, Content, FromLabel), domain, ThumbnailJira, FromLabel)
  }

  /** `replace_attachment_links` of the current converter. */
  function Rewrite(segs: seq<Segment>, domain: string, atts: seq<Saved>): (r: seq<Segment>)
    ensures |r| == |segs|
  {
    if |atts| == 0 then segs else FallbackPasses(SecurePasses(segs, domain, atts), domain)
  }

  /** The same, on text. */
  function RewriteText(text: string, domain: string, atts: seq<Saved>): string {
    Render(Rewrite(Tokenize(text), domain, atts))
  }

  /** The attachment a secure URL names: the first one in the list with a
      non-empty original name that the URL ends in, as it is or quoted. */
  function NamedBy(url: string, domain: string, atts: seq<Saved>): (r: Option<Saved>)
    ensures r.Some? ==> r.value in atts && r.value.original != ""
  {
    if |atts| == 0 then None
    else
      var a := atts[0];
      if a.original != "" &&
         (Matches(url, domain, SecureNamed(a.original)) || Matches(url, domain, SecureNamed(Quote(a.original))))
      then Some(a)
      else NamedBy(url, domain, atts[1..])
  }

  /** A URL the fallback passes look for. */
  predicate FallbackUrl(url: string, domain: string) {
    Matches(url, domain, ContentJira) || Matches(url, domain, Content) || Matches(url, domain, ThumbnailJira)
  }

  /** What the current rewriter does to one segment, stated directly. */
  function Intended(g: Segment, domain: string, atts: seq<Saved>): Segment {
    if |atts| == 0 || !Eligible(g) then g
    else match NamedBy(g.url, domain, atts)
      case Some(a) => WithUrl(g, Quote(a.filename))
      case None =>
        if FallbackUrl(g.url, domain) && Label(g) != "" then WithUrl(g, Quote(Label(g))) else g
  }

  /** The secure passes on one segment. */
  lemma {:induction false} SecurePassesOne(segs: seq<Segment>, domain: string, atts: seq<Saved>, i: nat)
    requires i < |segs|
    decreases |atts|
    ensures SecurePasses(segs, domain, atts)[i] ==
              if !Eligible(segs[i]) then segs[i]
              else match NamedBy(segs[i].url, domain, atts)
                case Some(a) => WithUrl(segs[i], Quote(a.filename))
                case None => segs[i]
  {
    if |atts| > 0 {
      var g := segs[i];
      var a := atts[0];
      var q := ToFile(Quote(a.filename));
      var next :=
        if a.original == "" then segs
        else Both(Both(segs, domain, SecureNamed(a.original), q), domain, SecureNamed(Quote(a.original)), q);
      SecurePassesOne(next, domain, atts[1..], i);
      if a.original != "" && Eligible(g) &&
         (Matches(g.url, domain, SecureNamed(a.original)) || Matches(g.url, domain, SecureNamed(Quote(a.original)))) {
        // Rewritten now; the new URL is quoted and matches no later pass.
        assert next[i] == WithUrl(g, Quote(a.filename)) by {
          QuotedMatchesNothing(a.filename, domain, SecureNamed(a.original));
          QuotedMatchesNothing(a.filename, domain, SecureNamed(Quote(a.original)));
        }
        QuotedMatchesNothing(a.filename, domain, SecureNamed(""));
        QuotedNamesNothing(a.filename, domain, atts[1..]);
      } else {
        assert next[i] == g;
      }
    }
  }

  /** A quoted URL names no attachment. */
  lemma {:induction false} QuotedNamesNothing(x: string, domain: string, atts: seq<Saved>)
    ensures NamedBy(Quote(x), domain, atts) == None
  {
    if |atts| > 0 {
      QuotedMatchesNothing(x, domain, SecureNamed(atts[0].original));
      QuotedMatchesNothing(x, domain, SecureNamed(Quote(atts[0].original)));
      QuotedNamesNothing(x, domain, atts[1..]);
    }
  }

  /** The fallback passes on one segment. */
  lemma FallbackPassesOne(segs: seq<Segment>, domain: string, i: nat)
    requires i < |segs|
    ensures FallbackPasses(segs, domain)[i] ==
              var g := segs[i];
              if Eligible(g) && FallbackUrl(g.url, domain) && Label(g) != "" then WithUrl(g, Quote(Label(g))) else g
  {
    var g := segs[i];
    if !g.Plain? && Label(g) != "" {
      QuotedMatchesNothing(Label(g), domain, ContentJira);
      QuotedMatchesNothing(Label(g), domain, Content);
      QuotedMatchesNothing(Label(g), domain, ThumbnailJira);
    }
  }

  /** The passes of the current rewriter, run one after the other over the
      whole text, do to every segment what `Intended` says. */
  lemma RewriteIsIntended(segs: seq<Segment>, domain: string, atts: seq<Saved>, i: nat)
    requires i < |segs|
    ensures Rewrite(segs, domain, atts)[i] == Intended(segs[i], domain, atts)
  {
    if |atts| > 0 {
      var mid := SecurePasses(segs, domain, atts);
      SecurePassesOne(segs, domain, atts, i);
      FallbackPassesOne(mid, domain, i);
      var g := segs[i];
      if Eligible(g) {
        match NamedBy(g.url, domain, atts)
        case Some(a) =>
          QuotedMatchesNothing(a.filename, domain, ContentJira);
          QuotedMatchesNothing(a.filename, domain, Content);
          QuotedMatchesNothing(a.filename, domain, ThumbnailJira);
        case None =>
      }
    }
  }

  /** With no attachments, the text comes back unchanged. */
  lemma NoAttachmentsNoChange(text: string, domain: string)
    ensures RewriteText(text, domain, []) == text
  {
    TokenizeRenders(text);
  }

  /** Only images and links with an attachment URL change, the bracket part
      is always kept, and a changed URL is a quoted name: the quoted file
      name of the attachment the URL names, or the quoted bracket text. */
  lemma RewriteChangesOnlyAttachmentUrls(segs: seq<Segment>, domain: string, atts: seq<Saved>, i: nat)
    requires i < |segs|
    ensures var g := segs[i];
            var r := Rewrite(segs, domain, atts)[i];
            && (g.Plain? ==> r == g)
            && (!g.Plain? ==> !r.Plain? && r.Image? == g.Image? && Label(r) == Label(g))
            && (r != g ==>
                  && |atts| > 0 && Eligible(g)
                  && (NamedBy(g.url, domain, atts).Some? || FallbackUrl(g.url, domain))
                  && (r.url == Quote(Label(g)) || exists a :: a in atts && r.url == Quote(a.filename)))
  {
    RewriteIsIntended(segs, domain, atts, i);
    var g := segs[i];
    if |atts| > 0 && Eligible(g) {
      match NamedBy(g.url, domain, atts)
      case Some(a) =>
        assert a in atts;
      case None =>
    }
  }

  /** A secure URL naming an attachment's original file, as it is or
      quoted, goes to that attachment's quoted file name; the first such
      attachment in the list wins. */
  lemma SecureUrlGoesToFile(segs: seq<Segment>, domain: string, atts: seq<Saved>, i: nat, k: nat)
    requires i < |segs| && Eligible(segs[i]) && k < |atts|
    requires atts[k].original != ""
    requires Matches(segs[i].url, domain, SecureNamed(atts[k].original))
             || Matches(segs[i].url, domain, SecureNamed(Quote(atts[k].original)))
    requires forall j :: 0 <= j < k ==> NamedBy(segs[i].url, domain, [atts[j]]) == None
    ensures Rewrite(segs, domain, atts)[i] == WithUrl(segs[i], Quote(atts[k].filename))
  {
    RewriteIsIntended(segs, domain, atts, i);
    NamedByFirst(segs[i].url, domain, atts, k);
  }

  lemma {:induction false} NamedByFirst(url: string, domain: string, atts: seq<Saved>, k: nat)
    requires k < |atts| && atts[k].original != ""
    requires Matches(url, domain, SecureNamed(atts[k].original))
             || Matches(url, domain, SecureNamed(Quote(atts[k].original)))
    requires forall j :: 0 <= j < k ==> NamedBy(url, domain, [atts[j]]) == None
    ensures NamedBy(url, domain, atts) == Some(atts[k])
  {
    if k > 0 {
      assert NamedBy(url, domain, [atts[0]]) == None;
      assert forall j :: 0 <= j < k - 1 ==> atts[1..][j] == atts[j + 1];
      NamedByFirst(url, domain, atts[1..], k - 1);
    }
  }

  /** A segment whose URL is a quoted name is left as it is. */
  lemma QuotedIsFixed(g: Segment, x: string, domain: string, atts: seq<Saved>)
    requires !g.Plain? && g.url == Quote(x)
    ensures Intended(g, domain, atts) == g
  {
    QuotedNamesNothing(x, domain, atts);
    QuotedMatchesNothing(x, domain, ContentJira);
    QuotedMatchesNothing(x, domain, Content);
    QuotedMatchesNothing(x, domain, ThumbnailJira);
  }

  /** Rewriting twice is rewriting once: every new URL is a quoted name,
      which no pass looks for. */
  lemma RewriteIdempotent(segs: seq<Segment>, domain: string, atts: seq<Saved>)
    ensures Rewrite(Rewrite(segs, domain, atts), domain, atts) == Rewrite(segs, domain, atts)
  {
    var once := Rewrite(segs, domain, atts);
    forall i | 0 <= i < |segs|
      ensures Rewrite(once, domain, atts)[i] == once[i]
    {
      RewriteIsIntended(once, domain, atts, i);
      RewriteChangesOnlyAttachmentUrls(segs, domain, atts, i);
      if once[i] != segs[i] {
        if once[i].url == Quote(Label(segs[i])) {
          QuotedIsFixed(once[i], Label(segs[i]), domain, atts);
        } else {
          var a :| a in atts && once[i].url == Quote(a.filename);
          QuotedIsFixed(once[i], a.filename, domain, atts);
        }
      } else {
        RewriteIsIntended(segs, domain, atts, i);
      }
    }
  }

  // ---------------------------------------------------------------------
  // The greedy rewriter of the older package and of the script.

  /** The four patterns of the greedy rewriter, in source order. */
  predicate GreedyUrl(url: string, domain: string) {
    || Matches(url, domain, ContentJira) || Matches(url, domain, Content)
    || Matches(url, domain, SecureAny) || Matches(url, domain, ThumbnailJira)
  }

  /** One attachment's URL passes: every pattern sends its URLs to `q`. */
  function GreedyPass(segs: seq<Segment>, domain: string, q: string): (r: seq<Segment>)
    ensures |r| == |segs|
  {
    var t := ToFile(q);
    Both(Both(Both(Both(segs, domain, ContentJira, t), domain, Content, t), domain, SecureAny, t), domain, ThumbnailJira, t)
  }

  /** `str.replace` inside one segment's texts. */
  function RenameIn(g: Segment, pat: string, rep: string): Segment {
    match g
    case Plain(s) => Plain(ReplaceAll(s, pat, rep))
    case Image(alt, url) => Image(ReplaceAll(alt, pat, rep), ReplaceAll(url, pat, rep))
    case Link(text, url) => Link(ReplaceAll(text, pat, rep), ReplaceAll(url, pat, rep))
  }

  /** `str.replace` inside every segment. */
  function Rename(segs: seq<Segment>, pat: string, rep: string): (r: seq<Segment>)
    ensures |r| == |segs|
    ensures forall i :: 0 <= i < |r| ==> r[i] == RenameIn(segs[i], pat, rep)
  {
    seq(|segs|, i requires 0 <= i < |segs| => RenameIn(segs[i], pat, rep))
  }

  /** None of the characters that delimit an image or a link. */
  predicate MarkupFree(pat: string) {
    '!' !in pat && '[' !in pat && ']' !in pat && '(' !in pat && ')' !in pat
  }

  /** A quoted name is markup-free. */
  lemma QuoteIsMarkupFree(x: string)
    ensures MarkupFree(Quote(x))
  {
    QuoteHasNoMarkup(x);
  }

  /** Replacing a markup-free text inside `[text](url)` is replacing it in
      the text and in the URL. */
  lemma BracketedReplace(t: string, u: string, pat: string, rep: string)
    requires pat != [] && MarkupFree(pat)
    ensures ReplaceAll(Bracketed(t, u), pat, rep) == Bracketed(ReplaceAll(t, pat, rep), ReplaceAll(u, pat, rep))
  {
    var t2 := ReplaceAll(t, pat, rep);
    var u2 := ReplaceAll(u, pat, rep);
    var a := u + ")";
    assert ReplaceAll(a, pat, rep) == u2 + ")" by {
      ReplaceSplit(u, ")", pat, rep);
      ReplaceDisjoint(")", pat, rep);
    }
    var b := "](" + a;
    assert ReplaceAll(b, pat, rep) == "](" + (u2 + ")") by {
      ReplaceSplit("](", a, pat, rep);
      ReplaceDisjoint("](", pat, rep);
    }
    var c := t + b;
    assert ReplaceAll(c, pat, rep) == t2 + ("](" + (u2 + ")")) by {
      ReplaceSplit(t, b, pat, rep);
    }
    assert ReplaceAll("[" + c, pat, rep) == "[" + (t2 + ("](" + (u2 + ")"))) by {
      ReplaceSplit("[", c, pat, rep);
      ReplaceDisjoint("[", pat, rep);
    }
    BracketedNested(t, u);
    BracketedNested(t2, u2);
  }

  /** `[text](url)` grouped to the right. */
  lemma BracketedNested(t: string, u: string)
    ensures Bracketed(t, u) == "[" + (t + ("](" + (u + ")")))
  {
    BracketedBefore(t, u, "");
    assert ")" + "" == ")";
    assert Bracketed(t, u) + "" == Bracketed(t, u);
  }

  /** Renaming inside a segment is replacing in the text it shows. */
  lemma ShowRename(g: Segment, pat: string, rep: string)
    requires pat != [] && MarkupFree(pat)
    ensures Show(RenameIn(g, pat, rep)) == ReplaceAll(Show(g), pat, rep)
  {
    match g
    case Plain(_) =>
    case Image(alt, url) =>
      BracketedReplace(alt, url, pat, rep);
      ReplaceSplit("!", Bracketed(alt, url), pat, rep);
      ReplaceDisjoint("!", pat, rep);
    case Link(text, url) =>
      BracketedReplace(text, url, pat, rep);
  }

  /** An image or link opens with "!" or "[" and closes with ")". */
  lemma ShowEdges(g: Segment)
    requires !g.Plain?
    ensures |Show(g)| > 0 && Show(g)[0] in "![" && Show(g)[|Show(g)| - 1] == ')'
  {
  }

  /** The text of a segment list opens with the text of its first
      segment. */
  lemma RenderHead(segs: seq<Segment>)
    requires |segs| > 0 && |Show(segs[0])| > 0
    ensures |Render(segs)| > 0 && Render(segs)[0] == Show(segs[0])[0]
  {
  }

  /** Renaming a markup-free text inside the segments of a text whose plain
      runs are never adjacent is Python's `str.replace` on the whole text:
      no occurrence can straddle two segments. */
  lemma {:induction false} RenameIsReplace(segs: seq<Segment>, pat: string, rep: string)
    requires pat != [] && MarkupFree(pat) && Maximal(segs)
    ensures Render(Rename(segs, pat, rep)) == ReplaceAll(Render(segs), pat, rep)
    decreases |segs|
  {
    if |segs| > 0 {
      var rest := segs[1..];
      assert Maximal(rest) by {
        forall i | 0 <= i < |rest| - 1
          ensures !(rest[i].Plain? && rest[i + 1].Plain?)
        {
          assert rest[i] == segs[i + 1] && rest[i + 1] == segs[i + 2];
        }
      }
      RenameIsReplace(rest, pat, rep);
      assert Rename(segs, pat, rep)[1..] == Rename(rest, pat, rep);
      ShowRename(segs[0], pat, rep);
      if !segs[0].Plain? {
        ShowEdges(segs[0]);
      } else if |rest| > 0 {
        assert !rest[0].Plain?;
        ShowEdges(rest[0]);
        RenderHead(rest);
      }
      ReplaceSplit(Show(segs[0]), Render(rest), pat, rep);
    }
  }

  /** A pass never turns a plain run into an image or link, or back. */
  lemma GreedyPassKinds(segs: seq<Segment>, domain: string, q: string)
    ensures forall i :: 0 <= i < |segs| ==> GreedyPass(segs, domain, q)[i].Plain? == segs[i].Plain?
  {
  }

  /** One attachment through the greedy rewriter: its URL passes, then,
      when it was renamed on download and its original name is not empty,
      Python's `str.replace` of the quoted original name by the quoted file
      name over the whole text. */
  lemma GreedyRenameStep(text: string, domain: string, a: Saved)
    ensures var q := Quote(a.filename);
            var passed := Render(GreedyPass(Tokenize(text), domain, q));
            && (a.original == a.filename ==> GreedyRewriteText(text, domain, [a]) == passed)
            && (a.original != a.filename && a.original != "" ==>
                  GreedyRewriteText(text, domain, [a]) == ReplaceAll(passed, Quote(a.original), q))
  {
    var q := Quote(a.filename);
    var segs := Tokenize(text);
    var passed := GreedyPass(segs, domain, q);
    assert [a][1..] == [];
    var renamed := if a.original != a.filename then Rename(passed, Quote(a.original), q) else passed;
    assert GreedyRewrite(segs, domain, [a]) == GreedyRewrite(renamed, domain, []);
    if a.original != a.filename && a.original != "" {
      TokenizeDelimited(text);
      GreedyPassKinds(segs, domain, q);
      assert Maximal(passed) by {
        forall i | 0 <= i < |passed| - 1
          ensures !(passed[i].Plain? && passed[i + 1].Plain?)
        {
        }
      }
      QuoteIsMarkupFree(a.original);
      RenameIsReplace(passed, Quote(a.original), q);
    }
  }

  /** The greedy `replace_attachment_links`: per attachment in order, the
      URL passes towards its quoted file name, then, when the file was
      renamed on download, the quoted original name replaced by the quoted
      file name everywhere. */
  function GreedyRewrite(segs: seq<Segment>, domain: string, atts: seq<Saved>): (r: seq<Segment>)
    ensures |r| == |segs|
    decreases |atts|
  {
    if |atts| == 0 then segs
    else
      var a := atts[0];
      var q := Quote(a.filename);
      var passed := GreedyPass(segs, domain, q);
      var renamed := if a.original != a.filename then Rename(passed, Quote(a.original), q) else passed;
      GreedyRewrite(renamed, domain, atts[1..])
  }

  function GreedyRewriteText(text: string, domain: string, atts: seq<Saved>): string {
    Render(GreedyRewrite(Tokenize(text), domain, atts))
  }

  /** With no attachments, the greedy rewriter leaves the text unchanged. */
  lemma GreedyNoAttachmentsNoChange(text: string, domain: string)
    ensures GreedyRewriteText(text, domain, []) == text
  {
    TokenizeRenders(text);
  }

  /** One greedy pass on one segment: an eligible segment with any
      attachment URL gets the file, everything else stays. */
  lemma GreedyPassOne(segs: seq<Segment>, domain: string, x: string, i: nat)
    requires i < |segs|
    ensures GreedyPass(segs, domain, Quote(x))[i] ==
              if Eligible(segs[i]) && GreedyUrl(segs[i].url, domain) then WithUrl(segs[i], Quote(x)) else segs[i]
  {
    QuotedMatchesNothing(x, domain, ContentJira);
    QuotedMatchesNothing(x, domain, Content);
    QuotedMatchesNothing(x, domain, SecureAny);
    QuotedMatchesNothing(x, domain, ThumbnailJira);
  }

  /** After one greedy pass no attachment URL is left, so a later pass,
      whatever its file, changes nothing. */
  lemma GreedyPassAbsorbs(segs: seq<Segment>, domain: string, x: string, y: string)
    ensures GreedyPass(GreedyPass(segs, domain, Quote(x)), domain, Quote(y)) == GreedyPass(segs, domain, Quote(x))
  {
    var once := GreedyPass(segs, domain, Quote(x));
    forall i | 0 <= i < |segs|
      ensures GreedyPass(once, domain, Quote(y))[i] == once[i]
    {
      GreedyPassOne(segs, domain, x, i);
      GreedyPassOne(once, domain, y, i);
      QuotedMatchesNothing(x, domain, ContentJira);
      QuotedMatchesNothing(x, domain, Content);
      QuotedMatchesNothing(x, domain, SecureAny);
      QuotedMatchesNothing(x, domain, ThumbnailJira);
    }
  }

  /** With no file renamed on download, every attachment URL of an image
      or non-empty link gets the first attachment's file, whatever the
      later attachments are. */
  lemma {:induction false} FirstAttachmentWins(segs: seq<Segment>, domain: string, atts: seq<Saved>)
    requires |atts| > 0
    requires forall j :: 0 <= j < |atts| ==> atts[j].original == atts[j].filename
    ensures GreedyRewrite(segs, domain, atts) == GreedyPass(segs, domain, Quote(atts[0].filename))
    decreases |atts|
  {
    var first := GreedyPass(segs, domain, Quote(atts[0].filename));
    if |atts| > 1 {
      FirstAttachmentWins(first, domain, atts[1..]);
      GreedyPassAbsorbs(segs, domain, atts[0].filename, atts[1].filename);
    }
  }
}
