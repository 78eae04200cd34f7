/** The post-processing of `convert_html_to_markdown`, common to all four
    converters: the HTML is handed to a Markdown converter this model does
    not see (a parameter), and its output then has every leftover tag
    `<[^>]+>` removed, every run of three or more newlines shortened to two,
    and surrounding white space stripped.
 */
module Html {
  import opened Wrappers
  import opened Text
  import opened Json

  /** The length of the tag `<[^>]+>` at the start of `s`: "<", at least
      one character other than ">", and the first ">" after them. */
  function TagAt(s: string): (r: Option<nat>)
    ensures r.Some? ==> 3 <= r.value <= |s| && s[0] == '<' && s[r.value - 1] == '>'
  {
    if |s| > 0 && s[0] == '<' then
      match IndexOf(s[1..], '>')
      case Some(j) => if j > 0 then Some(j + 2) else None
      case None => None
    else None
  }

  /** No tag starts anywhere: the pattern finds nothing to remove. */
  predicate TagFree(s: string) {
    forall i :: 0 <= i < |s| ==> TagAt(s[i..]).None?
  }

  /** `re.sub(r"<[^>]+>", "", s)`: the leftmost tag goes, and the scan goes
      on after it. */
  function StripTags(s: string): (r: string)
    ensures |r| <= |s|
    ensures forall c :: c in r ==> c in s
    ensures |s| > 0 && s[0] != '<' ==> |r| > 0 && r[0] == s[0]
    decreases |s|
  {
    if |s| == 0 then ""
    else match TagAt(s)
      case Some(n) => StripTags(s[n..])
      case None => [s[0]] + StripTags(s[1..])
  }

  lemma TagFreeTail(s: string)
    requires |s| > 0 && TagFree(s)
    ensures TagAt(s).None? && TagFree(s[1..])
  {
    assert s[0..] == s;
    forall i | 0 <= i < |s| - 1
      ensures TagAt(s[1..][i..]).None?
    {
      assert s[1..][i..] == s[i + 1..];
    }
  }

  /** After the substitution no tag is left. */
  lemma {:induction false} StripTagsTagFree(s: string)
    ensures TagFree(StripTags(s))
    decreases |s|
  {
    if |s| > 0 {
      match TagAt(s)
      case Some(n) =>
        StripTagsTagFree(s[n..]);
      case None =>
        var rest := StripTags(s[1..]);
        StripTagsTagFree(s[1..]);
        var r := [s[0]] + rest;
        assert r[1..] == rest;
        if s[0] == '<' {
          match IndexOf(s[1..], '>')
          case None =>
            IndexOfFirst(s[1..], '>');
            IndexOfFirst(rest, '>');
          case Some(j) =>
            assert j == 0;
            assert rest[0] == '>';
            assert IndexOf(r[1..], '>') == Some(0);
        }
        assert r[0..] == r;
        forall i | 1 <= i < |r|
          ensures TagAt(r[i..]).None?
        {
          assert r[i..] == rest[i - 1..];
        }
    }
  }

  /** The substitution changes the text exactly when it holds a tag. */
  lemma {:induction false} StripTagsIdentity(s: string)
    ensures StripTags(s) == s <==> TagFree(s)
    decreases |s|
  {
    StripTagsTagFree(s);
    if |s| > 0 && TagFree(s) {
      TagFreeTail(s);
      StripTagsIdentity(s[1..]);
    }
  }

  /** The length of the leading run of `c`. */
  function RunOf(s: string, c: char): (n: nat)
    ensures 0 < |s| && s[0] == c ==> n > 0
    ensures n <= |s|
    ensures forall i :: 0 <= i < n ==> s[i] == c
    ensures n < |s| ==> s[n] != c
  {
    if |s| > 0 && s[0] == c then 1 + RunOf(s[1..], c) else 0
  }

  /** No three newlines in a row. */
  predicate NoBlankRun(s: string) {
    forall i :: 0 <= i < |s| - 2 ==> !(s[i] == '\n' && s[i + 1] == '\n' && s[i + 2] == '\n')
  }

  /** `re.sub(r"\n{3,}", "\n\n", s)`. */
  function Collapse(s: string): (r: string)
    ensures |r| == 0 <==> |s| == 0
    ensures |s| > 0 ==> r[0] == s[0]
    decreases |s|
  {
    if |s| == 0 then ""
    else if s[0] == '\n' then
      var n := RunOf(s, '\n');
      (if n >= 3 then "\n\n" else s[..n]) + Collapse(s[n..])
    else [s[0]] + Collapse(s[1..])
  }

  /** The collapsed text never holds three newlines in a row. */
  lemma {:induction false} CollapseNoBlankRun(s: string)
    ensures NoBlankRun(Collapse(s))
    decreases |s|
  {
    if |s| > 0 {
      var r := Collapse(s);
      if s[0] == '\n' {
        var n := RunOf(s, '\n');
        var head := if n >= 3 then "\n\n" else s[..n];
        var rest := Collapse(s[n..]);
        CollapseNoBlankRun(s[n..]);
        assert r == head + rest;
        assert 1 <= |head| <= 2;
        assert |rest| > 0 ==> rest[0] != '\n';
        forall i | 0 <= i < |r| - 2
          ensures !(r[i] == '\n' && r[i + 1] == '\n' && r[i + 2] == '\n')
        {
          if i >= |head| {
            assert r[i..i + 3] == rest[i - |head|..i - |head| + 3];
          } else if i + 1 == |head| {
            assert r[i + 1] == rest[0];
          } else {
            assert r[i + 2] == rest[0];
          }
        }
      } else {
        var rest := Collapse(s[1..]);
        CollapseNoBlankRun(s[1..]);
        assert r == [s[0]] + rest;
        forall i | 1 <= i < |r| - 2
          ensures !(r[i] == '\n' && r[i + 1] == '\n' && r[i + 2] == '\n')
        {
          assert r[i] == rest[i - 1] && r[i + 1] == rest[i] && r[i + 2] == rest[i + 1];
        }
      }
    }
  }

  lemma LongRunIsBlank(s: string)
    ensures RunOf(s, '\n') >= 3 ==> !NoBlankRun(s)
  {
    if RunOf(s, '\n') >= 3 {
      assert s[0] == '\n' && s[1] == '\n' && s[2] == '\n';
    }
  }

  /** The substitution changes the text exactly when it holds three
      newlines in a row. */
  lemma {:induction false} CollapseIdentity(s: string)
    ensures Collapse(s) == s <==> NoBlankRun(s)
    decreases |s|
  {
    CollapseNoBlankRun(s);
    if |s| > 0 && NoBlankRun(s) {
      if s[0] == '\n' {
        var n := RunOf(s, '\n');
        LongRunIsBlank(s);
        CollapseIdentity(s[n..]);
        assert s == s[..n] + s[n..];
      } else {
        CollapseIdentity(s[1..]);
        assert s == [s[0]] + s[1..];
      }
    }
  }

  /** A slice of a text without three newlines in a row has none either. */
  lemma NoBlankRunSlice(s: string, a: nat, b: nat)
    requires a <= b <= |s| && NoBlankRun(s)
    ensures NoBlankRun(s[a..b])
  {
    var t := s[a..b];
    forall i | 0 <= i < |t| - 2
      ensures !(t[i] == '\n' && t[i + 1] == '\n' && t[i + 2] == '\n')
    {
      assert t[i] == s[a + i] && t[i + 1] == s[a + i + 1] && t[i + 2] == s[a + i + 2];
    }
  }

  /** Stripping keeps a slice of the text, with no space at either end. */
  lemma StripSlice(s: string)
    ensures exists a: nat, b: nat :: a <= b <= |s| && Strip(s) == s[a..b]
    ensures Strip(s) == [] || (!IsSpace(Strip(s)[0]) && !IsSpace(Strip(s)[|Strip(s)| - 1]))
  {
    var m := RStrip(s);
    var r := LStrip(m);
    assert r == s[|m| - |r|..|m|];
  }

  /** `convert_html_to_markdown`: "" for a falsy input, else the cleaned
      output of the converter `md`. */
  function Convert(html: JValue, md: JValue -> string): (r: string)
    ensures !Truthy(html) ==> r == ""
    ensures r == [] || (!IsSpace(r[0]) && !IsSpace(r[|r| - 1]))
    ensures NoBlankRun(r)
  {
    if !Truthy(html) then ""
    else
      var c := Collapse(StripTags(md(html)));
      CollapseNoBlankRun(StripTags(md(html)));
      StripSlice(c);
      var a: nat, b: nat :| a <= b <= |c| && Strip(c) == c[a..b];
      NoBlankRunSlice(c, a, b);
      Strip(c)
  }
}
