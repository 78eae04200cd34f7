/** String operations of Python's `str` that the converters rely on,
    written out so that their behaviour at the edges (empty input, empty
    separator, separator at either end) is the one Python has.
 */
module Text {
  import opened Wrappers
  import opened Seqs

  /** `sep.join(parts)`. */
  function Join(parts: seq<string>, sep: string): string
  {
    if |parts| == 0 then ""
    else if |parts| == 1 then parts[0]
    else parts[0] + sep + Join(parts[1..], sep)
  }

  /** Joining two non-empty lists of parts is joining each and putting the
      separator between. */
  lemma {:induction false} JoinAppend(a: seq<string>, b: seq<string>, sep: string)
    requires |a| >= 1 && |b| >= 1
    ensures Join(a + b, sep) == Join(a, sep) + sep + Join(b, sep)
    decreases |a|
  {
    if |a| == 1 {
      assert (a + b)[1..] == b;
    } else {
      JoinAppend(a[1..], b, sep);
      assert (a + b)[1..] == a[1..] + b;
    }
  }

  /** `s.split(c)` for a one-character separator: there is always at least
      one part, and no part contains the separator. */
  function Split(s: string, c: char): (parts: seq<string>)
    ensures |parts| >= 1
    ensures forall i :: 0 <= i < |parts| ==> c !in parts[i]
  {
    if |s| == 0 then [""]
    else
      var rest := Split(s[1..], c);
      if s[0] == c then [""] + rest
      else [[s[0]] + rest[0]] + rest[1..]
  }

  /** Joining the parts of a split with the separator gives the string back. */
  lemma {:induction false} JoinSplit(s: string, c: char)
    ensures Join(Split(s, c), [c]) == s
  {
    if s != [] {
      JoinSplit(s[1..], c);
      var rest := Split(s[1..], c);
      if s[0] == c {
        assert Join([""] + rest, [c]) == "" + [c] + Join(rest, [c]);
      } else if |rest| == 1 {
        assert Join(rest, [c]) == rest[0];
      } else {
        assert ([[s[0]] + rest[0]] + rest[1..])[1..] == rest[1..];
      }
    }
  }

  /** A separator-free prefix is glued to the first part of the rest. */
  lemma {:induction false} SplitPrefix(a: string, t: string, c: char)
    requires c !in a
    ensures Split(a + t, c) == [a + Split(t, c)[0]] + Split(t, c)[1..]
  {
    var st := Split(t, c);
    if |a| > 0 {
      SplitPrefix(a[1..], t, c);
      var r := Split(a[1..] + t, c);
      HeadTail(a, t);
      ConsTail(a[1..] + st[0], st[1..]);
      Assoc([a[0]], a[1..], st[0]);
      Uncons(a);
    } else {
      EmptyLeft(a, t);
      EmptyLeft(a, st[0]);
      Uncons(st);
    }
  }

  /** Splitting a join of separator-free parts gives the parts back. */
  lemma {:induction false} SplitJoin(parts: seq<string>, c: char)
    requires |parts| >= 1
    requires forall i :: 0 <= i < |parts| ==> c !in parts[i]
    ensures Split(Join(parts, [c]), c) == parts
  {
    if |parts| == 1 {
      SplitPrefix(parts[0], "", c);
      assert parts[0] + "" == parts[0];
    } else {
      var rest := parts[1..];
      SplitJoin(rest, c);
      assert Join(parts, [c]) == parts[0] + ([c] + Join(rest, [c]));
      SplitPrefix(parts[0], [c] + Join(rest, [c]), c);
      assert ([c] + Join(rest, [c]))[1..] == Join(rest, [c]);
      var tail := [c] + Join(rest, [c]);
      assert tail[0] == c && tail[1..] == Join(rest, [c]);
      assert Split(tail, c) == [""] + rest;
      assert Split(tail, c)[0] == "" && Split(tail, c)[1..] == rest;
      assert parts[0] + "" == parts[0];
      assert [parts[0]] + rest == parts;
    }
  }

  /** The parts of every string in turn, one list after another. */
  function SplitEach(parts: seq<string>, c: char): (r: seq<string>)
    ensures |r| >= |parts|
  {
    if |parts| == 0 then [] else Split(parts[0], c) + SplitEach(parts[1..], c)
  }

  /** A separator-free string is its own only part. */
  lemma SplitPlain(s: string, c: char)
    requires c !in s
    ensures Split(s, c) == [s]
  {
    SplitPrefix(s, "", c);
    assert s + "" == s;
  }

  /** Strings that hold no separator are split into themselves. */
  lemma {:induction false} SplitEachPlain(parts: seq<string>, c: char)
    requires forall i :: 0 <= i < |parts| ==> c !in parts[i]
    ensures SplitEach(parts, c) == parts
  {
    if |parts| > 0 {
      SplitPlain(parts[0], c);
      SplitEachPlain(parts[1..], c);
      Uncons(parts);
    }
  }

  /** One step of the split: a leading separator opens an empty part,
      any other character joins the first part. */
  lemma SplitCons(x: char, s: string, c: char)
    ensures Split([x] + s, c) ==
              if x == c then [""] + Split(s, c) else [[x] + Split(s, c)[0]] + Split(s, c)[1..]
  {
    assert ([x] + s)[0] == x && ([x] + s)[1..] == s;
  }

  /** A separator between two strings is a cut between their parts. */
  lemma {:induction false} SplitAround(a: string, t: string, c: char)
    ensures Split(a + [c] + t, c) == Split(a, c) + Split(t, c)
    decreases |a|
  {
    if a == [] {
      assert a + [c] + t == [c] + t;
      SplitCons(c, t, c);
    } else {
      var x, b := a[0], a[1..];
      SplitAround(b, t, c);
      assert a == [x] + b;
      assert a + [c] + t == [x] + (b + [c] + t);
      SplitCons(x, b + [c] + t, c);
      SplitCons(x, b, c);
      var sb := Split(b, c);
      var st := Split(t, c);
      var w := Split(a + [c] + t, c);
      assert w == Split([x] + (b + [c] + t), c);
      if x == c {
        assert w == [""] + (sb + st);
        assert Split(a, c) == [""] + sb;
        Assoc([""], sb, st);
      } else {
        assert (sb + st)[0] == sb[0];
        assert (sb + st)[1..] == sb[1..] + st;
        assert w == [[x] + sb[0]] + (sb[1..] + st);
        assert Split(a, c) == [[x] + sb[0]] + sb[1..];
        Assoc([[x] + sb[0]], sb[1..], st);
      }
    }
  }

  /** Splitting a join splits every part in place, whatever the parts
      hold: a part with separators in it becomes several parts. */
  lemma {:induction false} SplitJoinEach(parts: seq<string>, c: char)
    requires |parts| >= 1
    ensures Split(Join(parts, [c]), c) == SplitEach(parts, c)
  {
    if |parts| == 1 {
      assert parts[1..] == [];
      assert Split(parts[0], c) + [] == Split(parts[0], c);
    } else {
      SplitJoinEach(parts[1..], c);
      SplitAround(parts[0], Join(parts[1..], [c]), c);
    }
  }

  /** The first `k` parts, joined and followed by the separator, open the
      join of all of them. */
  lemma JoinOpens(parts: seq<string>, k: nat, sep: string)
    requires 0 < k < |parts|
    ensures StartsWith(Join(parts, sep), Join(parts[..k], sep) + sep)
  {
    JoinAppend(parts[..k], parts[k..], sep);
    assert parts[..k] + parts[k..] == parts;
    var h := Join(parts[..k], sep) + sep;
    assert Join(parts, sep)[..|h|] == h;
  }

  /** `s * n`: `n` copies of `s`, and the empty string when `n <= 0`. */
  function Repeat(s: string, n: int): (r: string)
    ensures n <= 0 ==> r == ""
    ensures n > 0 ==> |r| == n * |s|
    decreases n
  {
    if n <= 0 then "" else s + Repeat(s, n - 1)
  }

  predicate StartsWith(s: string, prefix: string) {
    |prefix| <= |s| && s[..|prefix|] == prefix
  }

  predicate EndsWith(s: string, suffix: string) {
    |suffix| <= |s| && s[|s| - |suffix|..] == suffix
  }

  /** `sub in s`. */
  predicate Contains(s: string, sub: string)
    decreases |s|
  {
    StartsWith(s, sub) || (s != [] && Contains(s[1..], sub))
  }

  /** The characters for which Python's `str.isspace()` holds. */
  predicate IsSpace(c: char) {
    || c == ' ' || ('\t' <= c <= '\r')
    || ('\U{1C}' <= c <= '\U{1F}')
    || c == '\U{85}' || c == '\U{A0}' || c == '\U{1680}'
    || ('\U{2000}' <= c <= '\U{200A}')
    || c == '\U{2028}' || c == '\U{2029}' || c == '\U{202F}' || c == '\U{205F}'
    || c == '\U{3000}'
  }

  /** `s.lstrip()`. */
  function LStrip(s: string): (r: string)
    ensures |r| <= |s| && r == s[|s| - |r|..]
    ensures r == [] || !IsSpace(r[0])
    ensures forall i :: 0 <= i < |s| - |r| ==> IsSpace(s[i])
  {
    if |s| > 0 && IsSpace(s[0]) then
      var r := LStrip(s[1..]);
      DropDrop(s, 1, |s| - 1 - |r|);
      r
    else s
  }

  /** `s.rstrip()`. */
  function RStrip(s: string): (r: string)
    ensures |r| <= |s| && r == s[..|r|]
    ensures r == [] || !IsSpace(r[|r| - 1])
    ensures forall i :: |r| <= i < |s| ==> IsSpace(s[i])
  {
    if |s| > 0 && IsSpace(s[|s| - 1]) then
      var r := RStrip(s[..|s| - 1]);
      TakeTake(s, |s| - 1, |r|);
      r
    else s
  }

  /** `s.strip()`. */
  function Strip(s: string): string {
    LStrip(RStrip(s))
  }

  /** Index of the first occurrence of `c`. */
  function IndexOf(s: string, c: char): (r: Option<nat>)
    ensures r.Some? ==> r.value < |s| && s[r.value] == c
  {
    if |s| == 0 then None
    else if s[0] == c then Some(0)
    else match IndexOf(s[1..], c)
      case None => None
      case Some(i) => Some(i + 1)
  }

  /** The index found is the first occurrence, and nothing is found
      exactly when the character does not occur. */
  lemma {:induction false} IndexOfFirst(s: string, c: char)
    ensures IndexOf(s, c).Some? ==> c !in s[..IndexOf(s, c).value]
    ensures IndexOf(s, c).None? <==> c !in s
  {
    if |s| > 0 && s[0] != c {
      IndexOfFirst(s[1..], c);
      Uncons(s);
      match IndexOf(s[1..], c)
      case None =>
      case Some(i) =>
        assert s[..i + 1] == [s[0]] + s[1..][..i];
    }
  }

  /** The first `c` of `a + b` is the head of `b` when `a` holds none. */
  lemma {:induction false} IndexOfAfter(a: string, b: string, c: char)
    requires c !in a && |b| > 0 && b[0] == c
    ensures IndexOf(a + b, c) == Some(|a|)
  {
    if |a| > 0 {
      IndexOfAfter(a[1..], b, c);
      assert (a + b)[1..] == a[1..] + b;
    }
  }

  /** `s.replace(pat, rep)`: every non-overlapping occurrence of `pat`,
      scanned left to right, becomes `rep`; with an empty `pat` Python puts
      `rep` before every character and at the end. */
  function ReplaceAll(s: string, pat: string, rep: string): string
    decreases |s|
  {
    if pat == [] then
      if s == [] then rep else rep + [s[0]] + ReplaceAll(s[1..], pat, rep)
    else if StartsWith(s, pat) then rep + ReplaceAll(s[|pat|..], pat, rep)
    else if s == [] then []
    else [s[0]] + ReplaceAll(s[1..], pat, rep)
  }

  /** A non-empty `pat` that does not occur leaves the text unchanged. */
  lemma {:induction false} ReplaceAbsent(s: string, pat: string, rep: string)
    requires pat != [] && !Contains(s, pat)
    ensures ReplaceAll(s, pat, rep) == s
    decreases |s|
  {
    if s != [] {
      ReplaceAbsent(s[1..], pat, rep);
    }
  }

  /** A prefix free of the first character of `pat` passes through
      unchanged. */
  lemma {:induction false} ReplaceSkip(p: string, t: string, pat: string, rep: string)
    requires pat != [] && pat[0] !in p
    ensures ReplaceAll(p + t, pat, rep) == p + ReplaceAll(t, pat, rep)
    decreases |p|
  {
    if p != [] {
      var s := p + t;
      assert s[0] == p[0] && s[1..] == p[1..] + t;
      assert !StartsWith(s, pat) by {
        assert s[0] != pat[0];
      }
      assert ReplaceAll(s, pat, rep) == [s[0]] + ReplaceAll(s[1..], pat, rep);
      assert pat[0] !in p[1..] by {
        assert forall i | 0 <= i < |p[1..]| :: p[1..][i] == p[i + 1];
      }
      ReplaceSkip(p[1..], t, pat, rep);
      assert ReplaceAll(s[1..], pat, rep) == p[1..] + ReplaceAll(t, pat, rep);
      Assoc([p[0]], p[1..], ReplaceAll(t, pat, rep));
      assert [p[0]] + p[1..] == p;
      assert ReplaceAll(s, pat, rep) == p + ReplaceAll(t, pat, rep);
    } else {
      assert p + t == t;
      assert p + ReplaceAll(t, pat, rep) == ReplaceAll(t, pat, rep);
    }
  }

  /** No character of `s` occurs in `pat`. */
  predicate Disjoint(s: string, pat: string) {
    forall i :: 0 <= i < |s| ==> s[i] !in pat
  }

  /** No occurrence of `pat` in `a + b` can straddle the cut: a side is
      empty, or a character at the cut is foreign to `pat`. */
  predicate CutFree(a: string, b: string, pat: string) {
    |a| == 0 || |b| == 0 || a[|a| - 1] !in pat || b[0] !in pat
  }

  /** A text of characters foreign to a non-empty `pat` is left alone. */
  lemma {:induction false} ReplaceDisjoint(s: string, pat: string, rep: string)
    requires pat != [] && Disjoint(s, pat)
    ensures ReplaceAll(s, pat, rep) == s
    decreases |s|
  {
    if s != [] {
      assert pat[0] in pat;
      assert !StartsWith(s, pat);
      ReplaceDisjoint(s[1..], pat, rep);
      Uncons(s);
    }
  }

  /** An occurrence at the start of `a + b` lies inside `a` when it cannot
      straddle the cut. */
  lemma MatchInside(a: string, b: string, pat: string)
    requires |a| > 0 && CutFree(a, b, pat) && StartsWith(a + b, pat)
    ensures |pat| <= |a| && StartsWith(a, pat)
  {
    Straddle(a, b, pat);
    assert (a + b)[..|pat|] == a[..|pat|];
  }

  /** An occurrence at the start of `a + b` that runs past `a` holds the
      characters on both sides of the cut. */
  lemma Straddle(a: string, b: string, pat: string)
    requires |a| > 0 && StartsWith(a + b, pat)
    ensures |pat| > |a| ==> a[|a| - 1] in pat && b[0] in pat
  {
    if |pat| > |a| {
      assert pat[|a| - 1] == a[|a| - 1];
      assert pat[|a|] == b[0];
    }
  }

  /** A text that starts with `pat` still does once more is appended. */
  lemma StartsWithExtend(a: string, b: string, pat: string)
    ensures StartsWith(a, pat) ==> StartsWith(a + b, pat)
  {
    if StartsWith(a, pat) {
      assert (a + b)[..|pat|] == a[..|pat|];
    }
  }

  /** Replacing in a text cut where no occurrence can straddle is replacing
      in each side. */
  lemma {:induction false} ReplaceSplit(a: string, b: string, pat: string, rep: string)
    requires pat != [] && CutFree(a, b, pat)
    ensures ReplaceAll(a + b, pat, rep) == ReplaceAll(a, pat, rep) + ReplaceAll(b, pat, rep)
    decreases |a|
  {
    if |a| == 0 {
      EmptyLeft(a, b);
      EmptyLeft(ReplaceAll(a, pat, rep), ReplaceAll(b, pat, rep));
    } else if StartsWith(a + b, pat) {
      MatchInside(a, b, pat);
      var t := a[|pat|..];
      assert (a + b)[|pat|..] == t + b;
      ReplaceSplit(t, b, pat, rep);
      Assoc(rep, ReplaceAll(t, pat, rep), ReplaceAll(b, pat, rep));
    } else {
      StartsWithExtend(a, b, pat);
      HeadTail(a, b);
      ReplaceSplit(a[1..], b, pat, rep);
      Assoc([a[0]], ReplaceAll(a[1..], pat, rep), ReplaceAll(b, pat, rep));
    }
  }

  function DigitChar(d: nat): char
    requires d < 10
  {
    ['0', '1', '2', '3', '4', '5', '6', '7', '8', '9'][d]
  }

  /** `str(n)` for a natural number. */
  function NatDigits(n: nat): (r: string)
    ensures |r| >= 1
    ensures n < 10 <==> |r| == 1
    decreases n
  {
    if n < 10 then [DigitChar(n)] else NatDigits(n / 10) + [DigitChar(n % 10)]
  }

  /** `str(n)` for an integer. */
  function Decimal(n: int): string {
    if n < 0 then "-" + NatDigits(-n) else NatDigits(n)
  }

  /** Different numbers print differently. */
  lemma {:induction false} NatDigitsInjective(a: nat, b: nat)
    requires NatDigits(a) == NatDigits(b)
    ensures a == b
    decreases a
  {
    var r := NatDigits(a);
    if a >= 10 && b >= 10 {
      assert r[..|r| - 1] == NatDigits(a / 10) && r[..|r| - 1] == NatDigits(b / 10);
      NatDigitsInjective(a / 10, b / 10);
      assert DigitChar(a % 10) == r[|r| - 1] == DigitChar(b % 10);
    }
  }

  /** `s[:n]` for `n >= 0`. */
  function Take(s: string, n: nat): (r: string)
    ensures |r| == if n < |s| then n else |s|
    ensures r == s[..|r|]
  {
    if n < |s| then s[..n] else s
  }
}
