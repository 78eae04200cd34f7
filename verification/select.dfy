/** Keeping the elements of a sequence that pass a test, in order: the
    comprehensions `[x for x in xs if p(x)]` of the converters, and the
    subsequence relation that states what such a comprehension keeps. */
module Select {
  import opened Seqs

  /** `a` can be had from `b` by dropping elements. */
  predicate Subseq<T(==)>(a: seq<T>, b: seq<T>)
    decreases |b|
  {
    || |a| == 0
    || (|b| > 0 && ((a[0] == b[0] && Subseq(a[1..], b[1..])) || Subseq(a, b[1..])))
  }

  /** The elements that pass `keep`, in their order. */
  function Filter<T>(s: seq<T>, keep: T -> bool): (r: seq<T>)
    ensures |r| <= |s|
    ensures forall i :: 0 <= i < |r| ==> keep(r[i]) && r[i] in s
    ensures forall i :: 0 <= i < |s| && keep(s[i]) ==> s[i] in r
  {
    if |s| == 0 then []
    else
      var rest := Filter(s[1..], keep);
      assert forall i :: 1 <= i < |s| ==> s[i] == s[1..][i - 1];
      if keep(s[0]) then [s[0]] + rest else rest
  }

  /** What a filter keeps is a subsequence of its input. */
  lemma {:induction false} FilterSubseq<T>(s: seq<T>, keep: T -> bool)
    ensures Subseq(Filter(s, keep), s)
  {
    if |s| > 0 {
      FilterSubseq(s[1..], keep);
      var rest := Filter(s[1..], keep);
      if keep(s[0]) {
        assert Filter(s, keep) == [s[0]] + rest;
        assert Filter(s, keep)[1..] == rest;
      }
    }
  }

  /** A filter keeps everything exactly when everything passes. */
  lemma {:induction false} FilterKeepsAll<T>(s: seq<T>, keep: T -> bool)
    ensures Filter(s, keep) == s <==> forall i :: 0 <= i < |s| ==> keep(s[i])
  {
    if |s| > 0 {
      FilterKeepsAll(s[1..], keep);
      var rest := Filter(s[1..], keep);
      if keep(s[0]) {
        assert s == [s[0]] + s[1..];
        assert forall i :: 1 <= i < |s| ==> s[i] == s[1..][i - 1];
      } else {
        assert |rest| < |s|;
      }
    }
  }

  /** Every element of a subsequence is an element of the whole. */
  lemma {:induction false} SubseqMember<T>(a: seq<T>, b: seq<T>, x: T)
    requires Subseq(a, b) && x in a
    ensures x in b
    decreases |b|
  {
    if a[0] == b[0] && Subseq(a[1..], b[1..]) {
      if x != a[0] {
        assert x in a[1..];
        SubseqMember(a[1..], b[1..], x);
      }
    } else {
      SubseqMember(a, b[1..], x);
    }
  }

  /** The positions of `s` whose element passes `keep`. */
  function Passing<T>(s: seq<T>, keep: T -> bool): set<int> {
    set i | 0 <= i < |s| && keep(s[i])
  }

  /** Filtering a concatenation filters each part. */
  lemma {:induction false} FilterAppend<T>(a: seq<T>, b: seq<T>, keep: T -> bool)
    ensures Filter(a + b, keep) == Filter(a, keep) + Filter(b, keep)
    decreases |a|
  {
    if |a| > 0 {
      var ab := a + b;
      FilterAppend(a[1..], b, keep);
      assert ab[0] == a[0] && ab[1..] == a[1..] + b;
      var fa, fb := Filter(a[1..], keep), Filter(b, keep);
      assert Filter(ab[1..], keep) == fa + fb;
      if keep(a[0]) {
        assert Filter(ab, keep) == [a[0]] + (fa + fb);
        assert Filter(a, keep) == [a[0]] + fa;
        Assoc([a[0]], fa, fb);
      } else {
        assert Filter(ab, keep) == fa + fb;
        assert Filter(a, keep) == fa;
      }
    } else {
      assert a + b == b;
    }
  }

  /** The passing positions of `s` are those of all but its last element,
      and the last position when that element passes. */
  lemma PassingInit<T>(s: seq<T>, keep: T -> bool)
    requires |s| > 0
    ensures Passing(s, keep) ==
              Passing(s[..|s| - 1], keep) + (if keep(s[|s| - 1]) then {|s| - 1} else {})
    ensures |s| - 1 !in Passing(s[..|s| - 1], keep)
  {
    var n := |s| - 1;
    forall i | i in Passing(s[..n], keep)
      ensures i in Passing(s, keep)
    {
      assert s[..n][i] == s[i];
    }
    forall i | i in Passing(s, keep) && i < n
      ensures i in Passing(s[..n], keep)
    {
      assert s[..n][i] == s[i];
    }
  }

  /** A filter keeps exactly as many elements as there are passing
      positions, so a repeated element is kept as often as it passes. */
  lemma {:induction false} FilterCount<T>(s: seq<T>, keep: T -> bool)
    ensures |Filter(s, keep)| == |Passing(s, keep)|
    decreases |s|
  {
    if |s| > 0 {
      var n := |s| - 1;
      var init, last := s[..n], [s[n]];
      FilterCount(init, keep);
      PassingInit(s, keep);
      assert s == init + last;
      FilterAppend(init, last, keep);
      assert last[1..] == [];
      assert Filter(last, keep) == if keep(s[n]) then [s[n]] else [];
      var p := Passing(init, keep);
      assert |Passing(s, keep)| == |p| + (if keep(s[n]) then 1 else 0) by {
        if keep(s[n]) {
          assert Passing(s, keep) == p + {n} && n !in p;
        } else {
          assert Passing(s, keep) == p;
        }
      }
    } else {
      assert Passing(s, keep) == {};
    }
  }
}
