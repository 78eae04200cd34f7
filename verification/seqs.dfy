/** Facts about concatenation that the verifier only finds by comparing
    sequences element by element; stated once here so that the proofs that
    need them do not have to. */
module Seqs {

  lemma Assoc<T>(a: seq<T>, b: seq<T>, c: seq<T>)
    ensures a + (b + c) == (a + b) + c
  {
  }

  lemma EmptyLeft<T>(a: seq<T>, b: seq<T>)
    requires |a| == 0
    ensures a + b == b
  {
  }

  lemma EmptyRight<T>(a: seq<T>, b: seq<T>)
    requires |b| == 0
    ensures a + b == a
  {
  }

  /** The head and the tail of a concatenation whose left part is not
      empty. */
  lemma HeadTail<T>(a: seq<T>, b: seq<T>)
    requires |a| > 0
    ensures (a + b)[0] == a[0]
    ensures (a + b)[1..] == a[1..] + b
    ensures a + b == [a[0]] + (a[1..] + b)
    ensures [a[0]] + a[1..] == a
  {
  }

  /** A sequence is its first element before its tail. */
  lemma Uncons<T>(a: seq<T>)
    requires |a| > 0
    ensures a == [a[0]] + a[1..]
  {
  }

  /** A sequence is its prefix before its suffix. */
  lemma SplitAt<T>(a: seq<T>, n: nat)
    requires n <= |a|
    ensures a[..n] + a[n..] == a
  {
  }

  /** Dropping a prefix that was concatenated on. */
  lemma DropPrefix<T>(a: seq<T>, b: seq<T>)
    ensures (a + b)[|a|..] == b
    ensures (a + b)[..|a|] == a
  {
  }

  /** The head and the tail of a one-element prefix. */
  lemma ConsTail<T>(x: T, t: seq<T>)
    ensures ([x] + t)[0] == x
    ensures ([x] + t)[1..] == t
  {
  }

  /** Dropping twice is dropping once. */
  lemma DropDrop<T>(s: seq<T>, i: nat, j: nat)
    requires i + j <= |s|
    ensures s[i..][j..] == s[i + j..]
  {
  }

  /** A prefix of a prefix is a prefix. */
  lemma TakeTake<T>(s: seq<T>, i: nat, j: nat)
    requires j <= i <= |s|
    ensures s[..i][..j] == s[..j]
  {
  }

  /** A prefix of a suffix is a slice. */
  lemma TakeDrop<T>(s: seq<T>, i: nat, n: nat)
    requires i + n <= |s|
    ensures s[i..][..n] == s[i..i + n]
  {
  }

  /** A suffix that starts with a known part holds that part as a slice. */
  lemma SliceOf<T>(t: seq<T>, i: nat, part: seq<T>, more: seq<T>)
    requires i <= |t| && t[i..] == part + more
    ensures t[i..i + |part|] == part
  {
    assert t[i..i + |part|] == (part + more)[..|part|];
  }

  /** A suffix that starts with a known part goes on with what follows it. */
  lemma AfterOf<T>(t: seq<T>, i: nat, part: seq<T>, more: seq<T>)
    requires i <= |t| && t[i..] == part + more
    ensures t[i + |part|..] == more
  {
    assert t[i + |part|..] == (part + more)[|part|..];
  }
}
