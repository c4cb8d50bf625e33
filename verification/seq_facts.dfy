/**
 * Facts about sequences of any element type. Stated once over `T`, they
 * are proved without the context of the string operations that use them.
 */
module SeqFacts {
  lemma AppendAssoc<T>(a: seq<T>, b: seq<T>, c: seq<T>)
    ensures a + (b + c) == (a + b) + c
  {
  }

  lemma AppendParts<T>(a: seq<T>, b: seq<T>)
    requires |a| > 0
    ensures (a + b)[0] == a[0] && (a + b)[1..] == a[1..] + b
  {
  }

  /** A non-empty sequence is its head before its tail. */
  lemma ConsParts1<T>(t: seq<T>)
    requires |t| > 0
    ensures t == [t[0]] + t[1..]
    ensures multiset(t) == multiset{t[0]} + multiset(t[1..])
    ensures |t| == 1 ==> t == [t[0]]
  {
    assert t == [t[0]] + t[1..];
  }

  /** A sequence of two or more is its head before its tail, with or without its last element. */
  lemma ConsParts<T>(t: seq<T>)
    requires |t| > 1
    ensures t == [t[0]] + t[1..]
    ensures t[..|t| - 1] == [t[0]] + t[1..][..|t| - 2]
  {
  }

  lemma TailSlice<T>(t: seq<T>)
    requires |t| >= 2
    ensures t[1..][..|t| - 2] == t[1..|t| - 1]
  {
  }

  /** Replacing the head keeps the tail. */
  lemma HeadReplaced<T>(x: T, rest: seq<T>, r: seq<T>)
    requires |rest| >= 1 && r == [x] + rest[1..]
    ensures |r| == |rest| && r[0] == x && r[1..] == rest[1..]
  {
  }

  /** A suffix of the tail is a suffix of the whole; together with its prefix it is the whole. */
  lemma SuffixOfTail<T>(s: seq<T>, d: seq<T>)
    requires |s| > 0 && |d| <= |s| - 1 && d == s[1..][|s| - 1 - |d|..]
    ensures d == s[|s| - |d|..] && s == s[..|s| - |d|] + d
  {
  }
}
