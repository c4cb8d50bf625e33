/**
 * The Python `str` operations the NML assembler relies on, over strings of
 * Unicode scalar values: whitespace as `str.isspace` and the `\s` class of
 * `re` define it, `strip`, `split` on one character, `index`, `re.split`
 * on runs of commas and whitespace, and `upper` as far as its result can
 * consist of ASCII characters only.
 */
module PyText {
  import opened Wrappers
  import opened SeqFacts

  /** `c.isspace()`: the characters Unicode gives the bidirectional class WS, B or S, or the category Zs. */
  predicate IsSpace(c: char)
  {
    var n := c as int;
    (0x09 <= n <= 0x0D) || (0x1C <= n <= 0x20) || n == 0x85 || n == 0xA0 || n == 0x1680 ||
    (0x2000 <= n <= 0x200A) || n == 0x2028 || n == 0x2029 || n == 0x202F || n == 0x205F || n == 0x3000
  }

  predicate AllSpace(s: string)
  {
    forall i :: 0 <= i < |s| ==> IsSpace(s[i])
  }

  function StripLeft(s: string): (r: string)
    ensures |r| <= |s| && r == s[|s| - |r|..]
    ensures AllSpace(s[..|s| - |r|])
    ensures |r| > 0 ==> !IsSpace(r[0])
    decreases |s|
  {
    if |s| > 0 && IsSpace(s[0]) then
      var r := StripLeft(s[1..]);
      assert s[1..][..|s| - 1 - |r|] == s[1..|s| - |r|];
      r
    else s
  }

  function StripRight(s: string): (r: string)
    ensures |r| <= |s| && r == s[..|r|]
    ensures AllSpace(s[|r|..])
    ensures |r| > 0 ==> !IsSpace(r[|r| - 1])
    decreases |s|
  {
    if |s| > 0 && IsSpace(s[|s| - 1]) then StripRight(s[..|s| - 1]) else s
  }

  /**
   * `s.strip()`: the one slice of s that neither starts nor ends with
   * whitespace and has only whitespace outside it.
   */
  function Strip(s: string): (r: string)
    ensures exists i :: 0 <= i && i + |r| <= |s| && r == s[i..i + |r|] && AllSpace(s[..i]) && AllSpace(s[i + |r|..])
    ensures |r| > 0 ==> !IsSpace(r[0]) && !IsSpace(r[|r| - 1])
    ensures |r| == 0 <==> AllSpace(s)
  {
    var l := StripLeft(s);
    var r := StripRight(l);
    TrimmedSlice(s, |s| - |l|, l, r);
    r
  }

  /** l is s without its first i characters, all spaces; r is l without trailing spaces. */
  lemma TrimmedSlice(s: string, i: nat, l: string, r: string)
    requires i <= |s| && l == s[i..] && AllSpace(s[..i])
    requires |r| <= |l| && r == l[..|r|] && AllSpace(l[|r|..])
    requires |r| > 0 ==> !IsSpace(r[0])
    ensures i + |r| <= |s| && r == s[i..i + |r|] && AllSpace(s[i + |r|..])
    ensures exists j :: 0 <= j && j + |r| <= |s| && r == s[j..j + |r|] && AllSpace(s[..j]) && AllSpace(s[j + |r|..])
    ensures |r| == 0 <==> AllSpace(s)
  {
    assert s[i..][..|r|] == s[i..i + |r|];
    assert s[i..][|r|..] == s[i + |r|..];
    assert AllSpace(s[..i]) && AllSpace(s[i + |r|..]);
    if |r| == 0 {
      forall k | 0 <= k < |s| ensures IsSpace(s[k]) {
        if k < i { assert s[..i][k] == s[k]; } else { assert l[k - i] == s[k]; }
      }
    } else {
      assert s[i] == r[0];
    }
  }

  /** Stripping adds no character. */
  lemma StripNotIn(s: string, c: char)
    requires c !in s
    ensures c !in Strip(s)
  {
    var l := StripLeft(s);
    var r := StripRight(l);
    var i := |s| - |l|;
    assert r == s[i..i + |r|];
  }

  /** Stripping twice is stripping once. */
  lemma StripIdempotent(s: string)
    ensures Strip(Strip(s)) == Strip(s)
  {
    var t := Strip(s);
    assert StripLeft(t) == t;
    assert StripRight(t) == t;
  }

  /** `s.index(c)` when c occurs, and None where Python raises. */
  function Find(s: string, c: char): (r: Option<nat>)
    ensures r.None? <==> c !in s
    ensures r.Some? ==> r.value < |s| && s[r.value] == c && c !in s[..r.value]
    decreases |s|
  {
    if |s| == 0 then None
    else if s[0] == c then Some(0)
    else
      match Find(s[1..], c)
      case None => None
      case Some(i) =>
        assert s[..i + 1] == [s[0]] + s[1..][..i];
        Some(i + 1)
  }

  /** The pieces joined with the separator between them (`sep.join(parts)`). */
  function Join(parts: seq<string>, sep: char): string
    decreases |parts|
  {
    if |parts| == 0 then []
    else if |parts| == 1 then parts[0]
    else parts[0] + [sep] + Join(parts[1..], sep)
  }

  /** `s.split(sep)` for a one-character separator: the text between consecutive separators. */
  function Split(s: string, sep: char): (r: seq<string>)
    ensures |r| >= 1
    ensures forall i :: 0 <= i < |r| ==> sep !in r[i]
    ensures Join(r, sep) == s
    ensures sep !in s ==> r == [s]
    decreases |s|
  {
    if |s| == 0 then [[]]
    else if s[0] == sep then
      var rest := Split(s[1..], sep);
      assert [sep] + s[1..] == s;
      [[]] + rest
    else
      var rest := Split(s[1..], sep);
      var r := [[s[0]] + rest[0]] + rest[1..];
      assert r[1..] == rest[1..];
      assert forall i :: 1 <= i < |r| ==> r[i] == rest[i];
      assert [s[0]] + s[1..] == s;
      r
  }

  /** A separator of the operand syntax: a comma or whitespace. */
  predicate IsFieldSep(c: char)
  {
    c == ',' || IsSpace(c)
  }

  predicate NoFieldSep(s: string)
  {
    forall i :: 0 <= i < |s| ==> !IsFieldSep(s[i])
  }

  /** The characters of s that are not separators, in order. */
  function WithoutSeps(s: string): (r: string)
    ensures NoFieldSep(r)
    decreases |s|
  {
    if |s| == 0 then []
    else if IsFieldSep(s[0]) then WithoutSeps(s[1..])
    else [s[0]] + WithoutSeps(s[1..])
  }

  function Concat(parts: seq<string>): string
    decreases |parts|
  {
    if |parts| == 0 then [] else parts[0] + Concat(parts[1..])
  }

  /** The text after the leading run of separators. */
  function DropSeps(s: string): (r: string)
    ensures |r| <= |s| && r == s[|s| - |r|..]
    ensures |r| > 0 ==> !IsFieldSep(r[0])
    ensures forall i :: 0 <= i < |s| - |r| ==> IsFieldSep(s[i])
    ensures WithoutSeps(r) == WithoutSeps(s)
    decreases |s|
  {
    if |s| > 0 && IsFieldSep(s[0]) then
      var r := DropSeps(s[1..]);
      DropSepsStep(s, r);
      r
    else s
  }

  /** Skipping one more leading separator keeps what DropSeps promises. */
  lemma DropSepsStep(s: string, r: string)
    requires |s| > 0 && IsFieldSep(s[0])
    requires |r| <= |s| - 1 && r == s[1..][|s| - 1 - |r|..]
    requires forall i :: 0 <= i < |s| - 1 - |r| ==> IsFieldSep(s[1..][i])
    requires WithoutSeps(r) == WithoutSeps(s[1..])
    ensures |r| <= |s| && r == s[|s| - |r|..]
    ensures forall i :: 0 <= i < |s| - |r| ==> IsFieldSep(s[i])
    ensures WithoutSeps(r) == WithoutSeps(s)
  {
    SuffixOfTail(s, r);
    forall i | 1 <= i < |s| - |r| ensures IsFieldSep(s[i]) {
      assert s[i] == s[1..][i - 1];
    }
  }

  /**
   * `re.split(r'[,\s]+', s)`: the text between maximal runs of separators.
   * The first and last field are empty when s starts or ends with a
   * separator; every field between them is non-empty.
   */
  function Fields(s: string): (r: seq<string>)
    ensures |r| >= 1
    ensures forall i :: 0 <= i < |r| ==> NoFieldSep(r[i])
    ensures forall i :: 0 < i < |r| - 1 ==> |r[i]| > 0
    ensures Concat(r) == WithoutSeps(s)
    ensures NoFieldSep(s) <==> r == [s]
    decreases |s|
  {
    if |s| == 0 then [[]]
    else if IsFieldSep(s[0]) then
      var rest := Fields(DropSeps(s[1..]));
      var r := [[]] + rest;
      assert r[1..] == rest;
      FieldsNotSingle(s, r);
      r
    else
      var rest := Fields(s[1..]);
      var r := [[s[0]] + rest[0]] + rest[1..];
      FieldsCons(s, rest, r);
      r
  }

  /** A character that is not a separator joins the first field of the rest. */
  lemma FieldsCons(s: string, rest: seq<string>, r: seq<string>)
    requires |s| > 0 && !IsFieldSep(s[0]) && |rest| >= 1
    requires forall i :: 0 <= i < |rest| ==> NoFieldSep(rest[i])
    requires forall i :: 0 < i < |rest| - 1 ==> |rest[i]| > 0
    requires Concat(rest) == WithoutSeps(s[1..])
    requires NoFieldSep(s[1..]) <==> rest == [s[1..]]
    requires r == [[s[0]] + rest[0]] + rest[1..]
    ensures |r| >= 1
    ensures forall i :: 0 <= i < |r| ==> NoFieldSep(r[i])
    ensures forall i :: 0 < i < |r| - 1 ==> |r[i]| > 0
    ensures Concat(r) == WithoutSeps(s)
    ensures NoFieldSep(s) <==> r == [s]
  {
    ConsShape(s[0], rest, r);
    ConsConcat(s[0], rest, r);
    assert WithoutSeps(s) == [s[0]] + WithoutSeps(s[1..]);
    ConsSingle(s, rest, r);
  }

  lemma ConsShape(c: char, rest: seq<string>, r: seq<string>)
    requires !IsFieldSep(c) && |rest| >= 1
    requires forall i :: 0 <= i < |rest| ==> NoFieldSep(rest[i])
    requires forall i :: 0 < i < |rest| - 1 ==> |rest[i]| > 0
    requires r == [[c] + rest[0]] + rest[1..]
    ensures |r| >= 1
    ensures forall i :: 0 <= i < |r| ==> NoFieldSep(r[i])
    ensures forall i :: 0 < i < |r| - 1 ==> |r[i]| > 0
  {
    assert forall i :: 1 <= i < |r| ==> r[i] == rest[i];
  }

  lemma ConsConcat(c: char, rest: seq<string>, r: seq<string>)
    requires |rest| >= 1 && r == [[c] + rest[0]] + rest[1..]
    ensures Concat(r) == [c] + Concat(rest)
  {
    var tail := Concat(rest[1..]);
    HeadReplaced([c] + rest[0], rest, r);
    assert Concat(r) == ([c] + rest[0]) + tail;
    assert Concat(rest) == rest[0] + tail;
    AppendAssoc([c], rest[0], tail);
  }

  lemma ConsSingle(s: string, rest: seq<string>, r: seq<string>)
    requires |s| > 0 && !IsFieldSep(s[0]) && |rest| >= 1
    requires NoFieldSep(s[1..]) <==> rest == [s[1..]]
    requires NoFieldSep(rest[0])
    requires r == [[s[0]] + rest[0]] + rest[1..]
    ensures NoFieldSep(s) <==> r == [s]
  {
    assert [s[0]] + s[1..] == s;
    if NoFieldSep(s) {
      assert NoFieldSep(s[1..]);
    }
    if r == [s] {
      assert |r| == |rest| && r[0] == [s[0]] + rest[0];
      assert |rest| == 1 && s == [s[0]] + rest[0];
      assert forall i :: 1 <= i < |s| ==> s[i] == rest[0][i - 1];
    }
  }

  lemma FieldsNotSingle(s: string, r: seq<string>)
    requires |s| > 0 && IsFieldSep(s[0]) && |r| >= 2
    ensures !NoFieldSep(s) && r != [s]
  {
  }

  /** A non-empty run of separators. */
  predicate SepRun(g: string)
  {
    |g| > 0 && forall i :: 0 <= i < |g| ==> IsFieldSep(g[i])
  }

  /** The fields with the separator runs between them: f0 g0 f1 g1 ... fn. */
  function Weave(fields: seq<string>, gaps: seq<string>): string
    requires |fields| == |gaps| + 1
    decreases |gaps|
  {
    if |gaps| == 0 then fields[0] else fields[0] + gaps[0] + Weave(fields[1..], gaps[1..])
  }

  /**
   * s cut at its maximal runs of separators: the fields hold no separator,
   * every gap is a non-empty run of separators, and no field between two
   * gaps is empty, so no two gaps touch. This is the reference meaning of
   * `re.split(r'[,\s]+', s)`.
   */
  predicate SplitAt(s: string, fields: seq<string>, gaps: seq<string>)
  {
    |fields| == |gaps| + 1 &&
    (forall i :: 0 <= i < |fields| ==> NoFieldSep(fields[i])) &&
    (forall i :: 0 < i < |fields| - 1 ==> |fields[i]| > 0) &&
    (forall i :: 0 <= i < |gaps| ==> SepRun(gaps[i])) &&
    Weave(fields, gaps) == s
  }

  /** Fields cuts s at its maximal runs of separators. */
  lemma {:induction false} FieldsSplit(s: string) returns (gaps: seq<string>)
    ensures SplitAt(s, Fields(s), gaps)
    decreases |s|
  {
    if |s| == 0 {
      gaps := [];
    } else if IsFieldSep(s[0]) {
      var d := DropSeps(s[1..]);
      var tail := FieldsSplit(d);
      gaps := SplitSep(s, d, tail);
    } else {
      var tail := FieldsSplit(s[1..]);
      SplitCons(s, tail);
      gaps := tail;
    }
  }

  /** A leading run of separators becomes the first gap, after an empty first field. */
  lemma SplitSep(s: string, d: string, tail: seq<string>) returns (gaps: seq<string>)
    requires |s| > 0 && IsFieldSep(s[0]) && d == DropSeps(s[1..])
    requires SplitAt(d, Fields(d), tail)
    ensures SplitAt(s, Fields(s), gaps)
  {
    var g0 := s[..|s| - |d|];
    var rest := Fields(d);
    LeadingRun(s, d, g0);
    if |rest| >= 2 {
      FieldsHead(d);
    }
    SplitPrepend(g0, d, rest, tail);
    FieldsSepUnfold(s, d, rest);
    gaps := [g0] + tail;
  }

  lemma FieldsSepUnfold(s: string, d: string, rest: seq<string>)
    requires |s| > 0 && IsFieldSep(s[0]) && d == DropSeps(s[1..]) && rest == Fields(d)
    ensures Fields(s) == [[]] + rest
  {
  }

  /** What DropSeps skips after a leading separator is a run of separators. */
  lemma LeadingRun(s: string, d: string, g0: string)
    requires |s| > 0 && IsFieldSep(s[0]) && d == DropSeps(s[1..]) && g0 == s[..|s| - |d|]
    ensures SepRun(g0) && s == g0 + d
  {
    SuffixOfTail(s, d);
    forall i | 1 <= i < |g0| ensures IsFieldSep(g0[i]) {
      assert g0[i] == s[1..][i - 1];
    }
  }

  /** A run of separators put before a cut adds an empty first field. */
  lemma SplitPrepend(g0: string, d: string, rest: seq<string>, tail: seq<string>)
    requires SplitAt(d, rest, tail) && SepRun(g0)
    requires |rest| >= 2 ==> |rest[0]| > 0
    ensures SplitAt(g0 + d, [[]] + rest, [g0] + tail)
  {
    var r := [[]] + rest;
    var gaps := [g0] + tail;
    assert r[1..] == rest && gaps[1..] == tail;
    assert forall i :: 0 < i < |r| ==> r[i] == rest[i - 1];
    assert forall i :: 0 < i < |gaps| ==> gaps[i] == tail[i - 1];
    assert Weave(r, gaps) == [] + g0 + Weave(rest, tail);
  }

  /** A leading non-separator joins the first field and leaves the gaps alone. */
  lemma SplitCons(s: string, gaps: seq<string>)
    requires |s| > 0 && !IsFieldSep(s[0])
    requires SplitAt(s[1..], Fields(s[1..]), gaps)
    ensures SplitAt(s, Fields(s), gaps)
  {
    assert [s[0]] + s[1..] == s;
    SplitConsChar(s[0], s[1..], Fields(s[1..]), gaps);
  }

  /** A non-separator put before a cut joins its first field. */
  lemma SplitConsChar(c: char, t: string, rest: seq<string>, gaps: seq<string>)
    requires SplitAt(t, rest, gaps) && !IsFieldSep(c)
    ensures SplitAt([c] + t, [[c] + rest[0]] + rest[1..], gaps)
  {
    var r := [[c] + rest[0]] + rest[1..];
    assert forall i :: 1 <= i < |r| ==> r[i] == rest[i];
    WeaveCons(c, rest, r, gaps);
  }

  /** Text that starts with a non-separator has a non-empty first field. */
  lemma FieldsHead(s: string)
    requires |s| > 0 && !IsFieldSep(s[0])
    ensures |Fields(s)[0]| > 0
  {
    var rest := Fields(s[1..]);
    assert Fields(s) == [[s[0]] + rest[0]] + rest[1..];
  }

  /** Prepending a character to the first field prepends it to the woven text. */
  lemma WeaveCons(c: char, fields: seq<string>, r: seq<string>, gaps: seq<string>)
    requires |fields| == |gaps| + 1 && r == [[c] + fields[0]] + fields[1..]
    ensures Weave(r, gaps) == [c] + Weave(fields, gaps)
  {
    if |gaps| > 0 {
      var w := Weave(fields[1..], gaps[1..]);
      assert r[1..] == fields[1..];
      assert ([c] + fields[0]) + gaps[0] + w == [c] + (fields[0] + gaps[0] + w);
    }
  }

  /**
   * The first field, the first gap and the rest of a cut: the rest is a cut
   * of what follows the first gap, and it is empty or starts with a
   * non-separator.
   */
  lemma SplitTail(s: string, fields: seq<string>, gaps: seq<string>)
    requires SplitAt(s, fields, gaps) && |gaps| > 0
    ensures s == fields[0] + (gaps[0] + Weave(fields[1..], gaps[1..]))
    ensures SplitAt(Weave(fields[1..], gaps[1..]), fields[1..], gaps[1..])
    ensures var w := Weave(fields[1..], gaps[1..]); |w| == 0 || !IsFieldSep(w[0])
  {
    var f := fields[1..];
    var g := gaps[1..];
    assert forall i :: 0 <= i < |f| ==> f[i] == fields[i + 1];
    assert forall i :: 0 <= i < |g| ==> g[i] == gaps[i + 1];
    if |g| > 0 {
      assert |f[0]| > 0;
    }
  }

  /** A cut without a gap is the text itself, free of separators. */
  lemma SplitSingle(s: string, fields: seq<string>, gaps: seq<string>)
    requires SplitAt(s, fields, gaps) && |gaps| == 0
    ensures fields == [s] && NoFieldSep(s)
  {
  }

  lemma ConcatAt(x: string, y: string, k: nat)
    requires k < |x| + |y|
    ensures (x + y)[k] == if k < |x| then x[k] else y[k - |x|]
  {
  }

  /** A cut with a gap has a separator in it. */
  lemma SplitHasSep(s: string, fields: seq<string>, gaps: seq<string>)
    requires SplitAt(s, fields, gaps) && |gaps| > 0
    ensures !NoFieldSep(s)
  {
    SplitTail(s, fields, gaps);
    assert s[|fields[0]|] == gaps[0][0];
  }

  /** Cutting text before its first separator gives one answer. */
  lemma PrefixCut(x1: string, y1: string, x2: string, y2: string)
    requires x1 + y1 == x2 + y2 && NoFieldSep(x1) && NoFieldSep(x2)
    requires |y1| > 0 && IsFieldSep(y1[0]) && |y2| > 0 && IsFieldSep(y2[0])
    ensures x1 == x2 && y1 == y2
  {
    if |x1| < |x2| {
      ConcatAt(x1, y1, |x1|);
      assert false;
    } else if |x2| < |x1| {
      ConcatAt(x2, y2, |x2|);
      assert false;
    } else {
      assert x1 == (x1 + y1)[..|x1|] && x2 == (x2 + y2)[..|x2|];
      assert y1 == (x1 + y1)[|x1|..] && y2 == (x2 + y2)[|x2|..];
    }
  }

  /** A maximal run of separators has one length. */
  lemma GapCut(g1: string, w1: string, g2: string, w2: string)
    requires g1 + w1 == g2 + w2 && SepRun(g1) && SepRun(g2)
    requires |w1| == 0 || !IsFieldSep(w1[0])
    requires |w2| == 0 || !IsFieldSep(w2[0])
    ensures g1 == g2 && w1 == w2
  {
    if |g1| < |g2| {
      ConcatAt(g1, w1, |g1|);
      assert false;
    } else if |g2| < |g1| {
      ConcatAt(g2, w2, |g2|);
      assert false;
    } else {
      assert g1 == (g1 + w1)[..|g1|] && g2 == (g2 + w2)[..|g2|];
      assert w1 == (g1 + w1)[|g1|..] && w2 == (g2 + w2)[|g2|..];
    }
  }

  /** A text has exactly one cut at its maximal runs of separators. */
  lemma {:induction false} SplitUnique(s: string, f1: seq<string>, g1: seq<string>, f2: seq<string>, g2: seq<string>)
    requires SplitAt(s, f1, g1) && SplitAt(s, f2, g2)
    ensures f1 == f2 && g1 == g2
    decreases |g1|
  {
    if |g1| == 0 && |g2| == 0 {
      SplitSingle(s, f1, g1);
      SplitSingle(s, f2, g2);
    } else if |g1| == 0 {
      SplitSingle(s, f1, g1);
      SplitHasSep(s, f2, g2);
      assert false;
    } else if |g2| == 0 {
      SplitSingle(s, f2, g2);
      SplitHasSep(s, f1, g1);
      assert false;
    } else {
      SplitTail(s, f1, g1);
      SplitTail(s, f2, g2);
      var w1 := Weave(f1[1..], g1[1..]);
      var w2 := Weave(f2[1..], g2[1..]);
      PrefixCut(f1[0], g1[0] + w1, f2[0], g2[0] + w2);
      GapCut(g1[0], w1, g2[0], w2);
      SplitUnique(w1, f1[1..], g1[1..], f2[1..], g2[1..]);
      assert f1 == [f1[0]] + f1[1..] && f2 == [f2[0]] + f2[1..];
      assert g1 == [g1[0]] + g1[1..] && g2 == [g2[0]] + g2[1..];
    }
  }

  /** Any cut of s at its maximal runs of separators has Fields(s) as its fields. */
  lemma SplitIsFields(s: string, fields: seq<string>, gaps: seq<string>)
    requires SplitAt(s, fields, gaps)
    ensures fields == Fields(s)
  {
    var g := FieldsSplit(s);
    SplitUnique(s, fields, gaps, Fields(s), g);
  }

  /**
   * `str.upper()` where it matters for matching ASCII keywords: the
   * upper-case form when it consists of ASCII characters only, None
   * otherwise. Besides ASCII these are dotless i, long s, sharp s and the
   * Latin ligatures U+FB00..U+FB06.
   */
  function UpperChar(c: char): (r: Option<string>)
    ensures r.Some? ==> forall i :: 0 <= i < |r.value| ==> (r.value[i] as int) < 0x80
    ensures (c as int) < 0x80 ==> r.Some?
  {
    var n := c as int;
    if 'a' <= c <= 'z' then Some([(n - 32) as char])
    else if n < 0x80 then Some([c])
    else if n == 0x131 then Some("I")
    else if n == 0x17F then Some("S")
    else if n == 0xDF then Some("SS")
    else if n == 0xFB00 then Some("FF")
    else if n == 0xFB01 then Some("FI")
    else if n == 0xFB02 then Some("FL")
    else if n == 0xFB03 then Some("FFI")
    else if n == 0xFB04 then Some("FFL")
    else if n == 0xFB05 || n == 0xFB06 then Some("ST")
    else None
  }

  function UpperAscii(s: string): (r: Option<string>)
    ensures r.Some? ==> forall i :: 0 <= i < |r.value| ==> (r.value[i] as int) < 0x80
    ensures (forall i :: 0 <= i < |s| ==> (s[i] as int) < 0x80) ==> r.Some?
    decreases |s|
  {
    if |s| == 0 then Some([])
    else
      match UpperChar(s[0])
      case None => None
      case Some(u) =>
        match UpperAscii(s[1..])
        case None => None
        case Some(rest) => Some(u + rest)
  }

  /** ASCII `lower()`. */
  function LowerAscii(s: string): (r: string)
    ensures |r| == |s|
    decreases |s|
  {
    if |s| == 0 then []
    else [if 'A' <= s[0] <= 'Z' then (s[0] as int + 32) as char else s[0]] + LowerAscii(s[1..])
  }

  /** Upper-casing undoes ASCII lower-casing of an upper-case word. */
  lemma {:induction false} UpperOfLower(s: string)
    requires forall i :: 0 <= i < |s| ==> 'A' <= s[i] <= 'Z'
    ensures UpperAscii(LowerAscii(s)) == Some(s)
    ensures UpperAscii(s) == Some(s)
    decreases |s|
  {
    if |s| > 0 {
      UpperOfLower(s[1..]);
      assert LowerAscii(s)[1..] == LowerAscii(s[1..]);
      assert [s[0]] + s[1..] == s;
    }
  }
}
