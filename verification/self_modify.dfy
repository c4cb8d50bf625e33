/**
 * The self-modification cycle of oagi_self_modify.py as string transforms:
 * the text of a generated operator and its name, the injection of that text
 * in front of the generation marker of the operators file, and the
 * book-keeping of one iteration. The file itself, git and the log are I/O;
 * the random draws and the formatted numbers are parameters.
 */
module SelfModify {
  import opened Wrappers
  import opened PyText
  import opened Decimal
  import opened SeqFacts

  /** The marker `inject_operator_into_source` looks for. */
  const Marker: string := "# GENERATION_MARKER"

  /**
   * What the proofs need of a marker: it is not empty, holds no newline, and
   * its first character does not recur in it, so two occurrences never
   * overlap.
   */
  predicate GoodMarker(m: string)
  {
    |m| > 0 && (forall k :: 0 <= k < |m| ==> m[k] != '\n') && forall k :: 1 <= k < |m| ==> m[k] != m[0]
  }

  lemma MarkerGood()
    ensures GoodMarker(Marker)
  {
  }

  /** m occurs in s at position i. */
  predicate MarkerAt(s: string, m: string, i: nat)
  {
    i + |m| <= |s| && s[i..i + |m|] == m
  }

  predicate NoMarker(s: string, m: string)
  {
    forall i: nat :: i <= |s| ==> !MarkerAt(s, m, i)
  }

  /** m occurs in s exactly once. */
  ghost predicate ExactlyOneMarker(s: string, m: string)
  {
    exists p: nat :: MarkerAt(s, m, p) && forall q: nat :: MarkerAt(s, m, q) ==> q == p
  }

  /** `s.find(m, start)`, with None for -1. */
  function FindMarker(s: string, m: string, start: nat): (r: Option<nat>)
    ensures r.None? <==> forall q: nat :: start <= q ==> !MarkerAt(s, m, q)
    ensures r.Some? ==> start <= r.value && MarkerAt(s, m, r.value) && forall q: nat :: start <= q < r.value ==> !MarkerAt(s, m, q)
    decreases |s| - start
  {
    if start + |m| > |s| then None
    else if MarkerAt(s, m, start) then Some(start)
    else FindMarker(s, m, start + 1)
  }

  /** `content.split(m)[1]`: the text after the first marker, up to the second one if there is one. */
  function SecondPart(content: string, m: string, i: nat): (r: string)
    requires |m| > 0 && MarkerAt(content, m, i)
    ensures NoMarker(r, m)
  {
    var from := i + |m|;
    var next := FindMarker(content, m, from);
    var end := if next.Some? then next.value else |content|;
    assert from <= end <= |content|;
    var part := content[from..end];
    forall q: nat | q <= |part| ensures !MarkerAt(part, m, q) {
      if MarkerAt(part, m, q) {
        SliceOfSlice(content, from, end, q, |m|);
        assert MarkerAt(content, m, from + q);
        assert false;
      }
    }
    part
  }

  lemma SliceOfSlice(s: string, from: nat, end: nat, q: nat, l: nat)
    requires from <= end <= |s| && q + l <= end - from
    ensures s[from + q..from + q + l] == s[from..end][q..q + l]
  {
    var a := s[from + q..from + q + l];
    var b := s[from..end][q..q + l];
    forall k | 0 <= k < l ensures a[k] == b[k] {
      assert a[k] == s[from + q + k];
      assert b[k] == s[from..end][q + k];
    }
  }

  /**
   * `inject_operator_into_source` on the file's text: with a marker, the
   * text before the first marker, the code, a blank line and the marker,
   * then the text up to a second marker (anything after it is lost);
   * without one, the code on lines of its own appended to the whole text.
   */
  function Inject(m: string, content: string, code: string): string
    requires |m| > 0
  {
    match FindMarker(content, m, 0)
    case None => content + "\n" + code + "\n"
    case Some(i) => Layout(m, content[..i], code, SecondPart(content, m, i))
  }

  /**
   * With a marker at its first position i, the text before i is kept, the
   * code follows, then a blank line and the marker, then the text after the
   * marker up to a second one.
   */
  lemma InjectWithMarker(m: string, content: string, code: string)
    requires |m| > 0 && FindMarker(content, m, 0).Some?
    ensures var i := FindMarker(content, m, 0).value;
      i <= |content| &&
      Inject(m, content, code) == content[..i] + code + "\n\n" + m + SecondPart(content, m, i)
  {
    var i := FindMarker(content, m, 0).value;
    var pre, post := content[..i], SecondPart(content, m, i);
    InjectShape(m, content, code);
    AppendAssoc(pre, code, "\n\n" + (m + post));
    AppendAssoc(pre + code, "\n\n", m + post);
    AppendAssoc(pre + code + "\n\n", m, post);
  }

  /** Without a marker the text is kept whole and the code follows it on a line of its own. */
  lemma InjectWithoutMarker(m: string, content: string, code: string)
    requires |m| > 0 && FindMarker(content, m, 0).None?
    ensures var r := Inject(m, content, code);
      |r| == |content| + |code| + 2 && r[..|content|] == content && r[|content|] == '\n' &&
      r[|content| + 1..|r| - 1] == code && r[|r| - 1] == '\n'
  {
    var r := Inject(m, content, code);
    assert r[..|content|] == content;
    assert r[|content| + 1..|r| - 1] == code;
  }

  /** Code that cannot finish a marker begun by the text before it: empty, or its first character is not one of the marker's after the first. */
  predicate StartsClear(code: string, m: string)
  {
    |code| == 0 || forall k :: 1 <= k < |m| ==> m[k] != code[0]
  }

  lemma WindowChar(s: string, m: string, q: nat, t: nat)
    requires MarkerAt(s, m, q) && q <= t < q + |m|
    ensures s[t] == m[t - q]
  {
    assert s[q..q + |m|][t - q] == s[t];
  }

  /** The layout of an injection into a text holding a marker. */
  lemma InjectShape(m: string, content: string, code: string)
    requires |m| > 0 && FindMarker(content, m, 0).Some?
    ensures var i := FindMarker(content, m, 0).value;
      Inject(m, content, code) == Layout(m, content[..i], code, SecondPart(content, m, i))
  {
  }

  lemma MarkerInFront(x: string, y: string, m: string, q: nat)
    requires MarkerAt(x + y, m, q) && q + |m| <= |x|
    ensures MarkerAt(x, m, q)
  {
    assert (x + y)[q..q + |m|] == x[q..q + |m|];
  }

  lemma MarkerInBack(x: string, y: string, m: string, q: nat)
    requires MarkerAt(x + y, m, q) && q >= |x|
    ensures MarkerAt(y, m, q - |x|)
  {
    assert (x + y)[q..q + |m|] == y[q - |x|..q - |x| + |m|];
  }

  /** No occurrence of a good marker covers a newline. */
  lemma NotAcrossNewline(s: string, m: string, q: nat, t: nat)
    requires GoodMarker(m) && MarkerAt(s, m, q) && q <= t < q + |m|
    ensures s[t] != '\n'
  {
    WindowChar(s, m, q, t);
  }

  /** What an injection builds: the text before the marker, the code, a blank line, the marker, the text after it. */
  function Layout(m: string, pre: string, code: string, post: string): string
  {
    pre + (code + ("\n\n" + (m + post)))
  }

  lemma OccursNotInPre(m: string, pre: string, code: string, post: string, q: nat)
    requires NoMarker(pre, m) && q + |m| <= |pre|
    ensures !MarkerAt(Layout(m, pre, code, post), m, q)
  {
    if MarkerAt(Layout(m, pre, code, post), m, q) {
      MarkerInFront(pre, code + ("\n\n" + (m + post)), m, q);
    }
  }

  lemma OccursNotAcrossCode(m: string, pre: string, code: string, post: string, q: nat)
    requires GoodMarker(m) && StartsClear(code, m) && q < |pre| < q + |m|
    ensures !MarkerAt(Layout(m, pre, code, post), m, q)
  {
    var r := Layout(m, pre, code, post);
    if MarkerAt(r, m, q) {
      WindowChar(r, m, q, |pre|);
    }
  }

  lemma OccursNotInCode(m: string, pre: string, code: string, post: string, q: nat)
    requires NoMarker(code, m) && |pre| <= q && q + |m| <= |pre| + |code|
    ensures !MarkerAt(Layout(m, pre, code, post), m, q)
  {
    if MarkerAt(Layout(m, pre, code, post), m, q) {
      MarkerInBack(pre, code + ("\n\n" + (m + post)), m, q);
      MarkerInFront(code, "\n\n" + (m + post), m, q - |pre|);
    }
  }

  lemma OccursNotOnBlank(m: string, pre: string, code: string, post: string, q: nat)
    requires GoodMarker(m) && q < |pre| + |code| + 2 && |pre| + |code| < q + |m|
    ensures !MarkerAt(Layout(m, pre, code, post), m, q)
  {
    var r := Layout(m, pre, code, post);
    var c := |pre| + |code|;
    var t := if q < c then c else q;
    if MarkerAt(r, m, q) {
      assert r[t] == '\n';
      NotAcrossNewline(r, m, q, t);
    }
  }

  lemma OccursNotAfter(m: string, pre: string, code: string, post: string, q: nat)
    requires GoodMarker(m) && NoMarker(post, m) && q > |pre| + |code| + 2
    ensures !MarkerAt(Layout(m, pre, code, post), m, q)
  {
    var k := q - (|pre| + |code| + 2);
    MarkerShift(pre, code + ("\n\n" + (m + post)), m, q);
    MarkerShift(code, "\n\n" + (m + post), m, q - |pre|);
    MarkerShift("\n\n", m + post, m, k + 2);
    if k < |m| {
      NotInsideMarker(m, post, k);
    } else {
      MarkerShift(m, post, m, k);
    }
  }

  /** Past the front part, an occurrence in the whole is one in the back part. */
  lemma MarkerShift(x: string, y: string, m: string, q: nat)
    requires q >= |x|
    ensures MarkerAt(x + y, m, q) <==> MarkerAt(y, m, q - |x|)
  {
    if q + |m| <= |x + y| {
      assert (x + y)[q..q + |m|] == y[q - |x|..q - |x| + |m|];
    }
  }

  /** A good marker does not recur inside itself. */
  lemma NotInsideMarker(m: string, post: string, k: nat)
    requires GoodMarker(m) && 0 < k < |m|
    ensures !MarkerAt(m + post, m, k)
  {
    if MarkerAt(m + post, m, k) {
      WindowChar(m + post, m, k, k);
    }
  }

  /** The layout holds its marker once, when none of its parts holds one and the code cannot complete one. */
  lemma LayoutOneMarker(m: string, pre: string, code: string, post: string)
    requires GoodMarker(m) && NoMarker(pre, m) && NoMarker(code, m) && StartsClear(code, m) && NoMarker(post, m)
    ensures var r := Layout(m, pre, code, post); var p := |pre| + |code| + 2;
      MarkerAt(r, m, p) && forall q: nat :: MarkerAt(r, m, q) ==> q == p
  {
    var r := Layout(m, pre, code, post);
    var p := |pre| + |code| + 2;
    assert r[p..p + |m|] == m;
    forall q: nat | q != p ensures !MarkerAt(r, m, q) {
      if q + |m| <= |pre| {
        OccursNotInPre(m, pre, code, post, q);
      } else if q < |pre| {
        OccursNotAcrossCode(m, pre, code, post, q);
      } else if q + |m| <= |pre| + |code| {
        OccursNotInCode(m, pre, code, post, q);
      } else if q < p {
        OccursNotOnBlank(m, pre, code, post, q);
      } else {
        OccursNotAfter(m, pre, code, post, q);
      }
    }
  }

  /** The text before the first marker holds none. */
  lemma BeforeFirstNoMarker(content: string, m: string)
    requires |m| > 0 && FindMarker(content, m, 0).Some?
    ensures NoMarker(content[..FindMarker(content, m, 0).value], m)
  {
    var i := FindMarker(content, m, 0).value;
    var pre := content[..i];
    forall q: nat | q <= |pre| ensures !MarkerAt(pre, m, q) {
      if MarkerAt(pre, m, q) {
        assert content[q..q + |m|] == pre[q..q + |m|];
        assert MarkerAt(content, m, q);
      }
    }
  }

  /**
   * After an injection into a text holding a marker, the result holds
   * exactly one marker, right after the code and its blank line, provided
   * the code holds none and cannot complete one begun before it.
   */
  lemma InjectOneMarker(m: string, content: string, code: string)
    requires GoodMarker(m)
    requires FindMarker(content, m, 0).Some?
    requires NoMarker(code, m) && StartsClear(code, m)
    ensures var r := Inject(m, content, code); var p := FindMarker(content, m, 0).value + |code| + 2;
      MarkerAt(r, m, p) && forall q: nat :: MarkerAt(r, m, q) ==> q == p
  {
    var i := FindMarker(content, m, 0).value;
    InjectShape(m, content, code);
    BeforeFirstNoMarker(content, m);
    LayoutOneMarker(m, content[..i], code, SecondPart(content, m, i));
  }

  /**
   * Two injections in a row put the second operator after the first, both
   * in front of the marker, and keep what followed the marker.
   */
  lemma LayoutParts(m: string, pre: string, code: string, post: string)
    ensures var r := Layout(m, pre, code, post); var p := |pre| + |code| + 2;
      |r| == p + |m| + |post| && r[..p] == pre + code + "\n\n" && r[p + |m|..] == post
  {
    var r := Layout(m, pre, code, post);
    var p := |pre| + |code| + 2;
    assert r == (pre + code + "\n\n") + (m + post);
  }

  /** The part after the marker of a text holding it exactly once. */
  lemma SecondPartOfOnly(r: string, m: string, p: nat)
    requires MarkerAt(r, m, p) && forall q: nat :: MarkerAt(r, m, q) ==> q == p
    requires |m| > 0
    ensures FindMarker(r, m, 0) == Some(p) && SecondPart(r, m, p) == r[p + |m|..]
  {
    assert FindMarker(r, m, p + |m|).None?;
  }

  lemma InjectTwice(m: string, content: string, code1: string, code2: string)
    requires GoodMarker(m)
    requires FindMarker(content, m, 0).Some?
    requires NoMarker(code1, m) && StartsClear(code1, m)
    ensures var i := FindMarker(content, m, 0).value;
      Inject(m, Inject(m, content, code1), code2) ==
        Layout(m, content[..i] + code1 + "\n\n", code2, SecondPart(content, m, i))
  {
    var i := FindMarker(content, m, 0).value;
    var pre := content[..i];
    var post := SecondPart(content, m, i);
    var r1 := Inject(m, content, code1);
    var p := i + |code1| + 2;
    var head := pre + code1 + "\n\n";
    assert r1[..p] == head by {
      InjectShape(m, content, code1);
      LayoutParts(m, pre, code1, post);
    }
    assert Inject(m, r1, code2) == Layout(m, r1[..p], code2, post) by {
      InjectedMarker(m, content, code1, r1, p, post);
      InjectAfter(m, r1, code2, p, post);
    }
  }

  /** After one injection the only marker is the one behind the code, followed by the old second part. */
  lemma InjectedMarker(m: string, content: string, code: string, r: string, p: nat, post: string)
    requires GoodMarker(m)
    requires FindMarker(content, m, 0).Some?
    requires NoMarker(code, m) && StartsClear(code, m)
    requires r == Inject(m, content, code) && p == FindMarker(content, m, 0).value + |code| + 2
    requires post == SecondPart(content, m, FindMarker(content, m, 0).value)
    ensures FindMarker(r, m, 0) == Some(p) && SecondPart(r, m, p) == post
  {
    var i := FindMarker(content, m, 0).value;
    InjectOneMarker(m, content, code);
    InjectShape(m, content, code);
    LayoutParts(m, content[..i], code, post);
    SecondPartOfOnly(r, m, p);
  }

  lemma InjectAfter(m: string, r: string, code: string, p: nat, post: string)
    requires |m| > 0 && FindMarker(r, m, 0) == Some(p) && SecondPart(r, m, p) == post
    ensures Inject(m, r, code) == Layout(m, r[..p], code, post)
  {
  }


  /**
   * Without StartsClear a second marker appears: for a marker m = h + t, the
   * text h + m holds m once, and injecting the code t before it completes
   * the marker h + t at the start as well.
   */
  lemma SecondMarkerCounterexample(m: string)
    requires GoodMarker(m) && |m| >= 2
    ensures var content := m[..1] + m; var code := m[1..];
      NoMarker(code, m) && FindMarker(content, m, 0) == Some(1) &&
      MarkerAt(Inject(m, content, code), m, 0) && MarkerAt(Inject(m, content, code), m, |m| + 2)
  {
    var content := m[..1] + m;
    var code := m[1..];
    assert content[..1] == m[..1];
    CounterexampleFind(m);
    InjectShape(m, content, code);
    CounterexampleLayout(m, SecondPart(content, m, 1));
  }

  /** In h + m the marker m = h + t first occurs at 1. */
  lemma CounterexampleFind(m: string)
    requires GoodMarker(m) && |m| >= 2
    ensures FindMarker(m[..1] + m, m, 0) == Some(1)
  {
    var content := m[..1] + m;
    assert content[1..1 + |m|] == m;
    assert !MarkerAt(content, m, 0) by {
      if MarkerAt(content, m, 0) {
        WindowChar(content, m, 0, 1);
      }
    }
  }

  /** Injecting t in front of the marker, after h, spells the marker twice. */
  lemma CounterexampleLayout(m: string, post: string)
    requires |m| >= 1
    ensures var r := Layout(m, m[..1], m[1..], post);
      MarkerAt(r, m, 0) && MarkerAt(r, m, |m| + 2)
  {
    var r := Layout(m, m[..1], m[1..], post);
    assert m[..1] + m[1..] == m;
    assert r == m + "\n\n" + m + post;
    assert r[..|m|] == m;
    assert r[|m| + 2..|m| + 2 + |m|] == m;
  }

  /** The four operator kinds `generate_new_operator` chooses among at random. */
  datatype OpType = Amplifier | Damper | Resonator | Meta

  function TypeName(t: OpType): (s: string)
    ensures |s| > 0 && forall k :: 0 <= k < |s| ==> 'a' <= s[k] <= 'z'
  {
    match t
    case Amplifier => "amplifier"
    case Damper => "damper"
    case Resonator => "resonator"
    case Meta => "meta"
  }

  /** The operator's name: `generated_<type>_<number>`. */
  function OperatorName(t: OpType, num: nat): string
  {
    "generated_" + TypeName(t) + "_" + ToDecimal(num)
  }

  /** The numbers as the f-strings format them: Φ and the random factor or threshold. */
  datatype Formatted = Formatted(phi: string, factor: string)

  /** The docstring and body lines of each kind, after the `def` line. */
  function BodyText(t: OpType, iteration: nat, f: Formatted): (b: string)
    ensures |b| > 0 && b[|b| - 1] == '}'
  {
    var doc := " (iter " + ToDecimal(iteration) + ", \U{03A6}=" + f.phi + ")\"\"\"\n";
    match t
    case Amplifier =>
      "    \"\"\"Auto-generated amplifier" + " - increases activation" + doc +
      "    return {k: min(v * " + f.factor + ", 1.0) for k, v in state.items()}"
    case Damper =>
      "    \"\"\"Auto-generated damper" + " - stabilizes fluctuations" + doc +
      "    return {k: v * " + f.factor + " for k, v in state.items()}"
    case Resonator =>
      "    \"\"\"Auto-generated resonator" + " - creates coherence" + doc +
      "    avg = sum(state.values())" + " / len(state)\n" +
      "    return {k: v * 0.600 + avg * 0.400" + " for k, v in state.items()}"
    case Meta =>
      "    \"\"\"Auto-generated meta-operator" + " - self-observing" + doc +
      "    total = sum(state.values())\n" +
      "    factor = 1.200 if total > " + f.factor + " else 0.900\n" +
      "    return {k: v * factor" + " for k, v in state.items()}"
  }

  function DefLine(name: string): string
  {
    "def " + name + "(state):\n"
  }

  lemma StripFramed(x: string)
    requires |x| > 0 && !IsSpace(x[0]) && !IsSpace(x[|x| - 1])
    ensures Strip("\n" + x + "\n") == x
  {
    var s := "\n" + x + "\n";
    assert s[1..] == x + "\n";
    assert StripLeft(x + "\n") == x + "\n";
    assert StripLeft(s) == x + "\n";
    assert (x + "\n")[..|x|] == x;
    assert StripRight(x) == x;
  }

  /**
   * `generate_new_operator`: the operator is numbered by the count of
   * operators so far plus the iteration, its code is the stripped f-string
   * of its kind and opens by defining the returned name.
   */
  function GenerateNewOperator(t: OpType, operatorCount: nat, iteration: nat, f: Formatted): (r: (string, string))
    ensures r.1 == OperatorName(t, operatorCount + iteration)
    ensures |r.0| > |DefLine(r.1)| && r.0[..|DefLine(r.1)|] == DefLine(r.1)
  {
    var name := OperatorName(t, operatorCount + iteration);
    var x := DefLine(name) + BodyText(t, iteration, f);
    StripFramed(x);
    var code := Strip("\n" + x + "\n");
    assert code[..|DefLine(name)|] == DefLine(name);
    (code, name)
  }

  predicate NoHash(s: string)
  {
    forall k :: 0 <= k < |s| ==> s[k] != '#'
  }

  lemma NoHashConcat(a: string, b: string)
    requires NoHash(a) && NoHash(b)
    ensures NoHash(a + b)
  {
    assert forall k :: |a| <= k < |a| + |b| ==> (a + b)[k] == b[k - |a|];
  }

  lemma Concat3(a: string, b: string, c: string)
    requires NoHash(a) && NoHash(b) && NoHash(c)
    ensures NoHash(a + b + c)
  {
    NoHashConcat(a, b);
    NoHashConcat(a + b, c);
  }

  /** Text without `#` holds no occurrence of a marker that starts with `#`. */
  lemma NoHashNoMarker(s: string, m: string)
    requires NoHash(s) && |m| > 0 && m[0] == '#'
    ensures NoMarker(s, m)
  {
    forall i: nat | i <= |s| ensures !MarkerAt(s, m, i) {
      if MarkerAt(s, m, i) {
        WindowChar(s, m, i, i);
      }
    }
  }

  /** The fixed pieces of the templates hold no `#`, kind by kind. */
  lemma AmplifierPiecesNoHash()
    ensures NoHash("    \"\"\"Auto-generated amplifier")
    ensures NoHash(" - increases activation")
    ensures NoHash("    return {k: min(v * ")
    ensures NoHash(", 1.0) for k, v in state.items()}")
  {
  }

  lemma DamperPiecesNoHash()
    ensures NoHash("    \"\"\"Auto-generated damper")
    ensures NoHash(" - stabilizes fluctuations")
    ensures NoHash("    return {k: v * ")
    ensures NoHash(" for k, v in state.items()}")
  {
  }

  lemma ResonatorPiecesNoHash()
    ensures NoHash("    \"\"\"Auto-generated resonator")
    ensures NoHash(" - creates coherence")
    ensures NoHash("    avg = sum(state.values())")
    ensures NoHash(" / len(state)\n")
    ensures NoHash("    return {k: v * 0.600 + avg * 0.400")
  {
  }

  lemma MetaPiecesNoHash()
    ensures NoHash("    \"\"\"Auto-generated meta-operator")
    ensures NoHash(" - self-observing")
    ensures NoHash("    total = sum(state.values())\n")
    ensures NoHash("    factor = 1.200 if total > ")
    ensures NoHash(" else 0.900\n")
    ensures NoHash("    return {k: v * factor")
  {
  }

  lemma CommonPiecesNoHash()
    ensures NoHash(" (iter ")
    ensures NoHash(", \U{03A6}=")
    ensures NoHash(")\"\"\"\n")
    ensures NoHash("def ")
    ensures NoHash("(state):\n")
    ensures NoHash("generated_")
    ensures NoHash("_")
  {
  }

  lemma PiecesNoHash()
    ensures NoHash("    \"\"\"Auto-generated amplifier")
    ensures NoHash(" - increases activation")
    ensures NoHash("    return {k: min(v * ")
    ensures NoHash(", 1.0) for k, v in state.items()}")
    ensures NoHash("    \"\"\"Auto-generated damper")
    ensures NoHash(" - stabilizes fluctuations")
    ensures NoHash("    return {k: v * ")
    ensures NoHash(" for k, v in state.items()}")
    ensures NoHash("    \"\"\"Auto-generated resonator")
    ensures NoHash(" - creates coherence")
    ensures NoHash("    avg = sum(state.values())")
    ensures NoHash(" / len(state)\n")
    ensures NoHash("    return {k: v * 0.600 + avg * 0.400")
    ensures NoHash("    \"\"\"Auto-generated meta-operator")
    ensures NoHash(" - self-observing")
    ensures NoHash("    total = sum(state.values())\n")
    ensures NoHash("    factor = 1.200 if total > ")
    ensures NoHash(" else 0.900\n")
    ensures NoHash("    return {k: v * factor")
    ensures NoHash(" (iter ")
    ensures NoHash(", \U{03A6}=")
    ensures NoHash(")\"\"\"\n")
    ensures NoHash("def ")
    ensures NoHash("(state):\n")
    ensures NoHash("generated_")
    ensures NoHash("_")
  {
    AmplifierPiecesNoHash();
    DamperPiecesNoHash();
    ResonatorPiecesNoHash();
    MetaPiecesNoHash();
    CommonPiecesNoHash();
  }

  lemma BodyNoHash(t: OpType, iteration: nat, f: Formatted)
    requires NoHash(f.phi) && NoHash(f.factor)
    ensures NoHash(BodyText(t, iteration, f))
  {
    PiecesNoHash();
    var doc := " (iter " + ToDecimal(iteration) + ", \U{03A6}=" + f.phi + ")\"\"\"\n";
    assert NoHash(doc) by {
      Concat3(" (iter ", ToDecimal(iteration), ", \U{03A6}=");
      Concat3(" (iter " + ToDecimal(iteration) + ", \U{03A6}=", f.phi, ")\"\"\"\n");
    }
    match t
    case Amplifier =>
      var a := "    \"\"\"Auto-generated amplifier" + " - increases activation" + doc;
      assert NoHash(a) by { Concat3("    \"\"\"Auto-generated amplifier", " - increases activation", doc); }
      Concat3(a, "    return {k: min(v * ", f.factor);
      NoHashConcat(a + "    return {k: min(v * " + f.factor, ", 1.0) for k, v in state.items()}");
    case Damper =>
      var a := "    \"\"\"Auto-generated damper" + " - stabilizes fluctuations" + doc;
      assert NoHash(a) by { Concat3("    \"\"\"Auto-generated damper", " - stabilizes fluctuations", doc); }
      Concat3(a, "    return {k: v * ", f.factor);
      NoHashConcat(a + "    return {k: v * " + f.factor, " for k, v in state.items()}");
    case Resonator =>
      var a := "    \"\"\"Auto-generated resonator" + " - creates coherence" + doc;
      assert NoHash(a) by { Concat3("    \"\"\"Auto-generated resonator", " - creates coherence", doc); }
      Concat3(a, "    avg = sum(state.values())", " / len(state)\n");
      var b := a + "    avg = sum(state.values())" + " / len(state)\n";
      Concat3(b, "    return {k: v * 0.600 + avg * 0.400", " for k, v in state.items()}");
    case Meta =>
      var a := "    \"\"\"Auto-generated meta-operator" + " - self-observing" + doc;
      assert NoHash(a) by { Concat3("    \"\"\"Auto-generated meta-operator", " - self-observing", doc); }
      Concat3(a, "    total = sum(state.values())\n", "    factor = 1.200 if total > ");
      var b := a + "    total = sum(state.values())\n" + "    factor = 1.200 if total > ";
      Concat3(b, f.factor, " else 0.900\n");
      var c := b + f.factor + " else 0.900\n";
      Concat3(c, "    return {k: v * factor", " for k, v in state.items()}");
  }

  /**
   * Generated code is always safe to inject: with formatted numbers free of
   * `#` it holds no marker, and it starts with `d`, which the marker does
   * not contain.
   */
  lemma GeneratedCodeInjectable(t: OpType, operatorCount: nat, iteration: nat, f: Formatted)
    requires NoHash(f.phi) && NoHash(f.factor)
    ensures var code := GenerateNewOperator(t, operatorCount, iteration, f).0;
      NoMarker(code, Marker) && StartsClear(code, Marker)
  {
    var x := GeneratedText(t, operatorCount, iteration, f);
    GeneratedIsText(t, operatorCount, iteration, f);
    TextNoHash(t, operatorCount, iteration, f);
    NoHashNoMarker(x, Marker);
    MarkerHasNoD();
  }

  /** The generated text before stripping, without its framing newlines. */
  function GeneratedText(t: OpType, operatorCount: nat, iteration: nat, f: Formatted): (x: string)
    ensures |x| > 0 && x[0] == 'd'
  {
    DefLine(OperatorName(t, operatorCount + iteration)) + BodyText(t, iteration, f)
  }

  lemma GeneratedIsText(t: OpType, operatorCount: nat, iteration: nat, f: Formatted)
    ensures GenerateNewOperator(t, operatorCount, iteration, f).0 == GeneratedText(t, operatorCount, iteration, f)
  {
    StripFramed(GeneratedText(t, operatorCount, iteration, f));
  }

  lemma TextNoHash(t: OpType, operatorCount: nat, iteration: nat, f: Formatted)
    requires NoHash(f.phi) && NoHash(f.factor)
    ensures NoHash(GeneratedText(t, operatorCount, iteration, f))
  {
    var name := OperatorName(t, operatorCount + iteration);
    CommonPiecesNoHash();
    assert NoHash(name) by {
      Concat3("generated_", TypeName(t), "_");
      NoHashConcat("generated_" + TypeName(t) + "_", ToDecimal(operatorCount + iteration));
    }
    Concat3("def ", name, "(state):\n");
    BodyNoHash(t, iteration, f);
    NoHashConcat(DefLine(name), BodyText(t, iteration, f));
  }

  lemma MarkerHasNoD()
    ensures forall k :: 0 <= k < |Marker| ==> Marker[k] != 'd'
  {
  }

  lemma UnderscoreAt(t: string, d: string, k: nat)
    requires k <= |t|
    ensures (t + "_" + d)[k] == if k < |t| then t[k] else '_'
  {
  }

  lemma LettersThenUnderscore(t1: string, d1: string, t2: string, d2: string)
    requires forall k :: 0 <= k < |t1| ==> 'a' <= t1[k] <= 'z'
    requires forall k :: 0 <= k < |t2| ==> 'a' <= t2[k] <= 'z'
    requires t1 + "_" + d1 == t2 + "_" + d2
    ensures t1 == t2 && d1 == d2
  {
    var s := t1 + "_" + d1;
    var s2 := t2 + "_" + d2;
    if |t1| < |t2| {
      UnderscoreAt(t1, d1, |t1|);
      assert false;
    } else if |t2| < |t1| {
      UnderscoreAt(t2, d2, |t2|);
      assert false;
    } else {
      assert t1 == s[..|t1|] && t2 == s2[..|t2|];
      assert d1 == s[|t1| + 1..] && d2 == s2[|t2| + 1..];
    }
  }

  /** A name tells both the kind and the number of its operator. */
  lemma OperatorNameInjective(t1: OpType, n1: nat, t2: OpType, n2: nat)
    requires OperatorName(t1, n1) == OperatorName(t2, n2)
    ensures t1 == t2 && n1 == n2
  {
    var s1 := TypeName(t1) + "_" + ToDecimal(n1);
    var s2 := TypeName(t2) + "_" + ToDecimal(n2);
    assert OperatorName(t1, n1)[10..] == s1;
    assert OperatorName(t2, n2)[10..] == s2;
    LettersThenUnderscore(TypeName(t1), ToDecimal(n1), TypeName(t2), ToDecimal(n2));
    ToDecimalInjective(n1, n2);
  }

  /** One entry of `self.modifications`; the timestamp is not modelled. */
  datatype Modification = Modification(iteration: nat, operator: string, phi: real, coherence: real)

  /** `SelfModifyingOAGI` with the operators file's text in place of the file. */
  datatype Engine = Engine(iteration: nat, operators: seq<string>, modifications: seq<Modification>, content: string)

  /**
   * What one iteration draws: Φ and coherence, the chance that lets a low
   * Φ generate anyway, the kind, the formatted numbers, and whether the
   * file could be read and written.
   */
  datatype Draws = Draws(phi: real, coherence: real, chance: real, kind: OpType, text: Formatted, fileOk: bool)

  /** `should_generate`. */
  predicate ShouldGenerate(d: Draws)
  {
    d.phi > 0.6 || d.chance < 0.4
  }

  /**
   * `run_iteration`: the counter advances; a generated operator that is
   * injected is recorded in `operators` and `modifications`; the drawn Φ
   * and coherence are returned.
   */
  function RunIteration(e: Engine, d: Draws): (r: (Engine, (real, real)))
    ensures r.0.iteration == e.iteration + 1 && r.1 == (d.phi, d.coherence)
    ensures ShouldGenerate(d) && d.fileOk ==>
      var name := OperatorName(d.kind, |e.operators| + e.iteration + 1);
      r.0.operators == e.operators + [name] &&
      r.0.modifications == e.modifications + [Modification(e.iteration + 1, name, d.phi, d.coherence)]
    ensures !(ShouldGenerate(d) && d.fileOk) ==> r.0 == e.(iteration := e.iteration + 1)
  {
    var it := e.iteration + 1;
    if ShouldGenerate(d) && d.fileOk then
      var (code, name) := GenerateNewOperator(d.kind, |e.operators|, it, d.text);
      (Engine(it, e.operators + [name], e.modifications + [Modification(it, name, d.phi, d.coherence)], Inject(Marker, e.content, code)),
       (d.phi, d.coherence))
    else (e.(iteration := it), (d.phi, d.coherence))
  }

  /** The operator is named for its number. */
  ghost predicate NamedFor(name: string, num: nat)
  {
    exists t: OpType :: name == OperatorName(t, num)
  }

  /**
   * The book-keeping iterations keep: one modification per operator, in
   * step; the iterations they record increase and do not pass the counter;
   * operator i is numbered i plus its iteration.
   */
  ghost predicate Recorded(iteration: nat, ops: seq<string>, mods: seq<Modification>)
  {
    |mods| == |ops| &&
    (forall i :: 0 <= i < |ops| ==>
      mods[i].operator == ops[i] && 1 <= mods[i].iteration <= iteration &&
      NamedFor(ops[i], i + mods[i].iteration)) &&
    (forall i, j :: 0 <= i < j < |ops| ==> mods[i].iteration < mods[j].iteration)
  }

  /** What iterations keep: the book-keeping, and exactly one marker in the file. */
  ghost predicate Valid(e: Engine)
  {
    Recorded(e.iteration, e.operators, e.modifications) && ExactlyOneMarker(e.content, Marker)
  }

  lemma NewEngineValid(content: string)
    requires ExactlyOneMarker(content, Marker)
    ensures Valid(Engine(0, [], [], content))
  {
  }

  lemma FirstMarker(s: string, m: string)
    requires ExactlyOneMarker(s, m)
    ensures FindMarker(s, m, 0).Some?
  {
    var p: nat :| MarkerAt(s, m, p);
  }

  /** s holds no character c. */
  predicate Lacks(s: string, c: char)
  {
    forall k :: 0 <= k < |s| ==> s[k] != c
  }

  lemma LacksConcat(a: string, b: string, c: char)
    requires Lacks(a, c) && Lacks(b, c)
    ensures Lacks(a + b, c)
  {
    assert forall k :: |a| <= k < |a| + |b| ==> (a + b)[k] == b[k - |a|];
  }

  /**
   * A text pre + m + rest holds m exactly once when the character m[j]
   * occurs nowhere in it but at m's own position j.
   */
  lemma OneMarkerBySingleChar(pre: string, m: string, rest: string, j: nat)
    requires j < |m| && Lacks(pre, m[j]) && Lacks(m[..j], m[j]) && Lacks(m[j + 1..], m[j]) && Lacks(rest, m[j])
    ensures ExactlyOneMarker(pre + m + rest, m)
  {
    var s := pre + m + rest;
    var p := |pre|;
    assert s[p..p + |m|] == m;
    assert MarkerAt(s, m, p);
    forall q: nat | MarkerAt(s, m, q) ensures q == p {
      WindowChar(s, m, q, q + j);
    }
  }

  /** The pieces are concatenated in order. */
  function Concat(pieces: seq<string>): string
  {
    if |pieces| == 0 then "" else pieces[0] + Concat(pieces[1..])
  }

  lemma {:induction false} ConcatLacks(pieces: seq<string>, c: char)
    requires forall i :: 0 <= i < |pieces| ==> Lacks(pieces[i], c)
    ensures Lacks(Concat(pieces), c)
  {
    if |pieces| > 0 {
      ConcatLacks(pieces[1..], c);
      LacksConcat(pieces[0], Concat(pieces[1..]), c);
    }
  }

  /** The lines of the operators file `_init_operators_file` writes, up to its marker, cut into short pieces. */
  const InitialPieces: seq<string> := [
    "\"\"\"\nAuto-generated OAGI Operators\n",
    "This file is created and modified by ",
    "OAGI at runtime\n\"\"\"\n\n# Base operators\n",
    "def base_reflect(state):\n",
    "    \"\"\"Reflection operator - ",
    "increases self-awareness\"\"\"\n",
    "    return {k: v * 0.9 + 0.1 ",
    "for k, v in state.items()}\n\n",
    "def base_integrate(state):\n",
    "    \"\"\"Integration operator - ",
    "unifies distributed info\"\"\"\n",
    "    avg = sum(state.values()) / len(state)\n",
    "    return {k: (v + avg) / 2 ",
    "for k, v in state.items()}\n\n",
    "# Generated operators will be added below\n"]

  /** What follows the marker on its line. */
  const MarkerLineRest: string := " - Do not remove this line\n"

  /** `_init_operators_file`: the text of a fresh operators file. */
  function InitialContent(): string
  {
    Concat(InitialPieces) + Marker + MarkerLineRest
  }

  lemma FirstPiecesLackM()
    ensures Lacks("\"\"\"\nAuto-generated OAGI Operators\n", 'M')
    ensures Lacks("This file is created and modified by ", 'M')
    ensures Lacks("OAGI at runtime\n\"\"\"\n\n# Base operators\n", 'M')
    ensures Lacks("def base_reflect(state):\n", 'M')
  {
  }

  lemma SecondPiecesLackM()
    ensures Lacks("    \"\"\"Reflection operator - ", 'M')
    ensures Lacks("increases self-awareness\"\"\"\n", 'M')
    ensures Lacks("    return {k: v * 0.9 + 0.1 ", 'M')
    ensures Lacks("for k, v in state.items()}\n\n", 'M')
    ensures Lacks("# Generated operators will be added below\n", 'M')
  {
  }

  lemma ThirdPiecesLackM()
    ensures Lacks("def base_integrate(state):\n", 'M')
    ensures Lacks("    \"\"\"Integration operator - ", 'M')
    ensures Lacks("unifies distributed info\"\"\"\n", 'M')
    ensures Lacks("    avg = sum(state.values()) / len(state)\n", 'M')
  {
  }

  lemma LastPiecesLackM()
    ensures Lacks("    return {k: (v + avg) / 2 ", 'M')
    ensures Lacks(" - Do not remove this line\n", 'M')
    ensures Lacks("for k, v in state.items()}\n\n", 'M')
  {
  }

  lemma PrefixLacksM()
    ensures Lacks(Concat(InitialPieces), 'M')
  {
    forall i | 0 <= i < |InitialPieces| ensures Lacks(InitialPieces[i], 'M') {
      FirstPiecesLackM();
      SecondPiecesLackM();
      ThirdPiecesLackM();
      LastPiecesLackM();
    }
    ConcatLacks(InitialPieces, 'M');
  }

  lemma MarkerSingleM()
    ensures |Marker| == 19 && Marker[13] == 'M' && Lacks(Marker[..13], 'M') && Lacks(Marker[14..], 'M')
  {
    assert Marker[..13] == "# GENERATION_";
    assert Marker[14..] == "ARKER";
  }

  /** A fresh operators file holds the marker exactly once. */
  lemma InitialContentOneMarker()
    ensures ExactlyOneMarker(InitialContent(), Marker)
  {
    PrefixLacksM();
    MarkerSingleM();
    LastPiecesLackM();
    OneMarkerBySingleChar(Concat(InitialPieces), Marker, MarkerLineRest, 13);
  }

  /** So an engine starting on a fresh operators file is valid. */
  lemma InitialEngineValid()
    ensures Valid(Engine(0, [], [], InitialContent()))
  {
    InitialContentOneMarker();
    NewEngineValid(InitialContent());
  }

  /** Injecting a generated operator into a text with exactly one marker leaves exactly one marker. */
  lemma InjectGeneratedKeepsMarker(content: string, t: OpType, count: nat, iteration: nat, f: Formatted)
    requires ExactlyOneMarker(content, Marker)
    requires NoHash(f.phi) && NoHash(f.factor)
    ensures ExactlyOneMarker(Inject(Marker, content, GenerateNewOperator(t, count, iteration, f).0), Marker)
  {
    var code := GenerateNewOperator(t, count, iteration, f).0;
    GeneratedCodeInjectable(t, count, iteration, f);
    FirstMarker(content, Marker);
    MarkerGood();
    InjectOneMarker(Marker, content, code);
  }

  /** Appending an operator named for its number, at the next iteration, keeps the book-keeping. */
  lemma RecordedAppend(iteration: nat, ops: seq<string>, mods: seq<Modification>, name: string, phi: real, coherence: real)
    requires Recorded(iteration, ops, mods)
    requires NamedFor(name, |ops| + iteration + 1)
    ensures Recorded(iteration + 1, ops + [name], mods + [Modification(iteration + 1, name, phi, coherence)])
  {
    var m := Modification(iteration + 1, name, phi, coherence);
    RecordedExtend(iteration, ops, mods, ops + [name], mods + [m]);
  }

  /** The book-keeping extended by one operator of the next iteration, stated index by index. */
  lemma RecordedExtend(iteration: nat, ops: seq<string>, mods: seq<Modification>, ops': seq<string>, mods': seq<Modification>)
    requires Recorded(iteration, ops, mods)
    requires |ops'| == |ops| + 1 && |mods'| == |ops'|
    requires forall i :: 0 <= i < |ops| ==> ops'[i] == ops[i] && mods'[i] == mods[i]
    requires mods'[|ops|].operator == ops'[|ops|] && mods'[|ops|].iteration == iteration + 1
    requires NamedFor(ops'[|ops|], |ops| + iteration + 1)
    ensures Recorded(iteration + 1, ops', mods')
  {
    NamesExtend(ops, mods, ops', mods');
    forall i | 0 <= i < |ops'|
      ensures mods'[i].operator == ops'[i] && 1 <= mods'[i].iteration <= iteration + 1
    {
      if i < |ops| {
        assert ops'[i] == ops[i] && mods'[i] == mods[i];
      }
    }
    forall i, j | 0 <= i < j < |ops'|
      ensures mods'[i].iteration < mods'[j].iteration
    {
      assert mods'[i] == mods[i];
      if j < |ops| {
        assert mods'[j] == mods[j];
      }
    }
  }

  /** The numbering of names carries over to an extension that numbers its new name. */
  lemma NamesExtend(ops: seq<string>, mods: seq<Modification>, ops': seq<string>, mods': seq<Modification>)
    requires |mods| == |ops| && |ops'| == |ops| + 1 && |mods'| == |ops'|
    requires forall i :: 0 <= i < |ops| ==> NamedFor(ops[i], i + mods[i].iteration)
    requires forall i :: 0 <= i < |ops| ==> ops'[i] == ops[i] && mods'[i] == mods[i]
    requires NamedFor(ops'[|ops|], |ops| + mods'[|ops|].iteration)
    ensures forall i :: 0 <= i < |ops'| ==> NamedFor(ops'[i], i + mods'[i].iteration)
  {
    forall i | 0 <= i < |ops'|
      ensures NamedFor(ops'[i], i + mods'[i].iteration)
    {
      if i < |ops| {
        assert ops'[i] == ops[i] && mods'[i] == mods[i];
      }
    }
  }

  /** Every iteration keeps the engine valid, as long as the formatted numbers hold no `#`. */
  lemma RunIterationValid(e: Engine, d: Draws)
    requires Valid(e)
    requires NoHash(d.text.phi) && NoHash(d.text.factor)
    ensures Valid(RunIteration(e, d).0)
  {
    if ShouldGenerate(d) && d.fileOk {
      GeneratingKeepsValid(e, d);
    } else {
      SkippingKeepsValid(e);
    }
  }

  lemma GeneratingKeepsValid(e: Engine, d: Draws)
    requires Valid(e) && ShouldGenerate(d) && d.fileOk
    requires NoHash(d.text.phi) && NoHash(d.text.factor)
    ensures Valid(RunIteration(e, d).0)
  {
    var name, content := GeneratedPieces(e, d);
    AppendedValid(e, name, d.phi, d.coherence, content, RunIteration(e, d).0);
  }

  /** An engine that appends an operator named for its number, with one marker in its file, is valid. */
  lemma AppendedValid(e: Engine, name: string, phi: real, coherence: real, content: string, e2: Engine)
    requires Valid(e) && NamedFor(name, |e.operators| + e.iteration + 1) && ExactlyOneMarker(content, Marker)
    requires e2 == Engine(e.iteration + 1, e.operators + [name], e.modifications + [Modification(e.iteration + 1, name, phi, coherence)], content)
    ensures Valid(e2)
  {
    RecordedAppend(e.iteration, e.operators, e.modifications, name, phi, coherence);
  }

  /** A generating iteration appends an operator named for its number and leaves one marker in the file. */
  lemma GeneratedPieces(e: Engine, d: Draws) returns (name: string, content: string)
    requires ExactlyOneMarker(e.content, Marker) && ShouldGenerate(d) && d.fileOk
    requires NoHash(d.text.phi) && NoHash(d.text.factor)
    ensures RunIteration(e, d).0 == Engine(e.iteration + 1, e.operators + [name], e.modifications + [Modification(e.iteration + 1, name, d.phi, d.coherence)], content)
    ensures NamedFor(name, |e.operators| + e.iteration + 1) && ExactlyOneMarker(content, Marker)
  {
    name, content := InjectedOperator(e.content, d.kind, |e.operators|, e.iteration + 1, d.text);
    GeneratingShape(e, d, name, content);
  }

  /** The name of a generated operator, and the text after injecting its code. */
  lemma InjectedOperator(content0: string, t: OpType, count: nat, iteration: nat, f: Formatted) returns (name: string, content: string)
    requires ExactlyOneMarker(content0, Marker)
    requires NoHash(f.phi) && NoHash(f.factor)
    ensures name == GenerateNewOperator(t, count, iteration, f).1
    ensures content == Inject(Marker, content0, GenerateNewOperator(t, count, iteration, f).0)
    ensures NamedFor(name, count + iteration) && ExactlyOneMarker(content, Marker)
  {
    var g := GenerateNewOperator(t, count, iteration, f);
    name, content := g.1, Inject(Marker, content0, g.0);
    InjectGeneratedKeepsMarker(content0, t, count, iteration, f);
    assert name == OperatorName(t, count + iteration);
  }

  /** What a generating iteration builds. */
  lemma GeneratingShape(e: Engine, d: Draws, name: string, content: string)
    requires ShouldGenerate(d) && d.fileOk
    requires name == GenerateNewOperator(d.kind, |e.operators|, e.iteration + 1, d.text).1
    requires content == Inject(Marker, e.content, GenerateNewOperator(d.kind, |e.operators|, e.iteration + 1, d.text).0)
    ensures RunIteration(e, d).0 == Engine(e.iteration + 1, e.operators + [name], e.modifications + [Modification(e.iteration + 1, name, d.phi, d.coherence)], content)
  {
  }

  /** An iteration that generates nothing only advances the counter. */
  lemma SkippingKeepsValid(e: Engine)
    requires Valid(e)
    ensures Valid(e.(iteration := e.iteration + 1))
  {
  }

  /** Operators recorded by a valid engine have pairwise different names. */
  lemma ValidNamesDistinct(e: Engine)
    requires Valid(e)
    ensures forall i, j :: 0 <= i < j < |e.operators| ==> e.operators[i] != e.operators[j]
  {
    forall i, j | 0 <= i < j < |e.operators| ensures e.operators[i] != e.operators[j] {
      var ni := i + e.modifications[i].iteration;
      var nj := j + e.modifications[j].iteration;
      var ti: OpType :| e.operators[i] == OperatorName(ti, ni);
      var tj: OpType :| e.operators[j] == OperatorName(tj, nj);
      if e.operators[i] == e.operators[j] {
        OperatorNameInjective(ti, ni, tj, nj);
      }
    }
  }
}
