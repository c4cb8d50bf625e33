/**
 * The list operators of the self-modifying core (oagi_v20_1_self_mod.py):
 * pure transformations of a pattern, a Python list of arbitrary items; the
 * inverted triangle built from a pattern; and the iclone-loop detector.
 *
 * Items are integers, strings or anything else (floats, nested lists),
 * which these operators pass through untouched.
 */
module PatternOps {
  import SeqFacts
  import opened Wrappers
  import Arith

  datatype Item = Int(n: int) | Str(s: string) | Other(tag: nat)

  type Pattern = seq<Item>

  /** Python's `[::-1]` and `reversed`. */
  function Reverse<T>(p: seq<T>): (r: seq<T>)
    ensures |r| == |p|
    ensures forall i :: 0 <= i < |p| ==> r[i] == p[|p| - 1 - i]
  {
    if |p| == 0 then [] else [p[|p| - 1]] + Reverse(p[..|p| - 1])
  }

  lemma ReverseInvolution<T>(p: seq<T>)
    ensures Reverse(Reverse(p)) == p
  {
  }

  lemma {:induction false} ReverseMultiset<T>(p: seq<T>)
    ensures multiset(Reverse(p)) == multiset(p)
  {
    if |p| > 0 {
      var init, last := p[..|p| - 1], p[|p| - 1];
      ReverseMultiset(init);
      assert p == init + [last];
      assert multiset(Reverse(p)) == multiset{last} + multiset(Reverse(init));
    }
  }

  // ---- The base operators ----

  /** `reflect`: `p[::-1]`. */
  function Reflect(p: Pattern): (r: Pattern)
    ensures r == Reverse(p)
  {
    Reverse(p)
  }

  /** `twist`: the items of `reversed(p)` one by one. */
  function Twist(p: Pattern): (r: Pattern)
    ensures |r| == |p|
    ensures forall i :: 0 <= i < |p| ==> r[i] == p[|p| - 1 - i]
  {
    seq(|p|, i requires 0 <= i < |p| => p[|p| - 1 - i])
  }

  /** `obvert`: `list(reversed(p))`. */
  function Obvert(p: Pattern): (r: Pattern)
    ensures |r| == |p|
    ensures multiset(r) == multiset(p)
  {
    if |p| == 0 then []
    else
      assert p == [p[0]] + p[1..];
      Obvert(p[1..]) + [p[0]]
  }

  /** Reflect, twist and obvert are three spellings of reversal, and reflecting twice changes nothing. */
  lemma ReversalsAgree(p: Pattern)
    ensures Twist(p) == Reflect(p) && Obvert(p) == Reflect(p)
    ensures Reflect(Reflect(p)) == p
  {
    ObvertReverses(p);
    assert Obvert(p) == Reverse(p);
    assert Twist(p) == Reverse(p);
    ReverseInvolution(p);
  }

  /** Item i of `obvert` is item |p| - 1 - i of the pattern. */
  lemma {:induction false} ObvertReverses(p: Pattern)
    ensures forall i :: 0 <= i < |p| ==> Obvert(p)[i] == p[|p| - 1 - i]
  {
    if |p| > 0 {
      ObvertReverses(p[1..]);
      assert Obvert(p) == Obvert(p[1..]) + [p[0]];
      forall i | 0 <= i < |p| ensures Obvert(p)[i] == p[|p| - 1 - i] {
        if i < |p| - 1 {
          assert Obvert(p)[i] == Obvert(p[1..])[i] == p[1..][|p| - 2 - i];
        }
      }
    }
  }

  /** `fold`: the first half (rounded down) reversed, the rest kept. */
  function Fold(p: Pattern): (r: Pattern)
    ensures |r| == |p|
    ensures forall i :: 0 <= i < |p| / 2 ==> r[i] == p[|p| / 2 - 1 - i]
    ensures forall i :: |p| / 2 <= i < |p| ==> r[i] == p[i]
  {
    Reverse(p[..|p| / 2]) + p[|p| / 2..]
  }

  /** Folding moves items but neither adds nor drops any. */
  lemma FoldPermutes(p: Pattern)
    ensures multiset(Fold(p)) == multiset(p)
  {
    var h := |p| / 2;
    ReverseMultiset(p[..h]);
    assert p == p[..h] + p[h..];
  }

  /** `echo`: `p + p`. */
  function Echo(p: Pattern): (r: Pattern)
    ensures |r| == 2 * |p|
    ensures r[..|p|] == p && r[|p|..] == p
  {
    p + p
  }

  /** `spin`: the last item moved to the front; [] stays []. */
  function Spin(p: Pattern): (r: Pattern)
    ensures |r| == |p|
    ensures |p| > 0 ==> r[0] == p[|p| - 1] && forall i :: 0 <= i < |p| - 1 ==> r[i + 1] == p[i]
  {
    if |p| == 0 then [] else [p[|p| - 1]] + p[..|p| - 1]
  }

  function Spins(p: Pattern, k: nat): (r: Pattern)
    ensures |r| == |p|
  {
    if k == 0 then p else Spin(Spins(p, k - 1))
  }

  lemma SpinConcat(a: Pattern, b: Pattern)
    requires |b| > 0
    ensures Spin(a + b) == [b[|b| - 1]] + a + b[..|b| - 1]
  {
    assert (a + b)[..|a + b| - 1] == a + b[..|b| - 1];
  }

  /** Spinning k times, for k up to the length, moves the last k items to the front. */
  lemma {:induction false} SpinsRotate(p: Pattern, k: nat)
    requires k <= |p|
    ensures Spins(p, k) == p[|p| - k..] + p[..|p| - k]
  {
    var n := |p|;
    if k == 0 {
      assert p[n..] + p[..n] == p;
    } else {
      SpinsRotate(p, k - 1);
      RotateStep(p, k, Spins(p, k - 1));
    }
  }

  /** One spin turns the rotation by k - 1 into the rotation by k. */
  lemma RotateStep(p: Pattern, k: nat, q: Pattern)
    requires 0 < k <= |p| && q == p[|p| - k + 1..] + p[..|p| - k + 1]
    ensures Spin(q) == p[|p| - k..] + p[..|p| - k]
  {
    var n := |p|;
    var a := p[n - k + 1..];
    var b := p[..n - k + 1];
    SpinConcat(a, b);
    assert b[|b| - 1] == p[n - k];
    assert b[..|b| - 1] == p[..n - k];
    assert p[n - k..] == [p[n - k]] + a;
  }

  /** Spinning a pattern as many times as it has items gives it back. */
  lemma SpinCycle(p: Pattern)
    ensures Spins(p, |p|) == p
  {
    SpinsRotate(p, |p|);
    assert p[0..] == p && p[..0] == [];
  }

  /** `flip`: every string reversed, other items kept. */
  function Flip(p: Pattern): (r: Pattern)
    ensures |r| == |p|
    ensures forall i :: 0 <= i < |p| ==> (p[i].Str? <==> r[i].Str?) && (!p[i].Str? ==> r[i] == p[i])
    ensures forall i :: 0 <= i < |p| && p[i].Str? ==> r[i] == Str(Reverse(p[i].s))
  {
    seq(|p|, i requires 0 <= i < |p| => if p[i].Str? then Str(Reverse(p[i].s)) else p[i])
  }

  lemma FlipInvolution(p: Pattern)
    ensures Flip(Flip(p)) == p
  {
    forall i | 0 <= i < |p| ensures Flip(Flip(p))[i] == p[i] {
      if p[i].Str? {
        ReverseInvolution(p[i].s);
      }
    }
  }

  /** `cut`: the first half, rounded down. */
  function Cut(p: Pattern): (r: Pattern)
    ensures |r| == |p| / 2 && r + p[|p| / 2..] == p
  {
    p[..|p| / 2]
  }

  /** `jump`: `p[::2]`, the items at even positions. */
  function Jump(p: Pattern): (r: Pattern)
    ensures |r| == (|p| + 1) / 2
    ensures forall i :: 0 <= i < |r| ==> r[i] == p[2 * i]
  {
    if |p| == 0 then []
    else if |p| == 1 then [p[0]]
    else [p[0]] + Jump(p[2..])
  }

  /** `invert`: `~x` (that is -x - 1) on integers, other items kept. */
  function Invert(p: Pattern): (r: Pattern)
    ensures |r| == |p|
    ensures forall i :: 0 <= i < |p| ==> (p[i].Int? <==> r[i].Int?) && (!p[i].Int? ==> r[i] == p[i])
    ensures forall i :: 0 <= i < |p| && p[i].Int? ==> r[i] == Int(-p[i].n - 1)
  {
    seq(|p|, i requires 0 <= i < |p| => if p[i].Int? then Int(-p[i].n - 1) else p[i])
  }

  lemma InvertInvolution(p: Pattern)
    ensures Invert(Invert(p)) == p
  {
  }

  /** `observe`. */
  function Observe(p: Pattern): (r: Pattern)
    ensures |r| == |p| + 1 && r[0] == Str("observed") && r[1..] == p
  {
    [Str("observed")] + p
  }

  /** `collapse`: the first item alone, or nothing. */
  function Collapse(p: Pattern): (r: Pattern)
    ensures |p| == 0 ==> r == []
    ensures |p| > 0 ==> r == p[..1]
  {
    if |p| > 0 then [p[0]] else []
  }

  /** `entangle`: the pattern, a marker, the pattern again. */
  function Entangle(p: Pattern): (r: Pattern)
    ensures |r| == 2 * |p| + 1
    ensures r[..|p|] == p && r[|p|] == Str("entangled") && r[|p| + 1..] == p
  {
    p + [Str("entangled")] + p
  }

  /** `mirror`: a marker, then the pattern reversed. */
  function Mirror(p: Pattern): (r: Pattern)
    ensures |r| == |p| + 1 && r[0] == Str("mirror")
    ensures forall i :: 1 <= i <= |p| ==> r[i] == p[|p| - i]
  {
    [Str("mirror")] + Reverse(p)
  }

  /** Reading a mirror image back to front, without its marker, gives the pattern. */
  lemma MirrorRestores(p: Pattern)
    ensures Reverse(Mirror(p)[1..]) == p
  {
    assert Mirror(p)[1..] == Reverse(p);
    ReverseInvolution(p);
  }

  // ---- integrate ----

  /** Alternate the items of left and right, starting with left; the longer list's surplus goes last. */
  function Interleave(left: Pattern, right: Pattern): (r: Pattern)
    ensures |r| == |left| + |right|
  {
    if |left| == 0 then right
    else if |right| == 0 then left
    else [left[0], right[0]] + Interleave(left[1..], right[1..])
  }

  lemma {:induction false} InterleaveMultiset(left: Pattern, right: Pattern)
    ensures multiset(Interleave(left, right)) == multiset(left) + multiset(right)
  {
    if |left| > 0 && |right| > 0 {
      InterleaveMultiset(left[1..], right[1..]);
      SeqFacts.ConsParts1(left);
      SeqFacts.ConsParts1(right);
      var rest := Interleave(left[1..], right[1..]);
      assert multiset([left[0], right[0]] + rest) == multiset{left[0]} + multiset{right[0]} + multiset(rest);
    }
  }

  /** When left is not the longer list, its item i sits at 2i, right's item i at 2i + 1, and right's surplus follows. */
  lemma {:induction false} InterleaveIndex(left: Pattern, right: Pattern)
    requires |left| <= |right|
    ensures forall i :: 0 <= i < |left| ==> Interleave(left, right)[2 * i] == left[i]
    ensures forall i :: 0 <= i < |left| ==> Interleave(left, right)[2 * i + 1] == right[i]
    ensures forall i :: |left| <= i < |right| ==> Interleave(left, right)[|left| + i] == right[i]
  {
    if |left| > 0 {
      InterleaveIndex(left[1..], right[1..]);
      InterleaveStep(left, right, Interleave(left[1..], right[1..]));
    }
  }

  /** The positions of one interleaving step, from those of the interleaved tails. */
  lemma InterleaveStep(left: Pattern, right: Pattern, rest: Pattern)
    requires 0 < |left| <= |right| && |rest| == |left| + |right| - 2
    requires forall i :: 0 <= i < |left| - 1 ==> rest[2 * i] == left[1..][i]
    requires forall i :: 0 <= i < |left| - 1 ==> rest[2 * i + 1] == right[1..][i]
    requires forall i :: |left| - 1 <= i < |right| - 1 ==> rest[|left| - 1 + i] == right[1..][i]
    ensures var r := [left[0], right[0]] + rest;
      (forall i :: 0 <= i < |left| ==> r[2 * i] == left[i]) &&
      (forall i :: 0 <= i < |left| ==> r[2 * i + 1] == right[i]) &&
      (forall i :: |left| <= i < |right| ==> r[|left| + i] == right[i])
  {
    var r := [left[0], right[0]] + rest;
    forall i | 1 <= i < |left| ensures r[2 * i] == left[i] && r[2 * i + 1] == right[i] {
      var j := i - 1;
      assert r[2 * j + 2] == rest[2 * j] == left[1..][j];
      assert r[2 * j + 3] == rest[2 * j + 1] == right[1..][j];
    }
    forall i | |left| <= i < |right| ensures r[|left| + i] == right[i] {
      assert r[|left| + i] == rest[|left| - 1 + (i - 1)] == right[1..][i - 1];
    }
  }

  /**
   * `integrate`: patterns shorter than 2 unchanged; otherwise the two halves
   * (split at n // 2) interleaved, then the marker "integrated".
   */
  function Integrate(p: Pattern): (r: Pattern)
    ensures |p| < 2 ==> r == p
    ensures |p| >= 2 ==> |r| == |p| + 1 && r[|p|] == Str("integrated")
    ensures |p| >= 2 ==> forall i :: 0 <= i < |p| / 2 ==> r[2 * i] == p[i] && r[2 * i + 1] == p[|p| / 2 + i]
    ensures |p| >= 2 && |p| % 2 == 1 ==> r[|p| - 1] == p[|p| - 1]
  {
    if |p| < 2 then p
    else
      var mid := |p| / 2;
      InterleaveIndex(p[..mid], p[mid..]);
      Interleave(p[..mid], p[mid..]) + [Str("integrated")]
  }

  /** Integrating keeps every item exactly once and adds the marker. */
  lemma IntegratePermutes(p: Pattern)
    requires |p| >= 2
    ensures multiset(Integrate(p)) == multiset(p) + multiset{Str("integrated")}
  {
    var mid := |p| / 2;
    InterleaveMultiset(p[..mid], p[mid..]);
    assert p == p[..mid] + p[mid..];
  }

  // ---- inverse_of ----

  /** One item negated: integers change sign, strings get the prefix "not_", anything else stays. */
  function Negate(x: Item): (r: Item)
    ensures r.Int? <==> x.Int?
    ensures x.Int? ==> r.n + x.n == 0
    ensures x.Str? ==> r.Str? && |r.s| == |x.s| + 4 && r.s[..4] == "not_" && r.s[4..] == x.s
    ensures x.Other? ==> r == x
  {
    match x
    case Int(n) => Int(-n)
    case Str(s) => Str("not_" + s)
    case Other(_) => x
  }

  /** `inverse_of`: the marker "inverse", then every item negated. */
  function InverseOf(p: Pattern): (r: Pattern)
    ensures |r| == |p| + 1 && r[0] == Str("inverse")
    ensures forall i :: 0 <= i < |p| ==> r[i + 1] == Negate(p[i])
  {
    [Str("inverse")] + seq(|p|, i requires 0 <= i < |p| => Negate(p[i]))
  }

  /**
   * Applied twice, integers come back, strings carry "not_not_", other items
   * are unchanged, and the first marker is itself negated.
   */
  lemma InverseTwice(p: Pattern)
    ensures var r := InverseOf(InverseOf(p));
      |r| == |p| + 2 && r[0] == Str("inverse") && r[1] == Str("not_inverse") &&
      forall i :: 0 <= i < |p| ==>
        (p[i].Int? ==> r[i + 2] == p[i]) &&
        (p[i].Str? ==> r[i + 2] == Str("not_not_" + p[i].s)) &&
        (p[i].Other? ==> r[i + 2] == p[i])
  {
    var once := InverseOf(p);
    var r := InverseOf(once);
    forall i | 0 <= i < |p| ensures r[i + 2] == Negate(Negate(p[i])) {
      assert r[i + 2] == Negate(once[i + 1]);
    }
  }

  // ---- InvertedTrianglePattern ----

  /**
   * `_fold_to_layer`: a list no longer than the target is padded with "pad";
   * a longer one is cut into `target` chunks of n // target items, the last
   * taking the remainder, and each chunk is represented by its middle item.
   * A target of 0 for a non-empty list divides by zero (None).
   */
  function FoldToLayer(s: Pattern, target: nat): (r: Option<Pattern>)
    ensures r.None? <==> target == 0 && |s| > 0
    ensures r.Some? ==> |r.value| == target
    ensures r.Some? && |s| <= target ==> r.value[..|s|] == s && forall i :: |s| <= i < target ==> r.value[i] == Str("pad")
    ensures r.Some? && |s| > target ==> forall i :: 0 <= i < target ==> r.value[i] in s
  {
    if |s| <= target then Some(s + seq(target - |s|, _ => Str("pad")))
    else if target == 0 then None
    else
      var chunk := |s| / target;
      Some(seq(target, i requires 0 <= i < target => ChunkMiddle(s, target, chunk, i)))
  }

  /** The middle item of chunk i. */
  function ChunkMiddle(s: Pattern, target: nat, chunk: nat, i: nat): (x: Item)
    requires 0 < target < |s| && chunk == |s| / target && i < target
    ensures x in s
  {
    ChunkBounds(|s|, target, i);
    var start := i * chunk;
    var end := if i < target - 1 then start + chunk else |s|;
    s[start + (end - start) / 2]
  }

  lemma ChunkBounds(n: nat, target: nat, i: nat)
    requires 0 < target < n && i < target
    ensures 1 <= n / target
    ensures i * (n / target) + n / target <= n
  {
    var c := n / target;
    Arith.DivMulBound(n, target);
    Arith.MulLe(c, i + 1, target);
    assert c * (i + 1) == i * c + c;
    assert c * target == target * c;
  }

  datatype Triangle = Triangle(l0: Pattern, l1: Pattern, l2: Pattern)

  /** `InvertedTrianglePattern(base)`: the base (or ["void"]), folded to two items, then to one. */
  function MakeTriangle(base: Pattern): (t: Triangle)
    ensures t.l0 == if |base| == 0 then [Str("void")] else base
    ensures |t.l1| == 2 && |t.l2| == 1
    ensures forall i :: 0 <= i < 2 ==> t.l1[i] in t.l0 || t.l1[i] == Str("pad")
    ensures t.l2[0] in t.l1
  {
    var l0 := if |base| == 0 then [Str("void")] else base;
    var l1 := FoldToLayer(l0, 2).value;
    var l2 := FoldToLayer(l1, 1).value;
    (Triangle(l0, l1, l2))
  }

  /** `to_list`: the three layers in order, three items longer than the base layer. */
  function ToList(t: Triangle): (r: Pattern)
    ensures |r| == |t.l0| + |t.l1| + |t.l2|
    ensures r[..|t.l0|] == t.l0
    ensures r[|t.l0|..|t.l0| + |t.l1|] == t.l1
    ensures r[|t.l0| + |t.l1|..] == t.l2
    ensures |t.l1| == 2 && |t.l2| == 1 ==> |r| == |t.l0| + 3
  {
    t.l0 + t.l1 + t.l2
  }

  // ---- detect_iclone_loop ----

  /** What `detect_iclone_loop` reports, without the sine-derived fields. */
  datatype IcloneLoop = IcloneLoop(negIdx: nat, posIdx: nat, phaseOffset: real)

  function CountIclone(p: Pattern): (c: nat)
    ensures c <= |p|
  {
    if |p| == 0 then 0 else (if p[0] == Str("iclone") then 1 else 0) + CountIclone(p[1..])
  }

  /** The first position holding the integer v, if any. */
  function FirstIndexOf(p: Pattern, v: int): (r: Option<nat>)
    ensures r.None? <==> forall i :: 0 <= i < |p| ==> p[i] != Int(v)
    ensures r.Some? ==> r.value < |p| && p[r.value] == Int(v) && forall i :: 0 <= i < r.value ==> p[i] != Int(v)
  {
    if |p| == 0 then None
    else if p[0] == Int(v) then Some(0)
    else
      match FirstIndexOf(p[1..], v)
      case None => None
      case Some(k) => Some(k + 1)
  }

  lemma OffsetInUnit(d: nat, n: nat)
    requires 0 < d < n
    ensures 0.0 < (d as real) / (n as real) < 1.0
  {
    assert (d as real) < (n as real);
  }

  /**
   * `detect_iclone_loop`: a loop needs at least two "iclone" items, a -1 and a +1,
   * with the first -1 before the first +1; the phase offset is their
   * distance over the pattern length.
   */
  function DetectIcloneLoop(p: Pattern): (r: Option<IcloneLoop>)
    ensures r.Some? <==> (CountIclone(p) >= 2 && FirstIndexOf(p, -1).Some? && FirstIndexOf(p, 1).Some? &&
      FirstIndexOf(p, -1).value < FirstIndexOf(p, 1).value)
    ensures r.Some? ==>
      r.value.negIdx < r.value.posIdx < |p| && p[r.value.negIdx] == Int(-1) && p[r.value.posIdx] == Int(1) &&
      (forall i :: 0 <= i < r.value.negIdx ==> p[i] != Int(-1)) &&
      (forall i :: 0 <= i < r.value.posIdx ==> p[i] != Int(1)) &&
      0.0 < r.value.phaseOffset < 1.0 &&
      r.value.phaseOffset == ((r.value.posIdx - r.value.negIdx) as real) / (|p| as real)
  {
    if |p| == 0 then None
    else if CountIclone(p) < 2 then None
    else
      match (FirstIndexOf(p, -1), FirstIndexOf(p, 1))
      case (Some(neg), Some(pos)) =>
        if neg < pos then
          OffsetInUnit(pos - neg, |p|);
          Some(IcloneLoop(neg, pos, ((pos - neg) as real) / (|p| as real)))
        else None
      case _ => None
  }
}
