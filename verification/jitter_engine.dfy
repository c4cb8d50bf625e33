/**
 * The bit-level part of the harmonic jitter engine (oagi_jitter_engine.py):
 * timings become bits by comparison with a threshold, by default the upper
 * median; bits are combined by logic gates and a CNOT.
 *
 * The timings themselves come from the clock and are parameters.
 */
module JitterEngine {
  import opened Wrappers
  import opened Bytes
  import RealStats

  predicate Sorted(s: seq<real>)
  {
    forall i, j :: 0 <= i < j < |s| ==> s[i] <= s[j]
  }

  /** Insert x into a sorted list, before the first element not below it. */
  function InsertReal(x: real, s: seq<real>): (r: seq<real>)
    requires Sorted(s)
    ensures Sorted(r)
    ensures multiset(r) == multiset(s) + multiset{x}
  {
    if |s| == 0 then [x]
    else if x <= s[0] then [x] + s
    else
      var rest := InsertReal(x, s[1..]);
      assert s == [s[0]] + s[1..];
      HeadBelowRest(s[0], x, s[1..], rest);
      [s[0]] + rest
  }

  lemma HeadBelowRest(h: real, x: real, tail: seq<real>, rest: seq<real>)
    requires h < x && forall i :: 0 <= i < |tail| ==> h <= tail[i]
    requires Sorted(rest) && multiset(rest) == multiset(tail) + multiset{x}
    ensures Sorted([h] + rest)
  {
    forall i | 0 <= i < |rest| ensures h <= rest[i] {
      assert rest[i] in multiset(rest);
      if rest[i] != x {
        assert rest[i] in multiset(tail);
        var j :| 0 <= j < |tail| && tail[j] == rest[i];
      }
    }
  }

  /** Inserting x adds one to the count above t exactly when x is above t. */
  lemma {:induction false} InsertCountAbove(x: real, s: seq<real>, t: real)
    requires Sorted(s)
    ensures RealStats.CountAbove(InsertReal(x, s), t) == RealStats.CountAbove(s, t) + (if x > t then 1 else 0)
  {
    if |s| > 0 && x > s[0] {
      InsertCountAbove(x, s[1..], t);
      assert ([s[0]] + InsertReal(x, s[1..]))[1..] == InsertReal(x, s[1..]);
    }
  }

  /** Python's `sorted` on a list of floats. */
  function SortReals(xs: seq<real>): (r: seq<real>)
    ensures Sorted(r)
    ensures multiset(r) == multiset(xs)
    ensures |r| == |xs|
  {
    if |xs| == 0 then []
    else
      assert xs == [xs[0]] + xs[1..];
      InsertReal(xs[0], SortReals(xs[1..]))
  }

  /** Sorting does not change how many elements lie above any threshold. */
  lemma {:induction false} SortCountAbove(xs: seq<real>, t: real)
    ensures RealStats.CountAbove(SortReals(xs), t) == RealStats.CountAbove(xs, t)
  {
    if |xs| > 0 {
      SortCountAbove(xs[1..], t);
      InsertCountAbove(xs[0], SortReals(xs[1..]), t);
    }
  }

  /** The default threshold `sorted(timings)[len // 2]`, or the one given. */
  function Threshold(timings: seq<real>, threshold: Option<real>): real
    requires |timings| > 0
  {
    if threshold.Some? then threshold.value else SortReals(timings)[|timings| / 2]
  }

  /** `jitter_to_bits`: 1 exactly for the timings above the threshold. */
  function JitterToBits(timings: seq<real>, threshold: Option<real>): (bits: seq<bit>)
    ensures |timings| == 0 ==> bits == []
    ensures |bits| == |timings|
    ensures |timings| > 0 ==> forall i :: 0 <= i < |bits| ==> (bits[i] == 1 <==> timings[i] > Threshold(timings, threshold))
  {
    if |timings| == 0 then []
    else
      var t := Threshold(timings, threshold);
      seq(|timings|, i requires 0 <= i < |timings| => if timings[i] > t then 1 else 0)
  }

  function Ones(bits: seq<bit>): (n: nat)
    ensures n <= |bits|
  {
    if |bits| == 0 then 0 else bits[0] + Ones(bits[1..])
  }

  lemma {:induction false} OnesCountAbove(timings: seq<real>, t: real, bits: seq<bit>)
    requires |bits| == |timings|
    requires forall i :: 0 <= i < |bits| ==> (bits[i] == 1 <==> timings[i] > t)
    ensures Ones(bits) == RealStats.CountAbove(timings, t)
  {
    if |bits| > 0 {
      OnesCountAbove(timings[1..], t, bits[1..]);
    }
  }

  lemma {:induction false} CountAboveAppend(a: seq<real>, b: seq<real>, t: real)
    ensures RealStats.CountAbove(a + b, t) == RealStats.CountAbove(a, t) + RealStats.CountAbove(b, t)
  {
    if |a| > 0 {
      assert (a + b)[1..] == a[1..] + b;
      CountAboveAppend(a[1..], b, t);
    } else {
      assert a + b == b;
    }
  }

  lemma {:induction false} NoneAbove(s: seq<real>, t: real)
    requires forall i :: 0 <= i < |s| ==> s[i] <= t
    ensures RealStats.CountAbove(s, t) == 0
  {
    if |s| > 0 {
      NoneAbove(s[1..], t);
    }
  }

  /**
   * With the median threshold, the element at position n // 2 of the sorted
   * timings and all before it are not above it, so at most n - n // 2 - 1
   * bits are 1.
   */
  lemma MedianOnesBound(timings: seq<real>)
    requires |timings| > 0
    ensures Ones(JitterToBits(timings, None)) <= |timings| - |timings| / 2 - 1
  {
    var n := |timings|;
    var s := SortReals(timings);
    var m := n / 2;
    var t := s[m];
    OnesCountAbove(timings, t, JitterToBits(timings, None));
    SortCountAbove(timings, t);
    assert s == s[..m + 1] + s[m + 1..];
    CountAboveAppend(s[..m + 1], s[m + 1..], t);
    PrefixNotAbove(s, m, s[..m + 1]);
    NoneAbove(s[..m + 1], t);
  }

  /** In a sorted list nothing up to position m lies above the element at m. */
  lemma PrefixNotAbove(s: seq<real>, m: nat, prefix: seq<real>)
    requires Sorted(s) && m < |s| && prefix == s[..m + 1]
    ensures forall i :: 0 <= i < |prefix| ==> prefix[i] <= s[m]
  {
    forall i | 0 <= i < |prefix| ensures prefix[i] <= s[m] {
      assert prefix[i] == s[i];
    }
  }

  /** The gate names `harmonic_logic_gate` understands. */
  const GateNames: set<string> := {"AND", "OR", "XOR", "NAND", "NOR"}

  /** One gate on one pair of bits, as `&`, `|` and `^` act on 0 and 1. */
  function Gate(op: string, a: bit, b: bit): bit
    requires op in GateNames
  {
    match op
    case "AND" => a * b
    case "OR" => a + b - a * b
    case "XOR" => (a + b) % 2
    case "NAND" => 1 - a * b
    case _ => 1 - (a + b - a * b)
  }

  /**
   * `harmonic_logic_gate`: the named gate on each pair of bits up to the
   * shorter input; nothing for an unknown gate name.
   */
  function LogicGate(a: seq<bit>, b: seq<bit>, op: string): (r: seq<bit>)
    ensures op !in GateNames ==> r == []
    ensures op in GateNames ==> |r| == if |a| < |b| then |a| else |b|
    ensures op == "AND" ==> forall i :: 0 <= i < |r| ==> (r[i] == 1 <==> a[i] == 1 && b[i] == 1)
    ensures op == "OR" ==> forall i :: 0 <= i < |r| ==> (r[i] == 1 <==> a[i] == 1 || b[i] == 1)
    ensures op == "XOR" ==> forall i :: 0 <= i < |r| ==> (r[i] == 1 <==> a[i] != b[i])
    ensures op == "NAND" ==> forall i :: 0 <= i < |r| ==> (r[i] == 0 <==> a[i] == 1 && b[i] == 1)
    ensures op == "NOR" ==> forall i :: 0 <= i < |r| ==> (r[i] == 0 <==> a[i] == 1 || b[i] == 1)
  {
    if op !in GateNames then []
    else
      var n := if |a| < |b| then |a| else |b|;
      seq(n, i requires 0 <= i < n => Gate(op, a[i], b[i]))
  }

  /** NAND is the complement of AND and NOR the complement of OR, bit by bit. */
  lemma ComplementGates(a: seq<bit>, b: seq<bit>)
    ensures var and := LogicGate(a, b, "AND"); var nand := LogicGate(a, b, "NAND");
      |nand| == |and| && forall i :: 0 <= i < |and| ==> nand[i] == 1 - and[i]
    ensures var or := LogicGate(a, b, "OR"); var nor := LogicGate(a, b, "NOR");
      |nor| == |or| && forall i :: 0 <= i < |or| ==> nor[i] == 1 - or[i]
  {
  }

  /**
   * `harmonic_cnot_gate`: the control cut to the shorter length, and the
   * target with each position flipped (t to 1 - t) where the control is 1.
   */
  function Cnot(control: seq<int>, target: seq<int>): (r: (seq<int>, seq<int>))
    ensures var n := if |control| < |target| then |control| else |target|;
      r.0 == control[..n] && |r.1| == n &&
      forall i :: 0 <= i < n ==> r.1[i] == (if control[i] == 1 then 1 - target[i] else target[i])
  {
    var n := if |control| < |target| then |control| else |target|;
    (control[..n], seq(n, i requires 0 <= i < n => if control[i] == 1 then 1 - target[i] else target[i]))
  }

  /** Applying the CNOT twice with the same control gives back both inputs, cut to the shorter length. */
  lemma CnotInvolution(control: seq<int>, target: seq<int>)
    ensures var once := Cnot(control, target);
      var n := if |control| < |target| then |control| else |target|;
      Cnot(once.0, once.1) == (control[..n], target[..n])
  {
    var once := Cnot(control, target);
    var twice := Cnot(once.0, once.1);
    var n := if |control| < |target| then |control| else |target|;
    assert twice.0 == control[..n];
    assert twice.1 == target[..n];
  }

  /** A CNOT of bits yields bits. */
  lemma CnotKeepsBits(control: seq<int>, target: seq<int>)
    requires forall i :: 0 <= i < |target| ==> 0 <= target[i] <= 1
    ensures forall i :: 0 <= i < |Cnot(control, target).1| ==> 0 <= Cnot(control, target).1[i] <= 1
  {
  }
}
