/**
 * Sum, mean, minimum and maximum of a list of reals: the summaries the
 * encoders and the storage layer report. Python floats are modelled as reals.
 */
module RealStats {

  function Sum(xs: seq<real>): real
  {
    if |xs| == 0 then 0.0 else xs[0] + Sum(xs[1..])
  }

  /** Python's `min`: an element no larger than any other. */
  function Min(xs: seq<real>): (m: real)
    requires |xs| > 0
    ensures m in xs
    ensures forall i :: 0 <= i < |xs| ==> m <= xs[i]
  {
    if |xs| == 1 then xs[0]
    else
      var rest := Min(xs[1..]);
      assert forall i :: 1 <= i < |xs| ==> xs[i] == xs[1..][i - 1];
      if xs[0] <= rest then xs[0] else rest
  }

  /** Python's `max`: an element no smaller than any other. */
  function Max(xs: seq<real>): (m: real)
    requires |xs| > 0
    ensures m in xs
    ensures forall i :: 0 <= i < |xs| ==> xs[i] <= m
  {
    if |xs| == 1 then xs[0]
    else
      var rest := Max(xs[1..]);
      assert forall i :: 1 <= i < |xs| ==> xs[i] == xs[1..][i - 1];
      if xs[0] >= rest then xs[0] else rest
  }

  function Mean(xs: seq<real>): real
    requires |xs| > 0
  {
    Sum(xs) / (|xs| as real)
  }

  /** Number of elements strictly above t. */
  function CountAbove(xs: seq<real>, t: real): (c: nat)
    ensures c <= |xs|
  {
    if |xs| == 0 then 0 else (if xs[0] > t then 1 else 0) + CountAbove(xs[1..], t)
  }

  /** The positions of the elements strictly above t. */
  function Above(xs: seq<real>, t: real): set<int>
  {
    set i | 0 <= i < |xs| && xs[i] > t
  }

  /** CountAbove counts exactly the positions whose element exceeds t. */
  lemma {:induction false} CountAboveExact(xs: seq<real>, t: real)
    ensures CountAbove(xs, t) == |Above(xs, t)|
    decreases |xs|
  {
    if |xs| > 0 {
      CountAboveSnoc(xs, t);
      CountAboveExact(xs[..|xs| - 1], t);
      AboveSnoc(xs, t);
    }
  }

  /** Counting from the back. */
  lemma {:induction false} CountAboveSnoc(xs: seq<real>, t: real)
    requires |xs| > 0
    ensures CountAbove(xs, t) == CountAbove(xs[..|xs| - 1], t) + (if xs[|xs| - 1] > t then 1 else 0)
    decreases |xs|
  {
    if |xs| > 1 {
      CountAboveSnoc(xs[1..], t);
      assert xs[1..][..|xs| - 2] == xs[..|xs| - 1][1..];
    }
  }

  /** The last element adds its own position to the set, or nothing. */
  lemma AboveSnoc(xs: seq<real>, t: real)
    requires |xs| > 0
    ensures |Above(xs, t)| == |Above(xs[..|xs| - 1], t)| + (if xs[|xs| - 1] > t then 1 else 0)
  {
    var last := |xs| - 1;
    var front := xs[..last];
    var added := if xs[last] > t then {last} else {};
    assert Above(xs, t) == Above(front, t) + added by {
      forall i | i in Above(xs, t) ensures i in Above(front, t) + added {
        if i < last {
          assert front[i] == xs[i];
        }
      }
      forall i | i in Above(front, t) ensures i in Above(xs, t) {
        assert front[i] == xs[i];
      }
    }
    assert last !in Above(front, t);
  }

  lemma {:induction false} SumBounds(xs: seq<real>, lo: real, hi: real)
    requires forall i :: 0 <= i < |xs| ==> lo <= xs[i] <= hi
    ensures (|xs| as real) * lo <= Sum(xs) <= (|xs| as real) * hi
  {
    if |xs| > 0 {
      assert forall i :: 0 <= i < |xs[1..]| ==> xs[1..][i] == xs[i + 1];
      SumBounds(xs[1..], lo, hi);
    }
  }

  /** The mean lies between the minimum and the maximum. */
  lemma MeanBetween(xs: seq<real>)
    requires |xs| > 0
    ensures Min(xs) <= Mean(xs) <= Max(xs)
  {
    MeanInRange(xs, Min(xs), Max(xs));
  }

  /** A mean of values in [lo, hi] is in [lo, hi]. */
  lemma MeanInRange(xs: seq<real>, lo: real, hi: real)
    requires |xs| > 0
    requires forall i :: 0 <= i < |xs| ==> lo <= xs[i] <= hi
    ensures lo <= Mean(xs) <= hi
  {
    SumBounds(xs, lo, hi);
    var n := |xs| as real;
    assert lo == (n * lo) / n;
    assert hi == (n * hi) / n;
  }

  /** Population variance: the mean squared distance from the mean. */
  function Variance(xs: seq<real>): (v: real)
    requires |xs| > 0
    ensures v >= 0.0
  {
    var m := Mean(xs);
    SquaresNonNegative(xs, m);
    Sum(SquaredDeviations(xs, m)) / (|xs| as real)
  }

  function SquaredDeviations(xs: seq<real>, m: real): (r: seq<real>)
    ensures |r| == |xs|
    ensures forall i :: 0 <= i < |xs| ==> r[i] == (xs[i] - m) * (xs[i] - m)
  {
    if |xs| == 0 then [] else [(xs[0] - m) * (xs[0] - m)] + SquaredDeviations(xs[1..], m)
  }

  lemma SquaresNonNegative(xs: seq<real>, m: real)
    ensures Sum(SquaredDeviations(xs, m)) >= 0.0
  {
    SumNonNegative(SquaredDeviations(xs, m));
  }

  lemma {:induction false} SumNonNegative(xs: seq<real>)
    requires forall i :: 0 <= i < |xs| ==> 0.0 <= xs[i]
    ensures Sum(xs) >= 0.0
  {
    if |xs| > 0 {
      assert forall i :: 0 <= i < |xs[1..]| ==> xs[1..][i] == xs[i + 1];
      SumNonNegative(xs[1..]);
    }
  }

  /** A count out of n, as a fraction of n, lies in [0, 1]. */
  lemma RatioInUnit(c: nat, n: nat)
    requires 0 < n && c <= n
    ensures 0.0 <= (c as real) / (n as real) <= 1.0
  {
    var q := (c as real) / (n as real);
    assert q * (n as real) == c as real;
  }
}
