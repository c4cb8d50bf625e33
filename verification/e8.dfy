/**
 * The root generator shared by qbc_e8.py and moonshine_lattice.py.
 *
 * Roots are generated as descriptors and given coordinates by Coord. Type 1
 * roots put signs s1, s2 at positions i < j. Only the sign pairs passing
 * `(s1 + s2) % 4 == 0` are kept. Type 2 roots have every coordinate
 * +1/2 or -1/2, read from the bits of a number below 256 with an even
 * number of set bits. The generator cuts the list at 240, but it has only
 * 184 entries, so the cut never applies.
 */
module E8 {
  import opened Arith
  import opened Bytes

  datatype Root = Integral(i: nat, j: nat, s1: int, s2: int) | HalfIntegral(signs: nat)

  /** The sign pairs in the order the generator tries them. */
  const SignPairs: seq<(int, int)> := [(-1, -1), (-1, 1), (1, -1), (1, 1)]

  /** Python's `(s1 + s2) % 4 == 0`: the modulus is positive, so Dafny's `%` agrees with Python's. */
  predicate KeepPair(p: (int, int))
  {
    (p.0 + p.1) % 4 == 0
  }

  function FilterPairs(ps: seq<(int, int)>): seq<(int, int)>
  {
    if |ps| == 0 then []
    else (if KeepPair(ps[0]) then [ps[0]] else []) + FilterPairs(ps[1..])
  }

  /** Only the two opposite-sign pairs pass the filter: -1 + -1 = -2 and 2 are 2 modulo 4. */
  lemma OnlyOppositeSigns()
    ensures FilterPairs(SignPairs) == [(-1, 1), (1, -1)]
  {
    assert SignPairs[1..][1..][1..][1..] == [];
  }

  function PairRoots(i: nat, j: nat, ps: seq<(int, int)>): (r: seq<Root>)
    ensures |r| == |ps|
    ensures forall k :: 0 <= k < |ps| ==> r[k] == Integral(i, j, ps[k].0, ps[k].1)
  {
    if |ps| == 0 then [] else [Integral(i, j, ps[0].0, ps[0].1)] + PairRoots(i, j, ps[1..])
  }

  /** The inner loops for a fixed i: positions j, j+1, ..., 7. */
  function Row(i: nat, j: nat): seq<Root>
    decreases 8 - j
  {
    if j >= 8 then [] else PairRoots(i, j, FilterPairs(SignPairs)) + Row(i, j + 1)
  }

  /** All type 1 roots with first position at least i. */
  function Integrals(i: nat): seq<Root>
    decreases 8 - i
  {
    if i >= 8 then [] else Row(i, i + 1) + Integrals(i + 1)
  }

  function Popcount(bs: seq<bit>): nat
  {
    if |bs| == 0 then 0 else bs[0] + Popcount(bs[1..])
  }

  predicate EvenParity(b: nat)
  {
    Popcount(LowBits(b, 8)) % 2 == 0
  }

  /** All type 2 roots from bit pattern b onwards. */
  function Halves(b: nat): seq<Root>
    decreases 256 - b
  {
    if b >= 256 then []
    else (if EvenParity(b) then [HalfIntegral(b)] else []) + Halves(b + 1)
  }

  /** Python's `roots[:limit]`. */
  function Take(all: seq<Root>, limit: nat): (r: seq<Root>)
    ensures |all| <= limit ==> r == all
  {
    if |all| > limit then all[..limit] else all
  }

  /** `_generate_e8_roots`: type 1 then type 2, cut at 240. */
  function Roots(): seq<Root>
  {
    Take(Integrals(0) + Halves(0), 240)
  }

  /** Coordinate k of a root. */
  function Coord(r: Root, k: nat): real
  {
    match r
    case Integral(i, j, s1, s2) =>
      if k == i then s1 as real else if k == j then s2 as real else 0.0
    case HalfIntegral(b) =>
      if k < 8 && LowBits(b, 8)[k] == 1 then 0.5 else -0.5
  }

  /** The eight coordinates of a root. */
  function Coords(r: Root): (v: seq<real>)
    ensures |v| == 8
    ensures forall k :: 0 <= k < 8 ==> v[k] == Coord(r, k)
  {
    seq(8, k requires 0 <= k < 8 => Coord(r, k))
  }

  /** Sum of squares of v[k..]. */
  function SumSquares(v: seq<real>, k: nat): real
    decreases |v| - k
  {
    if k >= |v| then 0.0 else v[k] * v[k] + SumSquares(v, k + 1)
  }

  /** `np.dot(root, root)`. */
  function Weight(r: Root): real
  {
    SumSquares(Coords(r), 0)
  }

  /** A descriptor the generator can produce. */
  predicate Valid(r: Root)
  {
    match r
    case Integral(i, j, s1, s2) => i < j < 8 && (s1 == -1 || s1 == 1) && (s2 == -1 || s2 == 1)
    case HalfIntegral(b) => b < 256
  }

  // ---- Counting ----

  lemma {:induction false} RowLength(i: nat, j: nat)
    requires j <= 8
    ensures |Row(i, j)| == 2 * (8 - j)
    decreases 8 - j
  {
    OnlyOppositeSigns();
    if j < 8 {
      RowLength(i, j + 1);
    }
  }

  lemma {:induction false} IntegralsLength(i: nat)
    requires i <= 8
    ensures |Integrals(i)| == (8 - i) * (7 - i)
    decreases 8 - i
  {
    if i < 8 {
      RowLength(i, i + 1);
      IntegralsLength(i + 1);
      assert (8 - i) * (7 - i) == 2 * (7 - i) + (7 - i) * (6 - i);
    }
  }

  /** An even pattern and its successor have opposite parities. */
  lemma ParityFlip(b: nat)
    requires b % 2 == 0
    ensures EvenParity(b) <==> !EvenParity(b + 1)
  {
    assert LowBits(b, 8)[1..] == LowBits(b / 2, 7);
    assert LowBits(b + 1, 8)[1..] == LowBits((b + 1) / 2, 7);
    assert (b + 1) / 2 == b / 2;
  }

  lemma {:induction false} HalvesLength(b: nat)
    requires b <= 256 && b % 2 == 0
    ensures |Halves(b)| == (256 - b) / 2
    decreases 256 - b
  {
    if b < 256 {
      ParityFlip(b);
      HalvesLength(b + 2);
      assert Halves(b + 1) == (if EvenParity(b + 1) then [HalfIntegral(b + 1)] else []) + Halves(b + 2);
    }
  }

  lemma IntegralCount()
    ensures |Integrals(0)| == 56
  {
    IntegralsLength(0);
  }

  lemma HalfCount()
    ensures |Halves(0)| == 128
  {
    HalvesLength(0);
  }

  /** 56 type 1 roots and 128 type 2 roots: the cut at 240 never applies. */
  lemma RootCount()
    ensures Roots() == Integrals(0) + Halves(0)
    ensures |Roots()| == 184
  {
    IntegralCount();
    HalfCount();
  }

  /** The size of the root table alone. */
  lemma RootTotal()
    ensures |Roots()| == 184
  {
    RootCount();
  }

  // ---- Every root is valid and has squared norm 2 ----

  lemma {:induction false} RowValid(i: nat, j: nat)
    requires i < j
    ensures forall r :: r in Row(i, j) ==> Valid(r) && r.Integral? && r.i == i && j <= r.j
    decreases 8 - j
  {
    OnlyOppositeSigns();
    if j < 8 {
      RowValid(i, j + 1);
    }
  }

  lemma {:induction false} IntegralsValid(i: nat)
    ensures forall r :: r in Integrals(i) ==> Valid(r) && r.Integral? && i <= r.i
    decreases 8 - i
  {
    if i < 8 {
      RowValid(i, i + 1);
      IntegralsValid(i + 1);
    }
  }

  lemma {:induction false} HalvesValid(b: nat)
    ensures forall r :: r in Halves(b) ==> r.HalfIntegral? && b <= r.signs < 256
    decreases 256 - b
  {
    if b < 256 {
      HalvesValid(b + 1);
    }
  }

  lemma RootsValid()
    ensures forall r :: r in Roots() ==> Valid(r)
  {
    RootCount();
    IntegralsValid(0);
    HalvesValid(0);
  }

  lemma {:induction false} IntegralSumSquares(r: Root, k: nat)
    requires Valid(r) && r.Integral? && k <= 8
    ensures SumSquares(Coords(r), k) == (if k <= r.i then 1.0 else 0.0) + (if k <= r.j then 1.0 else 0.0)
    decreases 8 - k
  {
    if k < 8 {
      IntegralSumSquares(r, k + 1);
    }
  }

  lemma {:induction false} HalfSumSquares(r: Root, k: nat)
    requires Valid(r) && r.HalfIntegral? && k <= 8
    ensures SumSquares(Coords(r), k) == 0.25 * ((8 - k) as real)
    decreases 8 - k
  {
    if k < 8 {
      HalfSumSquares(r, k + 1);
    }
  }

  /** Every generated root has squared norm 2, so every lattice weight is 2.0. */
  lemma WeightTwo(r: Root)
    requires Valid(r)
    ensures Weight(r) == 2.0
  {
    if r.Integral? {
      IntegralSumSquares(r, 0);
    } else {
      HalfSumSquares(r, 0);
    }
  }

  lemma AllWeightsTwo()
    ensures forall r :: r in Roots() ==> Weight(r) == 2.0
  {
    RootsValid();
    forall r | r in Roots() ensures Weight(r) == 2.0 {
      WeightTwo(r);
    }
  }

  // ---- Distinct roots have distinct coordinates ----

  /** Valid descriptors with equal coordinates are equal. */
  lemma CoordsInjective(r1: Root, r2: Root)
    requires Valid(r1) && Valid(r2)
    requires Coords(r1) == Coords(r2)
    ensures r1 == r2
  {
    assert forall k :: 0 <= k < 8 ==> Coord(r1, k) == Coord(r2, k) by {
      forall k | 0 <= k < 8 ensures Coord(r1, k) == Coord(r2, k) {
        assert Coords(r1)[k] == Coords(r2)[k];
      }
    }
    SameKind(r1, r2);
    if r1.Integral? {
      assert Coord(r2, r1.i) == Coord(r1, r1.i);
      assert Coord(r2, r1.j) == Coord(r1, r1.j);
      assert Coord(r1, r2.i) == Coord(r2, r2.i);
      assert Coord(r1, r2.j) == Coord(r2, r2.j);
    } else {
      assert LowBits(r1.signs, 8) == LowBits(r2.signs, 8) by {
        forall k | 0 <= k < 8 ensures LowBits(r1.signs, 8)[k] == LowBits(r2.signs, 8)[k] {
          assert Coord(r1, k) == Coord(r2, k);
        }
      }
      assert Pow(2, 8) == 256;
      PackLowBits(r1.signs, 8);
      PackLowBits(r2.signs, 8);
    }
  }

  /** A type 1 root has a zero coordinate and a type 2 root has none. */
  lemma SameKind(r1: Root, r2: Root)
    requires Valid(r1) && Valid(r2)
    requires forall k :: 0 <= k < 8 ==> Coord(r1, k) == Coord(r2, k)
    ensures r1.Integral? <==> r2.Integral?
  {
    if r1.Integral? {
      assert Coord(r2, ZeroPosition(r1)) == 0.0;
    }
    if r2.Integral? {
      assert Coord(r1, ZeroPosition(r2)) == 0.0;
    }
  }

  /** A position where a type 1 root has coordinate 0. */
  function ZeroPosition(r: Root): (k: nat)
    requires Valid(r) && r.Integral?
    ensures k < 8 && k != r.i && k != r.j
  {
    if r.i != 0 then 0 else if r.j != 1 then 1 else 2
  }

  /** A sort key that increases strictly along the generated list. */
  function Key(r: Root): int
  {
    match r
    case Integral(i, j, s1, _) => 64 * i + 8 * j + (if s1 == 1 then 1 else 0)
    case HalfIntegral(b) => 512 + b
  }

  predicate Increasing(s: seq<Root>)
  {
    forall p, q :: 0 <= p < q < |s| ==> Key(s[p]) < Key(s[q])
  }

  lemma IncreasingConcat(a: seq<Root>, b: seq<Root>)
    requires Increasing(a) && Increasing(b)
    requires forall x, y :: x in a && y in b ==> Key(x) < Key(y)
    ensures Increasing(a + b)
  {
    var s := a + b;
    forall p, q | 0 <= p < q < |s| ensures Key(s[p]) < Key(s[q]) {
      if q < |a| {
        assert s[p] == a[p] && s[q] == a[q];
      } else if p >= |a| {
        assert s[p] == b[p - |a|] && s[q] == b[q - |a|];
      } else {
        assert s[p] in a && s[q] in b;
      }
    }
  }

  /** Keys in [lo, mid) before keys in [mid, hi): the concatenation is increasing and its keys lie in [lo, hi). */
  lemma KeysBetween(a: seq<Root>, b: seq<Root>, lo: int, mid: int, hi: int)
    requires lo <= mid <= hi && Increasing(a) && Increasing(b)
    requires forall r :: r in a ==> lo <= Key(r) < mid
    requires forall r :: r in b ==> mid <= Key(r) < hi
    ensures Increasing(a + b)
    ensures forall r :: r in a + b ==> lo <= Key(r) < hi
  {
    IncreasingConcat(a, b);
    forall r | r in a + b ensures lo <= Key(r) < hi {
      assert r in a || r in b;
    }
  }

  lemma {:induction false} RowKeys(i: nat, j: nat)
    requires i < j
    ensures forall r :: r in Row(i, j) ==> 64 * i + 8 * j <= Key(r) < 64 * i + 64
    decreases 8 - j
  {
    if j < 8 {
      RowKeys(i, j + 1);
      RowHead(i, j);
    }
  }

  lemma RowHead(i: nat, j: nat)
    requires j < 8
    ensures Row(i, j) == [Integral(i, j, -1, 1), Integral(i, j, 1, -1)] + Row(i, j + 1)
  {
    OnlyOppositeSigns();
  }

  lemma {:induction false} RowIncreasing(i: nat, j: nat)
    requires i < j
    ensures Increasing(Row(i, j))
    decreases 8 - j
  {
    if j < 8 {
      RowIncreasing(i, j + 1);
      RowKeys(i, j + 1);
      RowHead(i, j);
      IncreasingConcat([Integral(i, j, -1, 1), Integral(i, j, 1, -1)], Row(i, j + 1));
    }
  }

  lemma {:induction false} IntegralsIncreasing(i: nat)
    ensures Increasing(Integrals(i))
    ensures forall r :: r in Integrals(i) ==> 64 * i <= Key(r) < 512
    decreases 8 - i
  {
    if i < 8 {
      var row, rest := Row(i, i + 1), Integrals(i + 1);
      assert Integrals(i) == row + rest;
      RowIncreasing(i, i + 1);
      RowKeys(i, i + 1);
      IntegralsIncreasing(i + 1);
      KeysBetween(row, rest, 64 * i, 64 * i + 64, 512);
    }
  }

  lemma {:induction false} HalvesIncreasing(b: nat)
    ensures Increasing(Halves(b))
    ensures forall r :: r in Halves(b) ==> 512 + b <= Key(r)
    decreases 256 - b
  {
    if b < 256 {
      HalvesIncreasing(b + 1);
      HalvesValid(b + 1);
      IncreasingConcat(if EvenParity(b) then [HalfIntegral(b)] else [], Halves(b + 1));
    }
  }

  lemma RootsIncreasing()
    ensures Increasing(Roots())
  {
    RootCount();
    IntegralsIncreasing(0);
    HalvesIncreasing(0);
    IncreasingConcat(Integrals(0), Halves(0));
  }

  /** The generated roots are pairwise distinct as coordinate vectors. */
  lemma RootsDistinct()
    ensures forall p, q :: 0 <= p < q < |Roots()| ==> Coords(Roots()[p]) != Coords(Roots()[q])
  {
    RootsIncreasing();
    RootsValid();
    var rs := Roots();
    forall p, q | 0 <= p < q < |rs| ensures Coords(rs[p]) != Coords(rs[q]) {
      assert rs[p] in rs && rs[q] in rs;
      if Coords(rs[p]) == Coords(rs[q]) {
        CoordsInjective(rs[p], rs[q]);
        assert false;
      }
    }
  }
}
