/**
 * The qubit-placement lattice of moonshine_lattice.py.
 *
 * A lattice of N points keyed 0 .. N - 1. The first points take their
 * coordinates from the E8 root generator, the next thousand from the Leech
 * lattice construction and the rest from a seeded random generator. Every
 * point knows its eight nearest other points and may host one qubit.
 *
 * The coordinates, the j-function and the Euclidean distance are floating
 * point and are not computed: a point records only where its coordinates
 * come from, the distance between two points is a parameter, and so is the
 * phase score `find_qubit_location` minimises.
 */
module Moonshine {
  import opened Wrappers
  import E8

  /**
   * Where a point's coordinates come from: the k-th root of the E8
   * generator (`E8.Roots()[k]`), the k-th Leech point, or a seeded draw.
   */
  datatype Origin = RootPoint(k: nat) | LeechPoint(k: nat) | SeededPoint(seed: nat)

  datatype LatticePoint = LatticePoint(origin: Origin, qubit: Option<int>, neighbors: set<nat>)

  /** The `lattice_points` dictionary; its keys are exactly 0 .. |points| - 1. */
  datatype Lattice = Lattice(points: seq<LatticePoint>)

  /** KeyError for a missing key; ValueError when the E8 block does not fit the working dimension. */
  datatype LatticeError = KeyError(key: int) | ValueError(dimension: int)

  /** `np.linalg.norm(p.coordinates - q.coordinates)` for points p and q. */
  type Distance = (nat, nat) -> real

  /** `E8_DIMENSION`: the width of the block every E8 root is tiled into. */
  const E8Dimension: nat := 248

  /** The number of roots the E8 generator yields; E8.RootTotal proves it. */
  const RootCount: nat := 184

  /** The number of Leech lattice points generated. */
  const LeechCount: nat := 1000

  /** The `k` of the k-nearest-neighbour graph. */
  const NeighborCount: nat := 8

  function OriginOf(idx: nat): Origin
  {
    if idx < RootCount then RootPoint(idx)
    else if idx < RootCount + LeechCount then LeechPoint(idx - RootCount)
    else SeededPoint(idx)
  }

  // ---- The neighbour graph ----

  /** Python's order on the tuples `(dist, other_idx)` seen from point idx. */
  predicate Closer(d: Distance, idx: nat, a: nat, b: nat)
  {
    d(idx, a) < d(idx, b) || (d(idx, a) == d(idx, b) && a < b)
  }

  lemma CloserTransitive(d: Distance, idx: nat, a: nat, b: nat, c: nat)
    requires Closer(d, idx, a, b) && Closer(d, idx, b, c)
    ensures Closer(d, idx, a, c)
  {
  }

  predicate Distinct(s: seq<nat>)
  {
    forall i, j :: 0 <= i < j < |s| ==> s[i] != s[j]
  }

  predicate SortedFrom(d: Distance, idx: nat, s: seq<nat>)
  {
    forall i, j :: 0 <= i < j < |s| ==> Closer(d, idx, s[i], s[j])
  }

  /** The other keys `other_idx` of a point idx among 0 .. n - 1, ascending. */
  function Others(idx: nat, n: nat): (r: seq<nat>)
    ensures forall o: nat :: o in r <==> o < n && o != idx
    ensures Distinct(r)
    ensures |r| == if idx < n then n - 1 else n
  {
    if n == 0 then []
    else
      var rest := Others(idx, n - 1);
      if n - 1 == idx then rest
      else
        assert n - 1 !in rest;
        rest + [n - 1]
  }

  /** Inserts x into a list sorted by distance from idx. */
  function Insert(d: Distance, idx: nat, x: nat, s: seq<nat>): (r: seq<nat>)
    requires SortedFrom(d, idx, s) && x !in s
    ensures SortedFrom(d, idx, r)
    ensures multiset(r) == multiset(s) + multiset{x}
    decreases |s|
  {
    if |s| == 0 then [x]
    else if Closer(d, idx, x, s[0]) then
      InsertFront(d, idx, x, s);
      [x] + s
    else
      var rest := Insert(d, idx, x, s[1..]);
      assert s == [s[0]] + s[1..];
      InsertBehind(d, idx, x, s, rest);
      [s[0]] + rest
  }

  lemma InsertFront(d: Distance, idx: nat, x: nat, s: seq<nat>)
    requires SortedFrom(d, idx, s) && |s| > 0 && Closer(d, idx, x, s[0])
    ensures SortedFrom(d, idx, [x] + s)
  {
    var r := [x] + s;
    forall i, j | 0 <= i < j < |r| ensures Closer(d, idx, r[i], r[j]) {
      if i == 0 && j > 1 { CloserTransitive(d, idx, x, s[0], r[j]); }
    }
  }

  lemma InsertBehind(d: Distance, idx: nat, x: nat, s: seq<nat>, rest: seq<nat>)
    requires SortedFrom(d, idx, s) && |s| > 0 && x !in s && !Closer(d, idx, x, s[0])
    requires SortedFrom(d, idx, rest) && multiset(rest) == multiset(s[1..]) + multiset{x}
    ensures SortedFrom(d, idx, [s[0]] + rest)
  {
    var r := [s[0]] + rest;
    forall j | 0 <= j < |rest| ensures Closer(d, idx, s[0], rest[j]) {
      assert rest[j] in multiset(rest);
      if rest[j] != x {
        assert rest[j] in multiset(s[1..]);
        var m :| 0 <= m < |s[1..]| && s[1..][m] == rest[j];
        assert s[m + 1] == rest[j];
      }
    }
  }

  /** `distances.sort()`: insertion sort by (distance, index). */
  function SortByDistance(d: Distance, idx: nat, s: seq<nat>): (r: seq<nat>)
    requires Distinct(s)
    ensures SortedFrom(d, idx, r)
    ensures multiset(r) == multiset(s)
    decreases |s|
  {
    if |s| == 0 then []
    else
      assert s == [s[0]] + s[1..];
      assert s[0] !in multiset(s[1..]);
      Insert(d, idx, s[0], SortByDistance(d, idx, s[1..]))
  }

  /** The elements of a list as a set. */
  function ElementSet(s: seq<nat>): (r: set<nat>)
    ensures forall x :: x in r <==> x in s
    ensures Distinct(s) ==> |r| == |s|
    decreases |s|
  {
    if |s| == 0 then {}
    else
      var rest := ElementSet(s[1..]);
      DistinctTail(s);
      assert forall x :: x in s <==> x == s[0] || x in s[1..];
      {s[0]} + rest
  }

  lemma DistinctTail(s: seq<nat>)
    requires |s| > 0
    ensures Distinct(s) ==> Distinct(s[1..]) && s[0] !in s[1..]
  {
    if Distinct(s) {
      assert forall i :: 0 <= i < |s| - 1 ==> s[1..][i] == s[i + 1];
    }
  }

  /** `set(neighbors)` for point idx: the first eight of the sorted other keys. */
  function Neighbors(d: Distance, idx: nat, n: nat): set<nat>
  {
    var sorted := SortByDistance(d, idx, Others(idx, n));
    ElementSet(sorted[..if |sorted| < NeighborCount then |sorted| else NeighborCount])
  }

  lemma SortedDistinct(d: Distance, idx: nat, s: seq<nat>)
    requires SortedFrom(d, idx, s)
    ensures Distinct(s)
  {
  }

  /**
   * The neighbour set of point idx leaves idx out, has min(8, n - 1)
   * members, and every neighbour is nearer (by distance, then by key) than
   * every other point that is not a neighbour.
   */
  lemma NeighborsNearest(d: Distance, idx: nat, n: nat)
    requires idx < n
    ensures var ns := Neighbors(d, idx, n);
      idx !in ns &&
      (forall o :: o in ns ==> o < n) &&
      |ns| == (if n - 1 < NeighborCount then n - 1 else NeighborCount) &&
      forall a, b: nat :: a in ns && b < n && b != idx && b !in ns ==> Closer(d, idx, a, b)
  {
    var others := Others(idx, n);
    var sorted := SortByDistance(d, idx, others);
    var k := if |sorted| < NeighborCount then |sorted| else NeighborCount;
    FrontSet(d, idx, n, sorted, others, k);
  }

  lemma FrontSet(d: Distance, idx: nat, n: nat, sorted: seq<nat>, others: seq<nat>, k: nat)
    requires forall o: nat :: o in others <==> o < n && o != idx
    requires |others| == n - 1 && idx < n
    requires SortedFrom(d, idx, sorted) && multiset(sorted) == multiset(others)
    requires k == if |sorted| < NeighborCount then |sorted| else NeighborCount
    ensures var ns := ElementSet(sorted[..k]);
      idx !in ns &&
      (forall o :: o in ns ==> o < n) &&
      |ns| == (if n - 1 < NeighborCount then n - 1 else NeighborCount) &&
      forall a, b: nat :: a in ns && b < n && b != idx && b !in ns ==> Closer(d, idx, a, b)
  {
    SameElements(sorted, others);
    var front := sorted[..k];
    forall o | o in front ensures o in sorted && o < n && o != idx {
    }
    SortedDistinct(d, idx, sorted);
    assert Distinct(front);
    forall a, b: nat | a in front && b in sorted && b !in front ensures Closer(d, idx, a, b) {
      FrontBeforeBack(d, idx, sorted, k, a, b);
    }
  }

  /** Lists with the same multiset have the same length and the same elements. */
  lemma SameElements(s: seq<nat>, t: seq<nat>)
    requires multiset(s) == multiset(t)
    ensures |s| == |t|
    ensures forall x :: x in s <==> x in t
  {
    assert |multiset(s)| == |multiset(t)|;
    forall x ensures x in s <==> x in t {
      assert x in s <==> x in multiset(s);
      assert x in t <==> x in multiset(t);
    }
  }

  lemma FrontBeforeBack(d: Distance, idx: nat, s: seq<nat>, k: nat, a: nat, b: nat)
    requires SortedFrom(d, idx, s) && k <= |s|
    requires a in s[..k] && b in s && b !in s[..k]
    ensures Closer(d, idx, a, b)
  {
    var i :| 0 <= i < k && s[..k][i] == a;
    var j :| 0 <= j < |s| && s[j] == b;
    assert forall m :: 0 <= m < k ==> s[..k][m] == s[m];
  }

  // ---- Initialisation ----

  /**
   * `MoonshineLattice(n)`. Point 0 takes an E8 root, tiled over the first
   * 248 coordinates, so a working dimension from 1 to 247 cannot hold it
   * and numpy raises ValueError; no dimension at all (0 or below) builds
   * no point and raises nothing.
   */
  function Init(n: int, d: Distance): (r: Result<Lattice, LatticeError>)
    ensures r.Err? <==> 1 <= n < E8Dimension
    ensures r.Err? ==> r.error == ValueError(n)
    ensures r.Ok? ==> |r.value.points| == if n < 0 then 0 else n
  {
    if 1 <= n < E8Dimension then Err(ValueError(n))
    else Ok(Lattice(FreshPoints(d, if n < 0 then 0 else n)))
  }

  /** The points of a new lattice of the given size, in key order. */
  function FreshPoints(d: Distance, size: nat): (ps: seq<LatticePoint>)
    ensures |ps| == size
  {
    seq(size, i requires 0 <= i < size => FreshPoint(d, i, size))
  }

  /** Point i of a new lattice of the given size: no qubit yet. */
  function FreshPoint(d: Distance, i: nat, size: nat): LatticePoint
  {
    LatticePoint(OriginOf(i), None, Neighbors(d, i, size))
  }

  /** Every neighbour key is a key of the lattice. */
  predicate WellFormed(lat: Lattice)
  {
    forall i, j :: 0 <= i < |lat.points| && j in lat.points[i].neighbors ==> j < |lat.points|
  }

  /** A new lattice hosts no qubit and every neighbour set is the nearest-neighbour set of its point. */
  lemma InitShape(n: int, d: Distance)
    requires Init(n, d).Ok?
    ensures WellFormed(Init(n, d).value)
    ensures forall i :: 0 <= i < |Init(n, d).value.points| ==> Init(n, d).value.points[i].qubit.None?
    ensures forall i :: 0 <= i < |Init(n, d).value.points| ==>
      Init(n, d).value.points[i].neighbors == Neighbors(d, i, |Init(n, d).value.points|)
  {
    var lat := Init(n, d).value;
    forall i | 0 <= i < |lat.points|
      ensures lat.points[i].qubit.None? && lat.points[i].neighbors == Neighbors(d, i, |lat.points|)
      ensures forall j :: j in lat.points[i].neighbors ==> j < |lat.points|
    {
      InitPoint(n, d, i);
      NeighborsNearest(d, i, |lat.points|);
    }
  }

  lemma InitPoint(n: int, d: Distance, i: nat)
    requires Init(n, d).Ok? && i < |Init(n, d).value.points|
    ensures Init(n, d).value.points[i].qubit.None?
    ensures Init(n, d).value.points[i].neighbors == Neighbors(d, i, |Init(n, d).value.points|)
  {
    assert Init(n, d).value.points == FreshPoints(d, |Init(n, d).value.points|);
  }

  /**
   * The first points of a new lattice sit at the E8 roots in generator
   * order (184 of them, by E8.RootCount), each of squared norm 2, and the
   * next thousand at the Leech points in order.
   */
  lemma InitOrigins(n: int, d: Distance)
    requires Init(n, d).Ok?
    ensures |E8.Roots()| == RootCount
    ensures forall i: nat :: i < |Init(n, d).value.points| && i < RootCount ==>
      Init(n, d).value.points[i].origin == RootPoint(i) && E8.Weight(E8.Roots()[i]) == 2.0
    ensures forall i: nat :: i < |Init(n, d).value.points| && RootCount <= i < RootCount + LeechCount ==>
      Init(n, d).value.points[i].origin == LeechPoint(i - RootCount)
  {
    var lat := Init(n, d).value;
    E8.RootTotal();
    RootWeights();
    forall i: nat | i < |lat.points|
      ensures lat.points[i].origin == OriginOf(i)
    {
      InitOrigin(n, d, i);
    }
  }

  lemma InitOrigin(n: int, d: Distance, i: nat)
    requires Init(n, d).Ok? && i < |Init(n, d).value.points|
    ensures Init(n, d).value.points[i].origin == OriginOf(i)
  {
    var size := |Init(n, d).value.points|;
    assert Init(n, d).value.points == FreshPoints(d, size);
    assert FreshPoints(d, size)[i] == FreshPoint(d, i, size);
  }

  lemma RootWeights()
    ensures forall i :: 0 <= i < |E8.Roots()| ==> E8.Weight(E8.Roots()[i]) == 2.0
  {
    E8.AllWeightsTwo();
    WeightsByIndex(E8.Roots());
  }

  lemma WeightsByIndex(rs: seq<E8.Root>)
    requires forall r :: r in rs ==> E8.Weight(r) == 2.0
    ensures forall i :: 0 <= i < |rs| ==> E8.Weight(rs[i]) == 2.0
  {
    forall i | 0 <= i < |rs| ensures E8.Weight(rs[i]) == 2.0 {
      assert rs[i] in rs;
    }
  }

  // ---- Placing qubits ----

  predicate Free(lat: Lattice, i: nat)
    requires i < |lat.points|
  {
    lat.points[i].qubit.None?
  }

  /** `(score(a), a) <= (score(b), b)`. */
  predicate NoWorse(score: nat -> real, a: nat, b: nat)
  {
    score(a) < score(b) || (score(a) == score(b) && a <= b)
  }

  /** The free point minimising (score, key) among keys from k on. */
  function BestFree(lat: Lattice, score: nat -> real, k: nat): (r: Option<nat>)
    ensures r.None? <==> forall o :: k <= o < |lat.points| ==> !Free(lat, o)
    ensures r.Some? ==> k <= r.value < |lat.points| && Free(lat, r.value)
    ensures r.Some? ==> forall o :: k <= o < |lat.points| && Free(lat, o) ==> NoWorse(score, r.value, o)
    decreases |lat.points| - k
  {
    if k >= |lat.points| then None
    else
      var rest := BestFree(lat, score, k + 1);
      if !Free(lat, k) then rest
      else if rest.Some? && score(rest.value) < score(k) then rest
      else Some(k)
  }

  /**
   * `find_qubit_location`: qubit 0 always goes to point 0, occupied or
   * not; any other qubit goes to the free point of least (score, key), or
   * to point 0 when every point is taken. `score(i)` stands for the phase
   * difference between point i's j-value and the qubit.
   */
  function FindQubitLocation(lat: Lattice, qubit: int, score: nat -> real): (r: nat)
    ensures qubit == 0 ==> r == 0
    ensures |lat.points| > 0 ==> r < |lat.points|
    ensures qubit != 0 && (exists o :: 0 <= o < |lat.points| && Free(lat, o)) ==>
      r < |lat.points| && Free(lat, r) &&
      forall o :: 0 <= o < |lat.points| && Free(lat, o) ==> NoWorse(score, r, o)
    ensures qubit != 0 && (forall o :: 0 <= o < |lat.points| ==> !Free(lat, o)) ==> r == 0
  {
    if qubit == 0 then 0 else BestFree(lat, score, 0).GetOr(0)
  }

  /**
   * `place_qubit`: the given point, or the one `find_qubit_location`
   * picks, now hosts the qubit. A key outside the lattice raises KeyError.
   */
  function PlaceQubit(lat: Lattice, qubit: int, at: Option<int>, score: nat -> real): (r: Result<(nat, Lattice), LatticeError>)
    ensures var target := if at.Some? then at.value else FindQubitLocation(lat, qubit, score);
      (r.Ok? <==> 0 <= target < |lat.points|) &&
      (r.Err? ==> r.error == KeyError(target)) &&
      (r.Ok? ==> (r.value.0 == target && |r.value.1.points| == |lat.points| &&
        r.value.1.points[target] == lat.points[target].(qubit := Some(qubit)) &&
        forall i :: 0 <= i < |lat.points| && i != target ==> r.value.1.points[i] == lat.points[i]))
  {
    var target := if at.Some? then at.value else FindQubitLocation(lat, qubit, score);
    if 0 <= target < |lat.points| then
      Ok((target, Lattice(lat.points[target := lat.points[target].(qubit := Some(qubit))])))
    else Err(KeyError(target))
  }

  /** The first point hosting the qubit. */
  function HostOf(lat: Lattice, qubit: int): (r: Option<nat>)
    ensures r.None? <==> forall i :: 0 <= i < |lat.points| ==> lat.points[i].qubit != Some(qubit)
    ensures r.Some? ==> (r.value < |lat.points| && lat.points[r.value].qubit == Some(qubit) &&
      forall i :: 0 <= i < r.value ==> lat.points[i].qubit != Some(qubit))
  {
    HostFrom(lat, qubit, 0)
  }

  function HostFrom(lat: Lattice, qubit: int, k: nat): (r: Option<nat>)
    ensures r.None? <==> forall i :: k <= i < |lat.points| ==> lat.points[i].qubit != Some(qubit)
    ensures r.Some? ==> (k <= r.value < |lat.points| && lat.points[r.value].qubit == Some(qubit) &&
      forall i :: k <= i < r.value ==> lat.points[i].qubit != Some(qubit))
    decreases |lat.points| - k
  {
    if k >= |lat.points| then None
    else if lat.points[k].qubit == Some(qubit) then Some(k)
    else HostFrom(lat, qubit, k + 1)
  }

  /** Placing keeps every neighbour key a key of the lattice. */
  lemma PlaceKeepsWellFormed(lat: Lattice, qubit: int, at: Option<int>, score: nat -> real)
    requires WellFormed(lat)
    ensures PlaceQubit(lat, qubit, at, score).Ok? ==> WellFormed(PlaceQubit(lat, qubit, at, score).value.1)
  {
  }

  /**
   * After a placement the qubit is found at the chosen point unless a
   * lower key already hosted it, and an earlier placement of the qubit is
   * not cleared.
   */
  lemma PlaceThenFind(lat: Lattice, qubit: int, at: Option<int>, score: nat -> real)
    requires PlaceQubit(lat, qubit, at, score).Ok?
    ensures var (target, after) := PlaceQubit(lat, qubit, at, score).value;
      (HostOf(lat, qubit).None? || HostOf(lat, qubit).value > target ==> HostOf(after, qubit) == Some(target)) &&
      (HostOf(lat, qubit).Some? && HostOf(lat, qubit).value < target ==> HostOf(after, qubit) == HostOf(lat, qubit)) &&
      forall i :: 0 <= i < |lat.points| && lat.points[i].qubit == Some(qubit) ==> after.points[i].qubit == Some(qubit)
  {
    var (target, after) := PlaceQubit(lat, qubit, at, score).value;
    var h := HostOf(after, qubit);
    assert after.points[target].qubit == Some(qubit);
  }

  // ---- Neighbouring qubits ----

  /** The occupied neighbour keys of a point from key k on. */
  ghost function OccupiedFrom(lat: Lattice, ns: set<nat>, k: nat): set<nat>
  {
    set j | j in ns && k <= j < |lat.points| && lat.points[j].qubit.Some?
  }

  /** The qubits hosted on the keys in ns, visiting keys from k upwards. */
  function QubitsOn(lat: Lattice, ns: set<nat>, k: nat): (r: seq<int>)
    ensures |r| == |OccupiedFrom(lat, ns, k)|
    ensures forall x :: x in r <==> exists j :: j in ns && k <= j < |lat.points| && lat.points[j].qubit == Some(x)
    decreases |lat.points| - k
  {
    if k >= |lat.points| then
      assert OccupiedFrom(lat, ns, k) == {};
      []
    else
      var rest := QubitsOn(lat, ns, k + 1);
      OccupiedStep(lat, ns, k);
      if k in ns && lat.points[k].qubit.Some? then
        [lat.points[k].qubit.value] + rest
      else
        rest
  }

  /** Key k adds itself to the occupied keys from k + 1 when it is occupied. */
  lemma OccupiedStep(lat: Lattice, ns: set<nat>, k: nat)
    requires k < |lat.points|
    ensures |OccupiedFrom(lat, ns, k)| ==
      (if k in ns && lat.points[k].qubit.Some? then 1 else 0) + |OccupiedFrom(lat, ns, k + 1)|
  {
    var added: set<nat> := if k in ns && lat.points[k].qubit.Some? then {k} else {};
    assert OccupiedFrom(lat, ns, k) == added + OccupiedFrom(lat, ns, k + 1) by {
      forall j | j in OccupiedFrom(lat, ns, k) ensures j in added + OccupiedFrom(lat, ns, k + 1) {
      }
    }
    assert k !in OccupiedFrom(lat, ns, k + 1);
  }

  /** Key k adds itself to the keys from k + 1 hosting x when it hosts x. */
  lemma HostsStep(lat: Lattice, ns: set<nat>, k: nat, x: int)
    requires k < |lat.points|
    ensures |HostsFrom(lat, ns, k, x)| ==
      (if k in ns && lat.points[k].qubit == Some(x) then 1 else 0) + |HostsFrom(lat, ns, k + 1, x)|
  {
    var added: set<nat> := if k in ns && lat.points[k].qubit == Some(x) then {k} else {};
    assert HostsFrom(lat, ns, k, x) == added + HostsFrom(lat, ns, k + 1, x) by {
      forall j | j in HostsFrom(lat, ns, k, x) ensures j in added + HostsFrom(lat, ns, k + 1, x) {
      }
    }
    assert k !in HostsFrom(lat, ns, k + 1, x);
  }

  /** The keys of ns from k on whose point hosts qubit x. */
  ghost function HostsFrom(lat: Lattice, ns: set<nat>, k: nat, x: int): set<nat>
  {
    set j | j in ns && k <= j < |lat.points| && lat.points[j].qubit == Some(x)
  }

  /** Each qubit occurs in QubitsOn once per key that hosts it. */
  lemma {:induction false} QubitsOnCount(lat: Lattice, ns: set<nat>, k: nat, x: int)
    ensures multiset(QubitsOn(lat, ns, k))[x] == |HostsFrom(lat, ns, k, x)|
    decreases |lat.points| - k
  {
    if k >= |lat.points| {
      assert HostsFrom(lat, ns, k, x) == {};
    } else {
      QubitsOnCount(lat, ns, k + 1, x);
      HostsStep(lat, ns, k, x);
      var rest := QubitsOn(lat, ns, k + 1);
      if k in ns && lat.points[k].qubit.Some? {
        assert QubitsOn(lat, ns, k) == [lat.points[k].qubit.value] + rest;
      } else {
        assert QubitsOn(lat, ns, k) == rest;
      }
    }
  }

  /**
   * `get_qubit_neighbors`: nothing when no point hosts the qubit; otherwise
   * one entry per occupied neighbour of the first hosting point, holding
   * that neighbour's qubit.
   */
  function QubitNeighbors(lat: Lattice, qubit: int): (r: seq<int>)
    requires WellFormed(lat)
    ensures HostOf(lat, qubit).None? ==> r == []
    ensures HostOf(lat, qubit).Some? ==>
      var ns := lat.points[HostOf(lat, qubit).value].neighbors;
      |r| == |set j | j in ns && lat.points[j].qubit.Some?| &&
      forall x :: x in r <==> exists j :: j in ns && lat.points[j].qubit == Some(x)
    ensures HostOf(lat, qubit).Some? ==>
      var ns := lat.points[HostOf(lat, qubit).value].neighbors;
      forall x :: multiset(r)[x] == |set j | j in ns && lat.points[j].qubit == Some(x)|
  {
    match HostOf(lat, qubit)
    case None => []
    case Some(h) =>
      var ns := lat.points[h].neighbors;
      assert OccupiedFrom(lat, ns, 0) == set j | j in ns && lat.points[j].qubit.Some?;
      assert forall x :: multiset(QubitsOn(lat, ns, 0))[x] == |set j | j in ns && lat.points[j].qubit == Some(x)| by {
        forall x ensures multiset(QubitsOn(lat, ns, 0))[x] == |set j | j in ns && lat.points[j].qubit == Some(x)| {
          QubitsOnCount(lat, ns, 0, x);
          assert HostsFrom(lat, ns, 0, x) == set j | j in ns && lat.points[j].qubit == Some(x);
        }
      }
      QubitsOn(lat, ns, 0)
  }
}
