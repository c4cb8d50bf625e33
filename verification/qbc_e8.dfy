/**
 * The E8 storage table of qbc_e8.py: one point per generated root, each
 * holding at most one QBC state.
 *
 * `find_best_point` (a nearest-point search over floating-point phases) is a
 * parameter: any function from states to point indices.
 */
module QbcE8 {
  import opened Wrappers
  import opened E8
  import opened Qbc

  datatype Point = Point(coordinates: seq<real>, state: Option<QBCState>, index: nat, weight: real)

  /** The `points` dictionary; its keys are exactly 0 .. |points| - 1. */
  datatype Lattice = Lattice(points: seq<Point>)

  /** The nearest-point search: which point a state is stored at. */
  type Placement = QBCState -> nat

  ghost predicate Fits(lat: Lattice, place: Placement)
  {
    forall s: QBCState :: place(s) < |lat.points|
  }

  function MakePoints(rs: seq<Root>, from: nat): (ps: seq<Point>)
    ensures |ps| == |rs|
    ensures forall k :: 0 <= k < |rs| ==>
      ps[k] == Point(Coords(rs[k]), None, from + k, Weight(rs[k]))
  {
    if |rs| == 0 then []
    else [Point(Coords(rs[0]), None, from, Weight(rs[0]))] + MakePoints(rs[1..], from + 1)
  }

  /** `_initialize_lattice`: point k sits at root k and holds nothing. */
  function Init(): (lat: Lattice)
    ensures |lat.points| == |Roots()|
  {
    Lattice(MakePoints(Roots(), 0))
  }

  /** The initial table: 184 empty points keyed by position, all of weight 2.0. */
  lemma InitShape()
    ensures |Init().points| == 184
    ensures forall k :: 0 <= k < 184 ==>
      Init().points[k].state.None? && Init().points[k].index == k && Init().points[k].weight == 2.0
  {
    RootCount();
    AllWeightsTwo();
    var rs := Roots();
    var ps := MakePoints(rs, 0);
    forall k | 0 <= k < 184 ensures ps[k].state.None? && ps[k].index == k && ps[k].weight == 2.0 {
      assert rs[k] in rs;
    }
  }

  /** Distinct points of the initial table have distinct coordinates. */
  lemma InitDistinct()
    ensures forall p, q :: 0 <= p < q < |Init().points| ==> Init().points[p].coordinates != Init().points[q].coordinates
  {
    RootsDistinct();
    MakePointsDistinct(Roots(), 0);
  }

  lemma MakePointsDistinct(rs: seq<Root>, from: nat)
    requires forall p, q :: 0 <= p < q < |rs| ==> Coords(rs[p]) != Coords(rs[q])
    ensures forall p, q :: 0 <= p < q < |rs| ==> MakePoints(rs, from)[p].coordinates != MakePoints(rs, from)[q].coordinates
  {
    var ps := MakePoints(rs, from);
    assert forall p :: 0 <= p < |ps| ==> ps[p].coordinates == Coords(rs[p]);
  }

  /** `store_qbc_state`: overwrite the chosen point only, and return its index. */
  function Store(lat: Lattice, s: QBCState, place: Placement): (r: (nat, Lattice))
    requires Fits(lat, place)
    ensures r.0 == place(s) && r.0 < |lat.points|
    ensures |r.1.points| == |lat.points|
    ensures r.1.points[r.0].state == Some(s)
    ensures forall k :: 0 <= k < |lat.points| && k != r.0 ==> r.1.points[k] == lat.points[k]
    ensures forall k :: 0 <= k < |lat.points| ==>
      r.1.points[k].coordinates == lat.points[k].coordinates && r.1.points[k].index == lat.points[k].index
  {
    var k := place(s);
    (k, Lattice(lat.points[k := lat.points[k].(state := Some(s))]))
  }

  /** `retrieve_qbc_state`: the stored state, or None for an empty point or an unknown key. */
  function Retrieve(lat: Lattice, idx: int): (r: Option<QBCState>)
    ensures !(0 <= idx < |lat.points|) ==> r.None?
    ensures 0 <= idx < |lat.points| ==> r == lat.points[idx].state
  {
    if 0 <= idx < |lat.points| then lat.points[idx].state else None
  }

  /** Store each state in turn; the indices come back in the same order. */
  function StoreAll(lat: Lattice, states: seq<QBCState>, place: Placement): (r: (seq<nat>, Lattice))
    requires Fits(lat, place)
    ensures |r.0| == |states|
    ensures |r.1.points| == |lat.points|
    ensures forall k :: 0 <= k < |states| ==> r.0[k] == place(states[k])
    decreases |states|
  {
    if |states| == 0 then ([], lat)
    else
      var first := Store(lat, states[0], place);
      var rest := StoreAll(first.1, states[1..], place);
      ([first.0] + rest.0, rest.1)
  }

  /** Pairwise distinct indices. */
  predicate Distinct(xs: seq<int>)
  {
    forall p, q :: 0 <= p < q < |xs| ==> xs[p] != xs[q]
  }

  /** When the chosen points are pairwise distinct, every stored state can be read back. */
  lemma {:induction false} StoreAllRetrieve(lat: Lattice, states: seq<QBCState>, place: Placement)
    requires Fits(lat, place)
    requires Distinct(StoreAll(lat, states, place).0)
    ensures forall k :: 0 <= k < |states| ==>
      Retrieve(StoreAll(lat, states, place).1, StoreAll(lat, states, place).0[k]) == Some(states[k])
    decreases |states|
  {
    if |states| > 0 {
      var first := Store(lat, states[0], place);
      var rest := StoreAll(first.1, states[1..], place);
      var idx := [first.0] + rest.0;
      assert StoreAll(lat, states, place).0 == idx;
      assert forall k :: 0 <= k < |rest.0| ==> rest.0[k] == idx[k + 1];
      StoreAllRetrieve(first.1, states[1..], place);
      StoreAllKeeps(first.1, states[1..], place, first.0);
    }
  }

  lemma StoredReadBack(lat: Lattice, states: seq<QBCState>, place: Placement)
    requires Fits(lat, place)
    ensures Distinct(StoreAll(lat, states, place).0) ==> forall k :: 0 <= k < |states| ==>
      Retrieve(StoreAll(lat, states, place).1, StoreAll(lat, states, place).0[k]) == Some(states[k])
  {
    if Distinct(StoreAll(lat, states, place).0) {
      StoreAllRetrieve(lat, states, place);
    }
  }

  /** Storing at points other than k leaves point k as it was. */
  lemma {:induction false} StoreAllKeeps(lat: Lattice, states: seq<QBCState>, place: Placement, k: nat)
    requires Fits(lat, place)
    requires k < |lat.points|
    requires forall j :: 0 <= j < |states| ==> place(states[j]) != k
    ensures StoreAll(lat, states, place).1.points[k] == lat.points[k]
    decreases |states|
  {
    if |states| > 0 {
      var first := Store(lat, states[0], place);
      StoreAllKeeps(first.1, states[1..], place, k);
    }
  }

  function Present(opts: seq<Option<QBCState>>): (r: seq<QBCState>)
    ensures |r| <= |opts|
    ensures (forall k :: 0 <= k < |opts| ==> opts[k].Some?) ==> |r| == |opts|
    ensures (forall k :: 0 <= k < |opts| ==> opts[k].Some?) ==>
      forall k :: 0 <= k < |opts| ==> r[k] == opts[k].value
  {
    if |opts| == 0 then []
    else (if opts[0].Some? then [opts[0].value] else []) + Present(opts[1..])
  }

  function RetrieveAll(lat: Lattice, indices: seq<int>): (r: seq<Option<QBCState>>)
    ensures |r| == |indices|
    ensures forall k :: 0 <= k < |indices| ==> r[k] == Retrieve(lat, indices[k])
  {
    if |indices| == 0 then [] else [Retrieve(lat, indices[0])] + RetrieveAll(lat, indices[1..])
  }

  /** `retrieve_byte`: decode when exactly eight of the indices hold a state, else 0. */
  function RetrieveByte(lat: Lattice, indices: seq<int>, measure: Measure): (v: nat)
    ensures v < 256
    ensures |Present(RetrieveAll(lat, indices))| != 8 ==> v == 0
  {
    var states := Present(RetrieveAll(lat, indices));
    if |states| == 8 then DecodeByte(states, measure) else 0
  }

  /** `store_byte`: encode the byte and store its eight states. */
  function StoreByte(lat: Lattice, enc: Encoder, v: nat, noise: NoiseSource, place: Placement)
    : (r: (seq<nat>, Lattice, Encoder))
    requires Fits(lat, place)
    ensures |r.0| == 8
    ensures |r.1.points| == |lat.points|
    ensures forall k :: 0 <= k < 8 ==> r.0[k] == place(EncodeByte(enc, v, noise).0[k]) && r.0[k] < |lat.points|
    ensures Distinct(r.0) ==> forall k :: 0 <= k < 8 ==> Retrieve(r.1, r.0[k]) == Some(EncodeByte(enc, v, noise).0[k])
  {
    var (states, enc1) := EncodeByte(enc, v, noise);
    StoredReadBack(lat, states, place);
    var (indices, lat1) := StoreAll(lat, states, place);
    (indices, lat1, enc1)
  }

  /** A stored byte reads back when its eight states land on distinct points and are ideally measured. */
  lemma ByteStoreRoundTrip(lat: Lattice, enc: Encoder, v: nat, noise: NoiseSource, place: Placement, measure: Measure)
    requires Fits(lat, place)
    requires v < 256
    requires Ideal(measure)
    requires Distinct(StoreByte(lat, enc, v, noise, place).0)
    ensures RetrieveByte(StoreByte(lat, enc, v, noise, place).1, StoreByte(lat, enc, v, noise, place).0, measure) == v
  {
    var states := EncodeByte(enc, v, noise).0;
    var r := StoreAll(lat, states, place);
    StoreAllRetrieve(lat, states, place);
    var got := RetrieveAll(r.1, r.0);
    assert forall k :: 0 <= k < 8 ==> got[k] == Some(states[k]);
    assert Present(got) == states;
    DecodeIdealGroup(states, v, measure);
  }

  /** `clear_all`: every point loses its state and keeps everything else. */
  function Clear(lat: Lattice): (r: Lattice)
    ensures |r.points| == |lat.points|
    ensures forall k :: 0 <= k < |lat.points| ==> r.points[k] == lat.points[k].(state := None)
  {
    Lattice(seq(|lat.points|, k requires 0 <= k < |lat.points| => lat.points[k].(state := None)))
  }

  lemma ClearEmptiesAll(lat: Lattice, idx: int)
    ensures Retrieve(Clear(lat), idx).None?
  {
  }

  datatype StorageStats = StorageStats(totalPoints: nat, storedStates: nat, freePoints: int, capacityUsedPercent: nat)

  function CountStored(ps: seq<Point>): (c: nat)
    ensures c <= |ps|
  {
    if |ps| == 0 then 0 else (if ps[0].state.Some? then 1 else 0) + CountStored(ps[1..])
  }

  /** The positions whose point holds a state. */
  function Occupied(ps: seq<Point>): set<int>
  {
    set k | 0 <= k < |ps| && ps[k].state.Some?
  }

  /** CountStored counts exactly the occupied positions. */
  lemma {:induction false} CountStoredExact(ps: seq<Point>)
    ensures CountStored(ps) == |Occupied(ps)|
    decreases |ps|
  {
    if |ps| > 0 {
      var last := |ps| - 1;
      var front := ps[..last];
      CountStoredSnoc(ps);
      CountStoredExact(front);
      OccupiedSnoc(ps);
    }
  }

  /** The last point adds its own position to the occupied set, or nothing. */
  lemma OccupiedSnoc(ps: seq<Point>)
    requires |ps| > 0
    ensures |Occupied(ps)| == |Occupied(ps[..|ps| - 1])| + (if ps[|ps| - 1].state.Some? then 1 else 0)
  {
    var last := |ps| - 1;
    var front := ps[..last];
    var added := if ps[last].state.Some? then {last} else {};
    assert Occupied(ps) == Occupied(front) + added by {
      forall k | k in Occupied(ps) ensures k in Occupied(front) + added {
        if k < last {
          assert front[k] == ps[k];
        }
      }
      forall k | k in Occupied(front) ensures k in Occupied(ps) {
        assert front[k] == ps[k];
      }
    }
    assert last !in Occupied(front);
  }

  /** `get_storage_stats`; an empty table divides by zero, modelled as None. */
  function GetStorageStats(lat: Lattice): (r: Option<StorageStats>)
    ensures r.None? <==> |lat.points| == 0
    ensures r.Some? ==> r.value.totalPoints == |lat.points|
    ensures r.Some? ==> r.value.storedStates == |Occupied(lat.points)|
    ensures r.Some? ==> r.value.storedStates + r.value.freePoints == r.value.totalPoints
    ensures r.Some? ==> 0 <= r.value.freePoints
    ensures r.Some? ==> r.value.capacityUsedPercent <= 100
    ensures r.Some? ==>
      r.value.capacityUsedPercent * |lat.points| <= 100 * r.value.storedStates < (r.value.capacityUsedPercent + 1) * |lat.points|
  {
    var n := |lat.points|;
    if n == 0 then None
    else
      var stored := CountStored(lat.points);
      assert stored == |Occupied(lat.points)| by {
        CountStoredExact(lat.points);
      }
      var pct := (100 * stored) / n;
      assert pct <= 100 by {
        assert 100 * stored <= 100 * n;
        DivBound(100 * stored, n, 100);
      }
      Some(StorageStats(n, stored, n - stored, pct))
  }

  lemma DivBound(a: nat, n: nat, c: nat)
    requires n > 0 && a <= c * n
    ensures a / n <= c
  {
  }

  /** Counting the occupied points from the back. */
  lemma {:induction false} CountStoredSnoc(ps: seq<Point>)
    requires |ps| > 0
    ensures CountStored(ps) == CountStored(ps[..|ps| - 1]) + (if ps[|ps| - 1].state.Some? then 1 else 0)
  {
    if |ps| > 1 {
      CountStoredSnoc(ps[1..]);
      assert ps[1..][..|ps| - 2] == ps[..|ps| - 1][1..];
    }
  }

  /** A set of occupied positions is no larger than the number of occupied points. */
  lemma {:induction false} CountStoredAtLeast(ps: seq<Point>, occupied: set<nat>)
    requires forall k :: k in occupied ==> k < |ps| && ps[k].state.Some?
    ensures |occupied| <= CountStored(ps)
    decreases |ps|
  {
    if |ps| == 0 {
      assert occupied == {} by {
        forall k | k in occupied ensures false {
        }
      }
    } else {
      var last := |ps| - 1;
      var front := ps[..last];
      var rest := occupied - {last};
      CountStoredAtLeast(front, rest);
      CountStoredSnoc(ps);
      if last in occupied {
        assert |rest| == |occupied| - 1;
      } else {
        assert rest == occupied;
      }
    }
  }

  lemma {:induction false} ClearCountsZero(ps: seq<Point>)
    requires forall k :: 0 <= k < |ps| ==> ps[k].state.None?
    ensures CountStored(ps) == 0
  {
    if |ps| > 0 {
      ClearCountsZero(ps[1..]);
    }
  }

  /** A table with no state stored reports 0 percent used. */
  lemma EmptyTableStats(lat: Lattice)
    requires |lat.points| > 0
    requires forall k :: 0 <= k < |lat.points| ==> lat.points[k].state.None?
    ensures GetStorageStats(lat).value.storedStates == 0
    ensures GetStorageStats(lat).value.capacityUsedPercent == 0
  {
    ClearCountsZero(lat.points);
  }

  /** After clear_all nothing is stored and every point is free. */
  lemma ClearStats(lat: Lattice)
    requires |lat.points| > 0
    ensures GetStorageStats(Clear(lat)).value.storedStates == 0
    ensures GetStorageStats(Clear(lat)).value.freePoints == |lat.points|
  {
    ClearCountsZero(Clear(lat).points);
  }
}
