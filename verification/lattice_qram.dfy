/**
 * The lattice QRAM of lattice_qram.py: `capacity` cells, each with a data
 * qubit slot, one router qubit per address bit and an access counter, laid
 * out on a Moonshine lattice.
 *
 * Qubit amplitudes are not modelled: a router qubit is the basis state it
 * was set to (a bit), a data qubit is known by its index. Routing compares
 * the j-function phases of neighbouring points; the phase score is a
 * parameter.
 */
module LatticeQram {
  import opened Wrappers
  import opened Arith
  import opened Bytes
  import Moonshine

  datatype PhysicalQubit = PhysicalQubit(index: int)

  datatype Cell = Cell(address: nat, latticePoint: nat, data: Option<PhysicalQubit>, routers: seq<bit>, accessCount: nat)

  datatype Qram = Qram(capacity: nat, width: nat, cells: seq<Cell>, lattice: Moonshine.Lattice)

  /**
   * What the operations raise: ValueError for an address at or above the
   * capacity, KeyError for a missing cell or lattice point, and the errors
   * `int(np.ceil(np.log2(capacity)))` raises for capacity 0 (an infinite
   * width: OverflowError) and below 0 (an undefined width: ValueError).
   */
  datatype QramError = AddressOutOfRange(address: int) | KeyError(key: int) | InfiniteWidth | UndefinedWidth

  /** The routing preference of neighbour n when the router bit is b (`abs(j_phase)` or `abs(pi - abs(j_phase))`). */
  type RouteScore = (bit, nat) -> real

  /** The number of bits that address `capacity` cells: the least w with 2^w >= capacity. */
  function CeilLog2(c: nat): (w: nat)
    requires c >= 1
    ensures c <= Pow(2, w)
    ensures w > 0 ==> Pow(2, w - 1) < c
    decreases c
  {
    if c == 1 then 0
    else
      var h := (c + 1) / 2;
      var w' := CeilLog2(h);
      assert Pow(2, w' + 1) == 2 * Pow(2, w');
      w' + 1
  }

  /** Every cell is keyed by its address, has one router per address bit and a lattice point that exists. */
  predicate Valid(q: Qram)
  {
    q.capacity >= 1 && |q.cells| == q.capacity && q.capacity <= Pow(2, q.width) &&
    Moonshine.WellFormed(q.lattice) &&
    forall a :: 0 <= a < |q.cells| ==>
      q.cells[a].address == a && |q.cells[a].routers| == q.width &&
      (q.cells[a].latticePoint < |q.lattice.points| || |q.lattice.points| == 0)
  }

  /**
   * `LatticeQRAM(capacity, factory, lattice)`: one empty, never accessed
   * cell per address, its routers in state |0>, its lattice point the one
   * `find_qubit_location` picks for qubit address + 1000. `score(q)` is
   * the phase score for qubit q.
   */
  function Init(capacity: int, lat: Moonshine.Lattice, score: int -> (nat -> real)): (r: Result<Qram, QramError>)
    requires Moonshine.WellFormed(lat)
    ensures capacity == 0 <==> r == Err(InfiniteWidth)
    ensures capacity < 0 <==> r == Err(UndefinedWidth)
    ensures r.Ok? ==> Valid(r.value) && r.value.capacity == capacity && r.value.lattice == lat
    ensures r.Ok? ==> forall a :: 0 <= a < |r.value.cells| ==>
      r.value.cells[a].data.None? && r.value.cells[a].accessCount == 0 &&
      (forall i :: 0 <= i < r.value.width ==> r.value.cells[a].routers[i] == 0) &&
      r.value.cells[a].latticePoint == Moonshine.FindQubitLocation(lat, a + 1000, score(a + 1000))
  {
    if capacity == 0 then Err(InfiniteWidth)
    else if capacity < 0 then Err(UndefinedWidth)
    else
      var w := CeilLog2(capacity);
      Ok(Qram(capacity, w, seq(capacity, a requires 0 <= a < capacity => InitCell(a, w, lat, score)), lat))
  }

  function InitCell(a: nat, w: nat, lat: Moonshine.Lattice, score: int -> (nat -> real)): (c: Cell)
    ensures c.address == a && |c.routers| == w
    ensures c.latticePoint < |lat.points| || |lat.points| == 0
  {
    Cell(a, Moonshine.FindQubitLocation(lat, a + 1000, score(a + 1000)), None, seq(w, _ => 0), 0)
  }

  /** `_encode_address`: router i holds bit i of the address, least significant first. */
  function EncodeAddress(address: nat, width: nat): (r: seq<bit>)
    ensures |r| == width
  {
    LowBits(address, width)
  }

  /**
   * Router i is set to |1> exactly when bit i of the address is set, and
   * the routers of an address below 2^width spell that address back.
   */
  lemma EncodeAddressBits(address: nat, width: nat)
    ensures forall i :: 0 <= i < width ==> EncodeAddress(address, width)[i] == (address / Pow(2, i)) % 2
    ensures address < Pow(2, width) ==> PackBits(EncodeAddress(address, width)) == address
  {
    forall i | 0 <= i < width ensures EncodeAddress(address, width)[i] == (address / Pow(2, i)) % 2 {
      LowBitsIndex(address, width, i);
    }
    if address < Pow(2, width) {
      PackLowBits(address, width);
    }
  }

  // ---- Routing ----

  /** The neighbour with the least (score, key) among the keys in ns from k on. */
  function BestNeighbor(ns: set<nat>, s: nat -> real, k: nat, n: nat): (r: Option<nat>)
    ensures r.None? <==> forall o :: k <= o < n ==> o !in ns
    ensures r.Some? ==> k <= r.value < n && r.value in ns
    ensures r.Some? ==> forall o :: k <= o < n && o in ns ==> Moonshine.NoWorse(s, r.value, o)
    decreases n - k
  {
    if k >= n then None
    else
      var rest := BestNeighbor(ns, s, k + 1, n);
      if k !in ns then rest
      else if rest.Some? && s(rest.value) < s(k) then rest
      else Some(k)
  }

  /**
   * `_route_through_lattice` from point `current`: for each router bit,
   * move to the neighbour of least (score, key), stopping early at a point
   * without neighbours. Looking up a point that is not in the lattice
   * raises KeyError.
   */
  function Route(lat: Moonshine.Lattice, bits: seq<bit>, score: RouteScore, current: nat): (r: Result<nat, QramError>)
    requires Moonshine.WellFormed(lat)
    ensures r.Err? <==> |bits| > 0 && current >= |lat.points|
    ensures r.Err? ==> r.error == KeyError(current)
    ensures r.Ok? ==> r.value == current || r.value < |lat.points|
    decreases |bits|
  {
    if |bits| == 0 then Ok(current)
    else if current >= |lat.points| then Err(KeyError(current))
    else
      var ns := lat.points[current].neighbors;
      var bit0 := bits[0];
      match BestNeighbor(ns, (b: nat) => score(bit0, b), 0, |lat.points|)
      case None => Ok(current)
      case Some(next) =>
        var r := Route(lat, bits[1..], score, next);
        assert r.Ok?;
        r
  }

  /** Routing looks only at the neighbour sets, which placing a qubit does not touch. */
  lemma {:induction false} RouteIgnoresQubits(lat: Moonshine.Lattice, lat': Moonshine.Lattice, bits: seq<bit>, score: RouteScore, current: nat)
    requires Moonshine.WellFormed(lat) && Moonshine.WellFormed(lat')
    requires |lat.points| == |lat'.points|
    requires forall i :: 0 <= i < |lat.points| ==> lat.points[i].neighbors == lat'.points[i].neighbors
    ensures Route(lat, bits, score, current) == Route(lat', bits, score, current)
    decreases |bits|
  {
    if |bits| > 0 && current < |lat.points| {
      var ns := lat.points[current].neighbors;
      var bit0 := bits[0];
      match BestNeighbor(ns, (b: nat) => score(bit0, b), 0, |lat.points|)
      case None =>
      case Some(next) => RouteIgnoresQubits(lat, lat', bits[1..], score, next);
    }
  }

  // ---- Write and read ----

  /**
   * `write(address, data_qubit)`: ValueError for an address at or above
   * the capacity and KeyError below 0, before anything changes. Otherwise
   * the routers take the address, the route is followed, the cell takes
   * the qubit, the qubit is placed on the cell's lattice point and the
   * cell's access count goes up by one. Returns the point routing reached.
   */
  function Write(q: Qram, address: int, data: PhysicalQubit, score: RouteScore): (r: Result<(nat, Qram), QramError>)
    requires Valid(q)
    ensures address >= q.capacity <==> r == Err(AddressOutOfRange(address))
    ensures address < 0 ==> r == Err(KeyError(address))
    ensures r.Ok? ==> (0 <= address < q.capacity && Valid(r.value.1) &&
      var q' := r.value.1;
      q'.capacity == q.capacity && q'.width == q.width &&
      q'.cells[address] == q.cells[address].(data := Some(data), routers := LowBits(address, q.width),
        accessCount := q.cells[address].accessCount + 1) &&
      (forall a :: 0 <= a < |q.cells| && a != address ==> q'.cells[a] == q.cells[a]) &&
      Moonshine.PlaceQubit(q.lattice, data.index, Some(q.cells[address].latticePoint), _ => 0.0) == Ok((q.cells[address].latticePoint, q'.lattice)))
  {
    if address >= q.capacity then Err(AddressOutOfRange(address))
    else if address < 0 then Err(KeyError(address))
    else
      var cell := q.cells[address];
      var routers := EncodeAddress(address, q.width);
      var reached :- Route(q.lattice, routers, score, 0);
      match Moonshine.PlaceQubit(q.lattice, data.index, Some(cell.latticePoint), _ => 0.0)
      case Err(e) => Err(KeyError(e.key))
      case Ok((_, lat')) =>
        var cell' := cell.(data := Some(data), routers := routers, accessCount := cell.accessCount + 1);
        Ok((reached, q.(cells := q.cells[address := cell'], lattice := lat')))
  }

  /**
   * `read(address)`: the same range errors as write. Otherwise the routers
   * take the address, the route is followed, the cell's access count goes
   * up by one and the stored qubit is handed out and removed from the cell.
   */
  function Read(q: Qram, address: int, score: RouteScore): (r: Result<(Option<PhysicalQubit>, Qram), QramError>)
    requires Valid(q)
    ensures address >= q.capacity <==> r == Err(AddressOutOfRange(address))
    ensures address < 0 ==> r == Err(KeyError(address))
    ensures r.Ok? ==> (0 <= address < q.capacity && Valid(r.value.1) &&
      var q' := r.value.1;
      r.value.0 == q.cells[address].data &&
      q' == q.(cells := q.cells[address := q.cells[address].(data := None, routers := LowBits(address, q.width),
        accessCount := q.cells[address].accessCount + 1)]))
  {
    if address >= q.capacity then Err(AddressOutOfRange(address))
    else if address < 0 then Err(KeyError(address))
    else
      var cell := q.cells[address];
      var routers := EncodeAddress(address, q.width);
      var reached :- Route(q.lattice, routers, score, 0);
      var cell' := cell.(data := None, routers := routers, accessCount := cell.accessCount + 1);
      Ok((cell.data, q.(cells := q.cells[address := cell'])))
  }

  /**
   * A read right after a successful write at the same address returns the
   * written qubit, and a second read returns nothing.
   */
  lemma WriteThenRead(q: Qram, address: int, data: PhysicalQubit, score: RouteScore)
    requires Valid(q) && Write(q, address, data, score).Ok?
    ensures var q1 := Write(q, address, data, score).value.1;
      Read(q1, address, score).Ok? && Read(q1, address, score).value.0 == Some(data) &&
      var q2 := Read(q1, address, score).value.1;
      Read(q2, address, score).Ok? && Read(q2, address, score).value.0 == None
  {
    var q1 := Write(q, address, data, score).value.1;
    RouteIgnoresQubits(q.lattice, q1.lattice, EncodeAddress(address, q.width), score, 0);
    var q2 := Read(q1, address, score).value.1;
    assert q2.lattice == q1.lattice;
  }

  // ---- Statistics ----

  /** Σ access counts. */
  function TotalAccesses(cells: seq<Cell>): nat
  {
    if |cells| == 0 then 0 else cells[0].accessCount + TotalAccesses(cells[1..])
  }

  /** The number of cells holding a qubit. */
  function CellsWritten(cells: seq<Cell>): (r: nat)
    ensures r <= |cells|
  {
    if |cells| == 0 then 0 else (if cells[0].data.Some? then 1 else 0) + CellsWritten(cells[1..])
  }

  lemma {:induction false} TotalAccessesUpdate(cells: seq<Cell>, i: nat, c: Cell)
    requires i < |cells|
    ensures TotalAccesses(cells[i := c]) + cells[i].accessCount == TotalAccesses(cells) + c.accessCount
    ensures CellsWritten(cells[i := c]) + (if cells[i].data.Some? then 1 else 0) ==
      CellsWritten(cells) + (if c.data.Some? then 1 else 0)
  {
    if i > 0 {
      TotalAccessesUpdate(cells[1..], i - 1, c);
      assert cells[i := c][1..] == cells[1..][i - 1 := c];
    } else {
      assert cells[i := c][1..] == cells[1..];
    }
  }

  /**
   * Every successful write or read adds exactly one access in total; a
   * write fills its cell and a read empties it.
   */
  lemma AccessCounting(q: Qram, address: int, data: PhysicalQubit, score: RouteScore)
    requires Valid(q)
    ensures Write(q, address, data, score).Ok? ==>
      var q' := Write(q, address, data, score).value.1;
      TotalAccesses(q'.cells) == TotalAccesses(q.cells) + 1 &&
      CellsWritten(q'.cells) == CellsWritten(q.cells) + (if q.cells[address].data.None? then 1 else 0)
    ensures Read(q, address, score).Ok? ==>
      var q' := Read(q, address, score).value.1;
      TotalAccesses(q'.cells) == TotalAccesses(q.cells) + 1 &&
      CellsWritten(q'.cells) + (if q.cells[address].data.Some? then 1 else 0) == CellsWritten(q.cells)
  {
    if 0 <= address < q.capacity {
      var cell := q.cells[address];
      var routers := LowBits(address, q.width);
      TotalAccessesUpdate(q.cells, address, cell.(data := Some(data), routers := routers, accessCount := cell.accessCount + 1));
      TotalAccessesUpdate(q.cells, address, cell.(data := None, routers := routers, accessCount := cell.accessCount + 1));
    }
  }

  /** The key of the cell maximising (access_count, address), scanning keys below k. */
  function MostAccessed(cells: seq<Cell>, k: nat): (r: nat)
    requires 1 <= k <= |cells|
    ensures r < k
    ensures forall b :: 0 <= b < k ==>
      cells[b].accessCount < cells[r].accessCount || (cells[b].accessCount == cells[r].accessCount && b <= r)
  {
    if k == 1 then 0
    else
      var best := MostAccessed(cells, k - 1);
      if cells[k - 1].accessCount >= cells[best].accessCount then k - 1 else best
  }

  datatype Stats = Stats(capacity: nat, addressWidth: nat, cellsWritten: nat, totalAccesses: nat, mostAccessed: nat)

  /**
   * `get_stats`: the most accessed cell is the one with the greatest
   * (access_count, address), so ties go to the higher address.
   */
  function GetStats(q: Qram): (r: Stats)
    requires Valid(q)
    ensures r.capacity == q.capacity && r.addressWidth == q.width
    ensures r.cellsWritten == CellsWritten(q.cells) <= q.capacity
    ensures r.totalAccesses == TotalAccesses(q.cells)
    ensures r.mostAccessed < q.capacity
    ensures forall b :: 0 <= b < q.capacity ==>
      q.cells[b].accessCount < q.cells[r.mostAccessed].accessCount ||
      (q.cells[b].accessCount == q.cells[r.mostAccessed].accessCount && b <= r.mostAccessed)
  {
    var m := MostAccessed(q.cells, |q.cells|);
    Stats(q.capacity, q.width, CellsWritten(q.cells), TotalAccesses(q.cells), q.cells[m].address)
  }

  // ---- Bucket brigade ----

  /**
   * `bucket_brigade_query`: the measured query bits, least significant
   * first, name an address; the cell at that address modulo the capacity
   * is read.
   */
  function BucketBrigadeQuery(q: Qram, measured: seq<bit>, score: RouteScore): (r: Result<(Option<PhysicalQubit>, Qram), QramError>)
    requires Valid(q)
    ensures r.Err? ==> r.error.KeyError?
    ensures r.Ok? ==> r.value.0 == q.cells[PackBits(measured) % q.capacity].data
  {
    Read(q, PackBits(measured) % q.capacity, score)
  }

  /** Querying with the bits of an address in range reads exactly that address. */
  lemma BucketBrigadeAddress(q: Qram, address: nat, score: RouteScore)
    requires Valid(q) && address < q.capacity
    ensures BucketBrigadeQuery(q, EncodeAddress(address, q.width), score) == Read(q, address, score)
  {
    EncodeAddressBits(address, q.width);
    var p := PackBits(EncodeAddress(address, q.width));
    assert p == address;
    ModSmall(p, q.capacity);
  }

  lemma ModSmall(p: nat, m: nat)
    requires p < m
    ensures p % m == p
  {
  }
}
