/**
 * The noise-mediated storage lattice of storage_lattice.py: typed values
 * are framed by the QBC converter, their E8 indices kept in a storage cell,
 * and the cell filed under an address derived from the key's SHA-256
 * digest (FIPS 180-4, section 6.2), one cell per address.
 *
 * SHA-256, the noise, the nearest-point placement, the measurement and the
 * temporal anchor's clock readings are parameters. The Moonshine lattice
 * enters only through its number of points and the dimensions it rejects.
 */
module StorageLattice {
  import opened Wrappers
  import opened Bytes
  import opened AssocList
  import Utf8
  import Decimal
  import opened Qbc
  import QbcE8
  import QbcBitInt
  import Moonshine
  import RealStats
  import Arith

  /** A SHA-256 digest: 32 bytes. */
  type Digest = d: seq<byte> | |d| == 32 witness [0, 0, 0, 0, 0, 0, 0, 0, 0, 0, 0, 0, 0, 0, 0, 0, 0, 0, 0, 0, 0, 0, 0, 0, 0, 0, 0, 0, 0, 0, 0, 0]

  /** The outside world a storage call consults. */
  datatype Env = Env(noise: NoiseSource, place: QbcE8.Placement, measure: Measure, sha256: seq<byte> -> Digest)

  /** `create_temporal_anchor`; the clock readings other than the timestamp are not modelled. */
  datatype Anchor = Anchor(timestampNs: int)

  datatype StorageCell = StorageCell(
    address: nat,
    dataIndices: seq<nat>,
    dataHash: string,
    anchor: Anchor,
    coherence: real,
    dataType: string)

  /**
   * The storage lattice: the point count of its Moonshine lattice, the
   * `storage_cells` dictionary, the converter values are framed with, and
   * the separate E8 table the statistics report on.
   */
  datatype Storage = Storage(
    dimension: int,
    pointCount: nat,
    cells: Assoc<nat, StorageCell>,
    converter: QbcBitInt.Converter,
    e8: QbcE8.Lattice)

  /**
   * ZeroDivisionError (no lattice points, or an empty E8 table), struct.error
   * (a value the framing cannot pack) and the ValueError of a Moonshine
   * lattice whose dimension cannot hold the E8 block.
   */
  datatype StorageError = ZeroDivision | StructError(value: int) | ValueError(dimension: int)

  /** A fresh storage lattice of the given dimension (persisted state is not loaded). */
  function Init(dimension: int): (r: Result<Storage, StorageError>)
    ensures r.Err? <==> 1 <= dimension < Moonshine.E8Dimension
    ensures r.Err? ==> r.error == ValueError(dimension)
    ensures r.Ok? ==> r.value.pointCount == (if dimension < 0 then 0 else dimension)
    ensures r.Ok? ==> r.value.cells == []
  {
    if 1 <= dimension < Moonshine.E8Dimension then Err(ValueError(dimension))
    else
      Ok(Storage(dimension, if dimension < 0 then 0 else dimension, [],
        QbcBitInt.Converter(Encoder([]), QbcE8.Init()), QbcE8.Init()))
  }

  const HexDigits: string := "0123456789abcdef"

  /** `hexdigest()`: two lower-case hex digits per byte, high nibble first. */
  function HexDigest(d: seq<byte>): (r: string)
    ensures |r| == 2 * |d|
    ensures forall i :: 0 <= i < |r| ==> r[i] in HexDigits
  {
    if |d| == 0 then ""
    else [HexDigits[d[0] / 16], HexDigits[d[0] % 16]] + HexDigest(d[1..])
  }

  /**
   * `find_storage_address`: the first four digest bytes of the UTF-8 key,
   * read little-endian, modulo the number of lattice points; with no points
   * the modulo divides by zero.
   */
  function Address(st: Storage, key: string, env: Env): (r: Result<nat, StorageError>)
    ensures r.Err? <==> st.pointCount == 0
    ensures r.Err? ==> r.error == ZeroDivision
    ensures r.Ok? ==> r.value < st.pointCount
    ensures r.Ok? ==> r.value % st.pointCount == FromLE(env.sha256(Utf8.Encode(key))[..4]) % st.pointCount
  {
    if st.pointCount == 0 then Err(ZeroDivision)
    else
      var v := FromLE(env.sha256(Utf8.Encode(key))[..4]);
      Arith.DivModUnique(v % st.pointCount, st.pointCount, 0, v % st.pointCount);
      Ok(v % st.pointCount)
  }

  /** The mean coherence of the encoded states, 0.0 when there are none. */
  function Coherence(states: seq<QBCState>): (c: real)
    ensures |states| == 0 ==> c == 0.0
    ensures (forall i :: 0 <= i < |states| ==> 0.0 <= states[i].coherenceQuality <= 1.0) ==> 0.0 <= c <= 1.0
  {
    if |states| == 0 then 0.0
    else
      CoherenceInUnit(states);
      RealStats.Mean(Coherences(states))
  }

  lemma CoherenceInUnit(states: seq<QBCState>)
    requires |states| > 0
    ensures (forall i :: 0 <= i < |states| ==> 0.0 <= states[i].coherenceQuality <= 1.0) ==>
      0.0 <= RealStats.Mean(Coherences(states)) <= 1.0
  {
    if forall i :: 0 <= i < |states| ==> 0.0 <= states[i].coherenceQuality <= 1.0 {
      RealStats.MeanInRange(Coherences(states), 0.0, 1.0);
    }
  }

  /** File a cell under its address; the previous cell there, if any, is replaced. */
  function File(st: Storage, address: nat, cell: StorageCell, after: QbcBitInt.Converter): (r: Storage)
    ensures Get(r.cells, address) == Some(cell)
    ensures forall a :: a != address ==> Get(r.cells, a) == Get(st.cells, a)
    ensures DistinctKeys(st.cells) ==> DistinctKeys(r.cells)
    ensures |r.cells| == |st.cells| + (if Get(st.cells, address).None? then 1 else 0)
    ensures r.pointCount == st.pointCount && r.e8 == st.e8 && r.converter == after
  {
    st.(cells := Put(st.cells, address, cell), converter := after)
  }

  /**
   * After a store: the cell at the address holds the encoding's indices,
   * the hash, the anchor and the type; every other address is untouched;
   * the converter is the one after encoding.
   */
  ghost predicate Filed(st: Storage, st': Storage, address: nat, dataType: string, enc: QbcBitInt.Encoded, hash: string, anchor: Anchor)
  {
    var cell := Get(st'.cells, address);
    cell.Some? && cell.value.address == address && cell.value.dataType == dataType &&
    cell.value.dataIndices == enc.indices && cell.value.dataHash == hash && cell.value.anchor == anchor &&
    (forall a :: a != address ==> Get(st'.cells, a) == Get(st.cells, a)) &&
    (DistinctKeys(st.cells) ==> DistinctKeys(st'.cells)) &&
    st'.pointCount == st.pointCount && st'.e8 == st.e8 && st'.dimension == st.dimension &&
    st'.converter == enc.after
  }

  /**
   * `store_string`: frame the text (struct.error for a length beyond the
   * int32 range), hash its UTF-8 bytes, file a 'string' cell under the key's
   * address and return True.
   */
  function StoreString(st: Storage, key: string, value: string, anchor: Anchor, env: Env): (r: Result<(bool, Storage), StorageError>)
    requires QbcE8.Fits(st.converter.lattice, env.place)
    ensures r.Ok? <==> |value| < TwoTo31 && st.pointCount > 0
    ensures |value| >= TwoTo31 ==> r == Err(StructError(|value|))
    ensures r.Ok? ==> r.value.0 && Filed(st, r.value.1, Address(st, key, env).value, "string",
      QbcBitInt.EncodeString(st.converter, value, env.noise, env.place).value,
      HexDigest(env.sha256(Utf8.Encode(value))), anchor)
  {
    match QbcBitInt.EncodeString(st.converter, value, env.noise, env.place)
    case Err(e) => Err(StructError(e.value))
    case Ok(enc) =>
      var hash := HexDigest(env.sha256(Utf8.Encode(value)));
      var coherence := Coherence(enc.states);
      var address :- Address(st, key, env);
      var cell := StorageCell(address, enc.indices, hash, anchor, coherence, "string");
      Ok((true, File(st, address, cell, enc.after)))
  }

  /**
   * `store_int32`: frame the value (struct.error outside the int32 range),
   * hash its four little-endian two's complement bytes, file an 'int32'
   * cell under the key's address and return True.
   */
  function StoreInt32(st: Storage, key: string, value: int, anchor: Anchor, env: Env): (r: Result<(bool, Storage), StorageError>)
    requires QbcE8.Fits(st.converter.lattice, env.place)
    ensures r.Ok? <==> -TwoTo31 <= value < TwoTo31 && st.pointCount > 0
    ensures !(-TwoTo31 <= value < TwoTo31) ==> r == Err(StructError(value))
    ensures r.Ok? ==> r.value.0 && Filed(st, r.value.1, Address(st, key, env).value, "int32",
      QbcBitInt.EncodeInt32(st.converter, value, env.noise, env.place).value,
      HexDigest(env.sha256(PackInt32(value).value)), anchor)
  {
    match QbcBitInt.EncodeInt32(st.converter, value, env.noise, env.place)
    case Err(e) => Err(StructError(e.value))
    case Ok(enc) =>
      var hash := HexDigest(env.sha256(PackInt32(value).value));
      var coherence := Coherence(enc.states);
      var address :- Address(st, key, env);
      var cell := StorageCell(address, enc.indices, hash, anchor, coherence, "int32");
      Ok((true, File(st, address, cell, enc.after)))
  }

  /** The cell at the key's address when it holds the given type. */
  function CellOfType(st: Storage, key: string, env: Env, dataType: string): (r: Result<Option<StorageCell>, StorageError>)
    ensures r.Err? <==> st.pointCount == 0
    ensures r.Ok? ==> (r.value.None? <==>
      Get(st.cells, Address(st, key, env).value).None? || Get(st.cells, Address(st, key, env).value).value.dataType != dataType)
    ensures r.Ok? && r.value.Some? ==> Get(st.cells, Address(st, key, env).value) == r.value && r.value.value.dataType == dataType
  {
    var address :- Address(st, key, env);
    match Get(st.cells, address)
    case None => Ok(None)
    case Some(cell) => if cell.dataType != dataType then Ok(None) else Ok(Some(cell))
  }

  /**
   * `retrieve_string`: None when the key's address holds no cell or a cell
   * of another type; otherwise the decoded text, whether or not it matches
   * the stored hash (a mismatch only prints a warning).
   */
  function RetrieveString(st: Storage, key: string, env: Env): (r: Result<Option<string>, StorageError>)
    ensures r.Err? <==> st.pointCount == 0
    ensures r.Ok? ==> (r.value.None? <==> CellOfType(st, key, env, "string").value.None?)
    ensures r.Ok? && r.value.Some? ==>
      r.value.value == QbcBitInt.DecodeString(st.converter.lattice, CellOfType(st, key, env, "string").value.value.dataIndices, env.measure)
  {
    var cell :- CellOfType(st, key, env, "string");
    match cell
    case None => Ok(None)
    case Some(c) => Ok(Some(QbcBitInt.DecodeString(st.converter.lattice, c.dataIndices, env.measure)))
  }

  /** `retrieve_int32`: None when the key's address holds no 'int32' cell; otherwise the decoded value. */
  function RetrieveInt32(st: Storage, key: string, env: Env): (r: Result<Option<int>, StorageError>)
    ensures r.Err? <==> st.pointCount == 0
    ensures r.Ok? ==> (r.value.None? <==> CellOfType(st, key, env, "int32").value.None?)
    ensures r.Ok? && r.value.Some? ==>
      r.value.value == QbcBitInt.DecodeInt32(st.converter.lattice, CellOfType(st, key, env, "int32").value.value.dataIndices, env.measure)
  {
    var cell :- CellOfType(st, key, env, "int32");
    match cell
    case None => Ok(None)
    case Some(c) => Ok(Some(QbcBitInt.DecodeInt32(st.converter.lattice, c.dataIndices, env.measure)))
  }

  // ---- Round trips ----

  /**
   * With an ideal measurement and distinct storage points, a stored text of
   * at most 10000 characters below code point 256 is retrieved unchanged.
   */
  lemma StringRoundTrip(st: Storage, key: string, value: string, anchor: Anchor, env: Env)
    requires QbcE8.Fits(st.converter.lattice, env.place)
    requires st.pointCount > 0
    requires |value| <= QbcBitInt.MaxStringLength && Latin1(value)
    requires Ideal(env.measure)
    requires QbcE8.Distinct(QbcBitInt.EncodeString(st.converter, value, env.noise, env.place).value.indices)
    ensures StoreString(st, key, value, anchor, env).Ok?
    ensures RetrieveString(StoreString(st, key, value, anchor, env).value.1, key, env) == Ok(Some(value))
  {
    QbcBitInt.StringRoundTripStored(st.converter, value, env.noise, env.place, env.measure);
    var st' := StoreString(st, key, value, anchor, env).value.1;
    assert Address(st', key, env) == Address(st, key, env);
  }

  /** With an ideal measurement and distinct storage points, a stored int32 is retrieved unchanged. */
  lemma Int32RoundTrip(st: Storage, key: string, value: int, anchor: Anchor, env: Env)
    requires QbcE8.Fits(st.converter.lattice, env.place)
    requires st.pointCount > 0
    requires -TwoTo31 <= value < TwoTo31
    requires Ideal(env.measure)
    requires QbcE8.Distinct(QbcBitInt.EncodeInt32(st.converter, value, env.noise, env.place).value.indices)
    ensures StoreInt32(st, key, value, anchor, env).Ok?
    ensures RetrieveInt32(StoreInt32(st, key, value, anchor, env).value.1, key, env) == Ok(Some(value))
  {
    QbcBitInt.Int32RoundTripStored(st.converter, value, env.noise, env.place, env.measure);
    var st' := StoreInt32(st, key, value, anchor, env).value.1;
    assert Address(st', key, env) == Address(st, key, env);
  }

  /**
   * Keys whose digests give the same address share one cell: storing an
   * int32 under one replaces a text stored under the other, which then
   * reads back as None.
   */
  lemma CollidingKeysOverwrite(st: Storage, k1: string, k2: string, v1: string, v2: int, a1: Anchor, a2: Anchor, env: Env)
    requires QbcE8.Fits(st.converter.lattice, env.place)
    requires StoreString(st, k1, v1, a1, env).Ok?
    requires var st1 := StoreString(st, k1, v1, a1, env).value.1;
      QbcE8.Fits(st1.converter.lattice, env.place) && StoreInt32(st1, k2, v2, a2, env).Ok?
    requires Address(st, k1, env) == Address(st, k2, env)
    ensures var st1 := StoreString(st, k1, v1, a1, env).value.1;
      RetrieveString(StoreInt32(st1, k2, v2, a2, env).value.1, k1, env) == Ok(None)
  {
    var st1 := StoreString(st, k1, v1, a1, env).value.1;
    var st2 := StoreInt32(st1, k2, v2, a2, env).value.1;
    assert Address(st2, k1, env) == Address(st, k1, env);
    assert Address(st1, k2, env) == Address(st, k2, env);
  }

  /** The stored hash is never consulted on retrieval: a cell with a corrupted hash reads the same. */
  lemma HashIgnored(st: Storage, key: string, env: Env, address: nat, cell: StorageCell, badHash: string)
    ensures RetrieveString(st.(cells := Put(st.cells, address, cell.(dataHash := badHash))), key, env) ==
      RetrieveString(st.(cells := Put(st.cells, address, cell)), key, env)
  {
  }

  // ---- Keys and statistics ----

  /** `list_keys`: the addresses in insertion order, as decimal strings. */
  function ListKeys(st: Storage): (r: seq<string>)
    ensures |r| == |st.cells|
    ensures forall i :: 0 <= i < |r| ==> Decimal.AllDigits(r[i]) && Decimal.FromDecimal(r[i]) == st.cells[i].0
    ensures DistinctKeys(st.cells) ==> forall i, j :: 0 <= i < j < |r| ==> r[i] != r[j]
  {
    var r := seq(|st.cells|, i requires 0 <= i < |st.cells| => Decimal.ToDecimal(st.cells[i].0));
    forall i | 0 <= i < |r| ensures Decimal.AllDigits(r[i]) && Decimal.FromDecimal(r[i]) == st.cells[i].0 {
      Decimal.FromToDecimal(st.cells[i].0);
    }
    r
  }

  /** The total of the counts in a counting dictionary. */
  function SumValues(m: Assoc<string, nat>): nat
  {
    if |m| == 0 then 0 else m[0].1 + SumValues(m[1..])
  }

  lemma {:induction false} SumValuesPut(m: Assoc<string, nat>, k: string, v: nat)
    ensures SumValues(Put<string, nat>(m, k, v)) == SumValues(m) - Get(m, k).GetOr(0) + v
  {
    if |m| > 0 && m[0].0 != k {
      SumValuesPut(m[1..], k, v);
    }
  }

  /** `type_counts`: per data type, how many cells hold it, in order of first appearance. */
  function TypeCounts(cells: Assoc<nat, StorageCell>): Assoc<string, nat>
    decreases |cells|
  {
    if |cells| == 0 then []
    else
      var front := TypeCounts(cells[..|cells| - 1]);
      var t := cells[|cells| - 1].1.dataType;
      Put<string, nat>(front, t, Get(front, t).GetOr(0) + 1)
  }

  /** Every cell is counted once: the type counts add up to the number of cells. */
  lemma {:induction false} TypeCountsTotal(cells: Assoc<nat, StorageCell>)
    ensures SumValues(TypeCounts(cells)) == |cells|
    decreases |cells|
  {
    if |cells| > 0 {
      var init := cells[..|cells| - 1];
      var front := TypeCounts(init);
      var t := cells[|cells| - 1].1.dataType;
      var g: nat := Get(front, t).GetOr(0);
      TypeCountsTotal(init);
      assert SumValues(front) == |init|;
      SumValuesPut(front, t, g + 1);
      assert TypeCounts(cells) == Put<string, nat>(front, t, g + 1);
    }
  }

  /** The positions of the cells that hold data of type t. */
  function TypeSet(cells: Assoc<nat, StorageCell>, t: string): set<int>
  {
    set i | 0 <= i < |cells| && cells[i].1.dataType == t
  }

  /** How many cells hold data of type t. */
  function TypeCount(cells: Assoc<nat, StorageCell>, t: string): nat
  {
    |TypeSet(cells, t)|
  }

  /** The last cell adds one to the count of its own type and nothing to the others. */
  lemma TypeCountSnoc(cells: Assoc<nat, StorageCell>, t: string)
    requires |cells| > 0
    ensures TypeCount(cells, t) ==
      TypeCount(cells[..|cells| - 1], t) + (if cells[|cells| - 1].1.dataType == t then 1 else 0)
  {
    var last := |cells| - 1;
    var front := cells[..last];
    var added := if cells[last].1.dataType == t then {last} else {};
    assert TypeSet(cells, t) == TypeSet(front, t) + added by {
      forall i | i in TypeSet(cells, t) ensures i in TypeSet(front, t) + added {
        if i < last {
          assert front[i] == cells[i];
        }
      }
      forall i | i in TypeSet(front, t) ensures i in TypeSet(cells, t) {
        assert front[i] == cells[i];
      }
    }
    assert last !in TypeSet(front, t);
  }

  /**
   * `type_counts` holds each type once, and maps it to the number of cells
   * of that type; a type no cell holds is absent.
   */
  lemma {:induction false} TypeCountsExact(cells: Assoc<nat, StorageCell>)
    ensures DistinctKeys(TypeCounts(cells))
    ensures forall t :: Get(TypeCounts(cells), t) == if TypeCount(cells, t) == 0 then None else Some(TypeCount(cells, t))
    decreases |cells|
  {
    if |cells| > 0 {
      var init := cells[..|cells| - 1];
      TypeCountsExact(init);
      forall t ensures Get(TypeCounts(cells), t) == if TypeCount(cells, t) == 0 then None else Some(TypeCount(cells, t)) {
        TypeCountSnoc(cells, t);
      }
    }
  }

  function CellCoherences(cells: Assoc<nat, StorageCell>): (r: seq<real>)
    ensures |r| == |cells|
    ensures forall i :: 0 <= i < |cells| ==> r[i] == cells[i].1.coherence
  {
    seq(|cells|, i requires 0 <= i < |cells| => cells[i].1.coherence)
  }

  function Timestamps(cells: Assoc<nat, StorageCell>): (r: seq<real>)
    ensures |r| == |cells|
  {
    seq(|cells|, i requires 0 <= i < |cells| => cells[i].1.anchor.timestampNs as real)
  }

  datatype Statistics =
    | EmptyStats
    | Stats(
        totalCells: nat,
        avgCoherence: real,
        minCoherence: real,
        maxCoherence: real,
        temporalSpanNs: real,
        storageTypes: Assoc<string, nat>,
        moonshineDimension: int,
        e8CapacityUsed: nat)

  /**
   * What a report says about non-empty cells: their number, the mean, least
   * and greatest coherence, the span between the latest and the earliest
   * timestamp (0 for a single cell), and for each type the number of cells
   * holding it.
   */
  ghost predicate Summarises(cells: Assoc<nat, StorageCell>, s: Statistics)
  {
    && |cells| > 0 && s.Stats?
    && s.totalCells == |cells|
    && s.avgCoherence == RealStats.Mean(CellCoherences(cells))
    && s.minCoherence == RealStats.Min(CellCoherences(cells))
    && s.maxCoherence == RealStats.Max(CellCoherences(cells))
    && s.temporalSpanNs ==
      (if |cells| > 1 then RealStats.Max(Timestamps(cells)) - RealStats.Min(Timestamps(cells)) else 0.0)
    && DistinctKeys(s.storageTypes)
    && forall t :: Get(s.storageTypes, t) == if TypeCount(cells, t) == 0 then None else Some(TypeCount(cells, t))
  }

  /**
   * The `get_statistics` summary, with the E8 usage read from the given
   * table: the fixed empty summary (total_cells 0, average 0.0, span 0, no
   * types) when nothing is stored; otherwise the type counts add up to the
   * number of cells, the average lies between the extremes and the E8
   * usage is the table's. An empty table divides by zero.
   */
  function StatisticsOver(st: Storage, table: QbcE8.Lattice): (r: Result<Statistics, StorageError>)
    ensures |st.cells| == 0 ==> r == Ok(EmptyStats)
    ensures |st.cells| > 0 ==> (r.Err? <==> |table.points| == 0)
    ensures r.Ok? && r.value.Stats? ==>
      r.value.totalCells == |st.cells| && SumValues(r.value.storageTypes) == |st.cells| &&
      r.value.minCoherence <= r.value.avgCoherence <= r.value.maxCoherence &&
      r.value.temporalSpanNs >= 0.0 && r.value.moonshineDimension == st.dimension &&
      r.value.e8CapacityUsed == QbcE8.GetStorageStats(table).value.capacityUsedPercent
    ensures r.Ok? && |st.cells| > 0 ==> Summarises(st.cells, r.value)
  {
    if |st.cells| == 0 then Ok(EmptyStats)
    else
      match QbcE8.GetStorageStats(table)
      case None => Err(ZeroDivision)
      case Some(e8) =>
        ReportFacts(st.cells, st.dimension, e8.capacityUsedPercent);
        Ok(Report(st.cells, st.dimension, e8.capacityUsedPercent))
  }

  /** The report on non-empty cells, with the dimension and E8 usage given. */
  function Report(cells: Assoc<nat, StorageCell>, dimension: int, e8Used: nat): Statistics
    requires |cells| > 0
  {
    var cs := CellCoherences(cells);
    var ts := Timestamps(cells);
    var span := if |ts| > 1 then RealStats.Max(ts) - RealStats.Min(ts) else 0.0;
    Stats(|cells|, RealStats.Mean(cs), RealStats.Min(cs), RealStats.Max(cs), span,
      TypeCounts(cells), dimension, e8Used)
  }

  /** The report summarises the cells, and its figures are consistent with each other. */
  lemma ReportFacts(cells: Assoc<nat, StorageCell>, dimension: int, e8Used: nat)
    requires |cells| > 0
    ensures var s := Report(cells, dimension, e8Used);
      && Summarises(cells, s)
      && SumValues(s.storageTypes) == |cells|
      && s.minCoherence <= s.avgCoherence <= s.maxCoherence
      && s.temporalSpanNs >= 0.0
      && s.moonshineDimension == dimension && s.e8CapacityUsed == e8Used
  {
    var s := Report(cells, dimension, e8Used);
    assert s.minCoherence <= s.avgCoherence <= s.maxCoherence by {
      RealStats.MeanBetween(CellCoherences(cells));
    }
    assert SumValues(s.storageTypes) == |cells| by {
      TypeCountsTotal(cells);
    }
    assert Summarises(cells, s) by {
      TypeCountsExact(cells);
    }
    if |cells| > 1 {
      var ts := Timestamps(cells);
      assert RealStats.Min(ts) <= ts[0] <= RealStats.Max(ts);
    }
  }

  /**
   * `get_statistics` as written: the E8 usage comes from the storage
   * lattice's own `qbc_e8` table, which no store ever writes to.
   */
  function GetStatistics(st: Storage): (r: Result<Statistics, StorageError>)
    ensures |st.cells| == 0 ==> r == Ok(EmptyStats)
    ensures |st.cells| > 0 ==> (r.Err? <==> |st.e8.points| == 0)
    ensures r.Ok? && r.value.Stats? ==>
      r.value.totalCells == |st.cells| && SumValues(r.value.storageTypes) == |st.cells| &&
      r.value.minCoherence <= r.value.avgCoherence <= r.value.maxCoherence &&
      r.value.temporalSpanNs >= 0.0 && r.value.moonshineDimension == st.dimension &&
      r.value.e8CapacityUsed == QbcE8.GetStorageStats(st.e8).value.capacityUsedPercent
    ensures r.Ok? && |st.cells| > 0 ==> Summarises(st.cells, r.value)
  {
    StatisticsOver(st, st.e8)
  }

  /** `get_statistics` reporting the table the values are actually stored in: the converter's. */
  function GetStatisticsCorrected(st: Storage): (r: Result<Statistics, StorageError>)
    ensures |st.cells| == 0 ==> r == Ok(EmptyStats)
    ensures |st.cells| > 0 ==> (r.Err? <==> |st.converter.lattice.points| == 0)
    ensures r.Ok? && r.value.Stats? ==>
      r.value.totalCells == |st.cells| && SumValues(r.value.storageTypes) == |st.cells| &&
      r.value.minCoherence <= r.value.avgCoherence <= r.value.maxCoherence &&
      r.value.temporalSpanNs >= 0.0 && r.value.moonshineDimension == st.dimension &&
      r.value.e8CapacityUsed == QbcE8.GetStorageStats(st.converter.lattice).value.capacityUsedPercent
    ensures r.Ok? && |st.cells| > 0 ==> Summarises(st.cells, r.value)
  {
    StatisticsOver(st, st.converter.lattice)
  }

  function ElementsOf(xs: seq<nat>): (r: set<nat>)
    ensures forall k :: k in r <==> k in xs
  {
    set k | k in xs
  }

  /** The elements of a duplicate-free sequence form a set of the same size. */
  lemma {:induction false} DistinctElements(xs: seq<nat>)
    requires QbcE8.Distinct(xs)
    ensures |ElementsOf(xs)| == |xs|
  {
    if |xs| > 0 {
      DistinctElements(xs[1..]);
      assert ElementsOf(xs) == ElementsOf(xs[1..]) + {xs[0]};
      assert xs[0] !in ElementsOf(xs[1..]);
    }
  }

  /** Both E8 tables as a new storage lattice has them: 184 points, none holding a state. */
  ghost predicate FreshTables(st: Storage)
  {
    |st.e8.points| == 184 && |st.converter.lattice.points| == 184 &&
    (forall k :: 0 <= k < 184 ==> st.e8.points[k].state.None?)
  }

  lemma InitFresh(dimension: int)
    requires Init(dimension).Ok?
    ensures FreshTables(Init(dimension).value)
  {
    QbcE8.InitShape();
  }

  /**
   * As written, the reported E8 usage of a fresh storage lattice (as
   * `Init` makes one) stays 0
   * after an int32 is stored, although the value's 32 states now occupy
   * 32 points of the converter's table.
   */
  lemma CapacityUsedStaysZero(st: Storage, key: string, value: int, anchor: Anchor, env: Env)
    requires FreshTables(st) && |st.cells| == 0
    requires st.pointCount > 0 && -TwoTo31 <= value < TwoTo31
    requires QbcE8.Fits(st.converter.lattice, env.place)
    requires QbcE8.Distinct(QbcBitInt.EncodeInt32(st.converter, value, env.noise, env.place).value.indices)
    ensures StoreInt32(st, key, value, anchor, env).Ok?
    ensures var st' := StoreInt32(st, key, value, anchor, env).value.1;
      GetStatistics(st').value.e8CapacityUsed == 0 &&
      QbcE8.CountStored(st'.converter.lattice.points) >= 32
  {
    var st' := StoreInt32(st, key, value, anchor, env).value.1;
    QbcE8.EmptyTableStats(st.e8);
    Int32Occupies(st, key, value, anchor, env);
  }

  /** An int32 stored with distinct points occupies at least 32 points of the converter's table. */
  lemma Int32Occupies(st: Storage, key: string, value: int, anchor: Anchor, env: Env)
    requires QbcE8.Fits(st.converter.lattice, env.place)
    requires st.pointCount > 0 && -TwoTo31 <= value < TwoTo31
    requires QbcE8.Distinct(QbcBitInt.EncodeInt32(st.converter, value, env.noise, env.place).value.indices)
    ensures StoreInt32(st, key, value, anchor, env).Ok?
    ensures QbcE8.CountStored(StoreInt32(st, key, value, anchor, env).value.1.converter.lattice.points) >= 32
  {
    var vs := QbcBitInt.Widen(PackInt32(value).value);
    var enc := QbcBitInt.EncodeInt32(st.converter, value, env.noise, env.place).value;
    assert enc == QbcBitInt.EncodeAndStore(st.converter, vs, env.noise, env.place);
    QbcBitInt.EncodedRetrievable(st.converter, vs, env.noise, env.place);
    var ps := enc.after.lattice.points;
    var occupied := ElementsOf(enc.indices);
    forall k | k in occupied ensures k < |ps| && ps[k].state.Some? {
      var j :| 0 <= j < |enc.indices| && enc.indices[j] == k;
      assert QbcE8.Retrieve(enc.after.lattice, enc.indices[j]).Some?;
    }
    DistinctElements(enc.indices);
    QbcE8.CountStoredAtLeast(ps, occupied);
  }

  /**
   * Reading the converter's table instead, the reported usage of a fresh
   * storage lattice (as `Init` makes one) after an int32 is stored is at least 17 percent
   * (32 of the 184 points).
   */
  lemma CorrectedCapacityUsed(st: Storage, key: string, value: int, anchor: Anchor, env: Env)
    requires FreshTables(st) && |st.cells| == 0
    requires st.pointCount > 0 && -TwoTo31 <= value < TwoTo31
    requires QbcE8.Fits(st.converter.lattice, env.place)
    requires QbcE8.Distinct(QbcBitInt.EncodeInt32(st.converter, value, env.noise, env.place).value.indices)
    ensures StoreInt32(st, key, value, anchor, env).Ok?
    ensures GetStatisticsCorrected(StoreInt32(st, key, value, anchor, env).value.1).value.e8CapacityUsed >= 17
  {
    var st' := StoreInt32(st, key, value, anchor, env).value.1;
    Int32Occupies(st, key, value, anchor, env);
    PercentBound(QbcE8.CountStored(st'.converter.lattice.points), |st'.converter.lattice.points|);
  }

  lemma PercentBound(stored: nat, n: nat)
    requires n == 184 && stored >= 32
    ensures (100 * stored) / n >= 17
  {
    assert 100 * stored >= 17 * n;
  }
}
