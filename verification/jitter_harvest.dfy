/**
 * The jitter harvesters, the deadline- and capacity-bounded collector and
 * the integer half of `jitter_to_qubit_state` from
 * hardware_bitstream_monitor.c. Every `rdtsc()` value comes from a clock
 * function indexed by read number; the trigonometry is a parameter.
 */
module JitterHarvest {
  import opened Wrappers
  import opened Arith
  import opened Bytes

  datatype JitterSample = JitterSample(jitterNs: u64, source: u32)

  /** Source tags: execution 0x01, cache 0x02, branch predictor 0x04. */
  const ExecTag: u32 := 0x01
  const CacheTag: u32 := 0x02
  const BranchTag: u32 := 0x04

  /** `end - start` on `uint64_t`: the true difference, or that plus 2^64 when the counter wrapped. */
  function Elapsed(start: u64, end: u64): (d: u64)
    ensures start <= end ==> d == end - start
    ensures end < start ==> d == end - start + TwoTo64
  {
    Wrap64(end - start)
  }

  /** The squares summed by the execution loop: 0^2 + 1^2 + ... + (n-1)^2. */
  function SquareSum(n: nat): nat
  {
    if n == 0 then 0 else SquareSum(n - 1) + (n - 1) * (n - 1)
  }

  /**
   * The busy loop of `harvest_execution_jitter`: `(start & 0x7F) + 1`
   * iterations (the mask is the remainder modulo 128), accumulating i * i.
   */
  method ExecutionLoop(start: u64) returns (iterations: nat, x: int)
    ensures iterations == start % 128 + 1
    ensures 1 <= iterations <= 128
    ensures 6 * x == (iterations - 1) * iterations * (2 * iterations - 1)
    ensures 0 <= x < 0x8000_0000
  {
    var bound := start % 128 + 1;
    x := 0;
    var i := 0;
    while i < bound
      invariant 0 <= i <= bound
      invariant x == SquareSum(i)
      decreases bound - i
    {
      x := x + i * i;
      i := i + 1;
    }
    iterations := i;
    SquareSumClosed(i);
    SquareSumBound(i);
  }

  lemma {:induction false} SquareSumClosed(n: nat)
    ensures 6 * SquareSum(n) == (n - 1) * n * (2 * n - 1)
  {
    if n > 0 {
      SquareSumClosed(n - 1);
      CubeStep(n - 1);
    }
  }

  /** The closed form of SquareSum grows by 6·m² from m to m + 1. */
  lemma CubeStep(m: int)
    ensures (m - 1) * m * (2 * m - 1) + 6 * (m * m) == m * (m + 1) * (2 * (m + 1) - 1)
  {
  }

  lemma {:induction false} SquareSumBound(n: nat)
    requires n <= 128
    ensures SquareSum(n) <= SquareSum(128)
    ensures SquareSum(128) == 690880
  {
    SquareSumClosed(128);
    if n < 128 {
      SquareSumMono(n, 128);
    }
  }

  lemma {:induction false} SquareSumMono(a: nat, b: nat)
    requires a <= b
    ensures SquareSum(a) <= SquareSum(b)
    decreases b - a
  {
    if a < b {
      SquareSumMono(a, b - 1);
    }
  }

  /** `harvest_execution_jitter` for the two counter readings around its loop. */
  function HarvestExecution(start: u64, end: u64): (s: JitterSample)
    ensures s.source == ExecTag && s.jitterNs == Elapsed(start, end)
  {
    JitterSample(Elapsed(start, end), ExecTag)
  }

  /** The probe index `(start * 64) % size`, the product taken modulo 2^64. */
  function CacheIndex(start: u64, size: u64): (i: nat)
    requires size > 0
    ensures i < size
    ensures i == ((start * 64) % TwoTo64) % size
    ensures start < TwoTo64 / 64 ==> i == (start * 64) % size
  {
    Wrap64(start * 64) % size
  }

  /** `harvest_cache_jitter`; a zero-sized probe array is a remainder by zero in C. */
  function HarvestCache(start: u64, end: u64, size: u64): (r: (JitterSample, nat))
    requires size > 0
    ensures r.0.source == CacheTag && r.0.jitterNs == Elapsed(start, end)
    ensures r.1 < size
  {
    (JitterSample(Elapsed(start, end), CacheTag), CacheIndex(start, size))
  }

  /** Bit i of v. */
  function Bit(v: nat, i: nat): bit
  {
    (v / Pow(2, i)) % 2
  }

  /** i (i - 1) / 2: the sum 0 + 1 + ... + (i - 1). */
  function Triangle(i: nat): nat
  {
    i * (i - 1) / 2
  }

  /**
   * The branch loop of `harvest_branch_jitter`: exactly 16 iterations over a
   * 32-bit LCG seed, adding i when bit i of the seed is set and subtracting
   * it otherwise. The accumulator stays within +-120 and is even.
   */
  method BranchLoop(start: u64) returns (iterations: nat, result: int)
    ensures iterations == 16
    ensures -120 <= result <= 120
    ensures result % 2 == 0
  {
    var seed: u32 := start % TwoTo32;
    result := 0;
    var i := 0;
    while i < 16
      invariant 0 <= i <= 16
      invariant -(Triangle(i) as int) <= result <= Triangle(i)
      invariant (result + Triangle(i)) % 2 == 0
      decreases 16 - i
    {
      TriangleStep(i);
      ParityStep(result, Triangle(i), i);
      if Bit(seed, i) == 1 {
        result := result + i;
      } else {
        result := result - i;
      }
      seed := (seed * 1103515245 + 12345) % TwoTo32;
      i := i + 1;
    }
    iterations := i;
    assert Triangle(16) == 120;
  }

  /** Moving the walk by ±i while the triangle grows by i keeps their sum's parity. */
  lemma ParityStep(r: int, t: int, i: nat)
    requires (r + t) % 2 == 0
    ensures (r + i + (t + i)) % 2 == 0 && (r - i + (t + i)) % 2 == 0
  {
    assert r + i + (t + i) == (r + t) + 2 * i;
  }

  lemma TriangleStep(i: nat)
    ensures Triangle(i + 1) == Triangle(i) + i
  {
    assert (i + 1) * i == i * (i - 1) + 2 * i;
  }

  /** `harvest_branch_jitter` for the two counter readings around its loop. */
  function HarvestBranch(start: u64, end: u64): (s: JitterSample)
    ensures s.source == BranchTag && s.jitterNs == Elapsed(start, end)
  {
    JitterSample(Elapsed(start, end), BranchTag)
  }

  /** Counter readings in call order: reading n is the value of the n-th `rdtsc()`. */
  type Clock = nat -> u64

  /** The source tag of sample i: execution, cache and branch in turn. */
  function TagAt(i: nat): u32
  {
    if i % 3 == 0 then ExecTag else if i % 3 == 1 then CacheTag else BranchTag
  }

  /**
   * The first of the two readings behind sample i. Reading 0 is `start_tsc`;
   * each round reads once for the deadline test and twice per harvester.
   */
  function StartRead(i: nat): nat
  {
    2 + 7 * (i / 3) + 2 * (i % 3)
  }

  /** The deadline-test reading that opens round t. */
  function TestRead(t: nat): nat
  {
    1 + 7 * t
  }

  /** Sample i as the collector stores it. */
  function Expected(clock: Clock, i: nat): JitterSample
  {
    JitterSample(Elapsed(clock(StartRead(i)), clock(StartRead(i) + 1)), TagAt(i))
  }

  function Min(a: nat, b: nat): nat
  {
    if a <= b then a else b
  }

  /**
   * `collect_synchronized_jitter`. Allocation is taken to succeed. The
   * capacity `cesium_cycles * 10` and the deadline `start + cesium_cycles`
   * wrap modulo 2^64 as `size_t`/`uint64_t` do. Each round harvests all three
   * sources and stores as many as still fit.
   */
  method Collect(cesiumCycles: u64, clock: Clock) returns (samples: seq<JitterSample>, capacity: u64, rounds: nat)
    ensures capacity == Wrap64(cesiumCycles * 10)
    ensures |samples| <= capacity
    ensures |samples| == Min(3 * rounds, capacity)
    ensures forall i :: 0 <= i < |samples| ==> samples[i].source == TagAt(i)
    ensures forall i :: 0 <= i < |samples| ==> samples[i] == Expected(clock, i)
    ensures rounds <= (capacity + 2) / 3
    ensures forall t :: 0 <= t < rounds ==> clock(TestRead(t)) < Wrap64(clock(0) + cesiumCycles)
    ensures clock(TestRead(rounds)) >= Wrap64(clock(0) + cesiumCycles) || |samples| == capacity
  {
    capacity := Wrap64(cesiumCycles * 10);
    var target := Wrap64(clock(0) + cesiumCycles);
    samples := [];
    rounds := 0;
    while clock(TestRead(rounds)) < target && |samples| < capacity
      invariant |samples| == Min(3 * rounds, capacity)
      invariant rounds == 0 || 3 * (rounds - 1) < capacity
      invariant forall i :: 0 <= i < |samples| ==> samples[i] == Expected(clock, i)
      invariant forall t :: 0 <= t < rounds ==> clock(TestRead(t)) < target
      decreases capacity - |samples|
    {
      var r := TestRead(rounds);
      var exec := HarvestExecution(clock(r + 1), clock(r + 2));
      var cache := JitterSample(Elapsed(clock(r + 3), clock(r + 4)), CacheTag);
      var branch := HarvestBranch(clock(r + 5), clock(r + 6));
      var harvested := [exec, cache, branch];
      RoundStep(samples, harvested, clock, rounds, capacity);
      samples := samples + harvested[..Min(3, capacity - |samples|)];
      rounds := rounds + 1;
    }
    RoundBound(rounds, capacity);
  }

  /** Storing the three samples of round t, as many as fit, keeps the collector's invariant. */
  lemma RoundStep(samples: seq<JitterSample>, harvested: seq<JitterSample>, clock: Clock, t: nat, capacity: nat)
    requires |samples| == Min(3 * t, capacity) && |samples| < capacity
    requires forall i :: 0 <= i < |samples| ==> samples[i] == Expected(clock, i)
    requires harvested == [
      HarvestExecution(clock(TestRead(t) + 1), clock(TestRead(t) + 2)),
      JitterSample(Elapsed(clock(TestRead(t) + 3), clock(TestRead(t) + 4)), CacheTag),
      HarvestBranch(clock(TestRead(t) + 5), clock(TestRead(t) + 6))]
    ensures var next := samples + harvested[..Min(3, capacity - |samples|)];
      |next| == Min(3 * (t + 1), capacity) &&
      forall i :: 0 <= i < |next| ==> next[i] == Expected(clock, i)
  {
    RoundReads(t);
    assert |samples| == 3 * t;
    assert harvested[0] == Expected(clock, 3 * t);
    assert harvested[1] == Expected(clock, 3 * t + 1);
    assert harvested[2] == Expected(clock, 3 * t + 2);
  }

  /** The readings of round t: sample 3t + j is harvested from readings 2 + 7t + 2j and 3 + 7t + 2j. */
  lemma RoundReads(t: nat)
    ensures StartRead(3 * t) == TestRead(t) + 1 && TagAt(3 * t) == ExecTag
    ensures StartRead(3 * t + 1) == TestRead(t) + 3 && TagAt(3 * t + 1) == CacheTag
    ensures StartRead(3 * t + 2) == TestRead(t) + 5 && TagAt(3 * t + 2) == BranchTag
  {
    DivModUnique(3 * t, 3, t, 0);
    DivModUnique(3 * t + 1, 3, t, 1);
    DivModUnique(3 * t + 2, 3, t, 2);
  }

  lemma RoundBound(rounds: nat, capacity: nat)
    requires rounds == 0 || 3 * (rounds - 1) < capacity
    ensures rounds <= (capacity + 2) / 3
  {
    if rounds > 0 {
      DivModUnique(capacity + 2, 3, (capacity + 2) / 3, (capacity + 2) % 3);
    }
  }

  /** The sum the C loop accumulates in a `uint64_t`, wrapping at each addition. */
  function WrappingSum(xs: seq<u64>): (s: u64)
    decreases |xs|
  {
    if |xs| == 0 then 0 else Wrap64(WrappingSum(xs[..|xs| - 1]) + xs[|xs| - 1])
  }

  function IntSum(xs: seq<int>): int
    decreases |xs|
  {
    if |xs| == 0 then 0 else IntSum(xs[..|xs| - 1]) + xs[|xs| - 1]
  }

  /** Wrapping at every addition gives the true sum reduced modulo 2^64. */
  lemma {:induction false} WrappingSumIsSumMod(xs: seq<u64>)
    ensures WrappingSum(xs) == IntSum(xs) % TwoTo64
    decreases |xs|
  {
    if |xs| > 0 {
      var init := xs[..|xs| - 1];
      WrappingSumIsSumMod(init);
      AddMod(IntSum(init), xs[|xs| - 1], TwoTo64);
    }
  }

  function Jitters(samples: seq<JitterSample>): (r: seq<u64>)
    ensures |r| == |samples|
    ensures forall i :: 0 <= i < |samples| ==> r[i] == samples[i].jitterNs
  {
    seq(|samples|, i requires 0 <= i < |samples| => samples[i].jitterNs)
  }

  datatype QubitState = QubitState(alphaReal: real, alphaImag: real, betaReal: real, betaImag: real)

  /** |0>: the state returned for a NULL or empty buffer. */
  const Default := QubitState(1.0, 0.0, 0.0, 0.0)

  /** `sum & 0xFFFF`: the index of theta in 65536 steps of pi / 65535. */
  function ThetaIndex(sum: u64): (t: nat)
    ensures t < 65536
  {
    sum % 65536
  }

  /** `(sum >> 16) & 0xFFFF`: the index of phi. */
  function PhiIndex(sum: u64): (p: nat)
    ensures p < 65536
  {
    (sum / 65536) % 65536
  }

  /** The two 16-bit windows together are the low 32 bits of the sum. */
  lemma WindowsRecompose(sum: u64)
    ensures ThetaIndex(sum) + 65536 * PhiIndex(sum) == sum % TwoTo32
  {
    var t := sum % 65536;
    var q := sum / 65536;
    var p := q % 65536;
    var q2 := q / 65536;
    assert sum == 65536 * q + t;
    assert q == 65536 * q2 + p;
    assert sum == TwoTo32 * q2 + (65536 * p + t);
    DivModUnique(sum, TwoTo32, q2, 65536 * p + t);
  }

  /**
   * The amplitudes for a theta index and a phi index: cos(theta / 2),
   * sin(theta / 2) cos(phi), sin(theta / 2) sin(phi). Floating point is not
   * modelled.
   */
  type Amplitudes = (nat, nat) -> (real, real, real)

  /**
   * `jitter_to_qubit_state`: the default for NULL or an empty buffer,
   * otherwise the amplitudes at the two windows of the wrapping sum, with a
   * real alpha.
   */
  function JitterToQubitState(buffer: Option<seq<JitterSample>>, amps: Amplitudes): (q: QubitState)
    ensures buffer.None? || |buffer.value| == 0 ==> q == Default
    ensures q.alphaImag == 0.0
    ensures buffer.Some? && |buffer.value| > 0 ==>
      var sum := IntSum(Jitters(buffer.value)) % TwoTo64;
      var (a, b, c) := amps(ThetaIndex(sum), PhiIndex(sum));
      q == QubitState(a, 0.0, b, c)
  {
    if buffer.None? || |buffer.value| == 0 then Default
    else
      var sum := WrappingSum(Jitters(buffer.value));
      WrappingSumIsSumMod(Jitters(buffer.value));
      var (a, b, c) := amps(ThetaIndex(sum), PhiIndex(sum));
      QubitState(a, 0.0, b, c)
  }
}
