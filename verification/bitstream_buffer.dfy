/**
 * The overwrite-oldest ring buffer of hardware_bitstream_monitor.c
 * (`create_bitstream_buffer`, `record_bitstream_sample`). A NULL pointer is
 * `None`; the outcome of each allocation and each `rdtsc()` reading are
 * parameters.
 */
module BitstreamBuffer {
  import opened Wrappers
  import opened Arith
  import opened Bytes

  datatype Sample = Sample(timestamp: u64, instruction: u64, opcode: u32, flags: u32)

  const Zero := Sample(0, 0, 0, 0)

  datatype Buffer = Buffer(samples: seq<Sample>, capacity: nat, count: nat, writeIdx: nat)

  /** The shape every buffer keeps: the array has `capacity` slots and both counters stay inside it. */
  predicate Valid(b: Buffer)
  {
    |b.samples| == b.capacity && b.count <= b.capacity &&
    (b.capacity > 0 ==> b.writeIdx < b.capacity) &&
    (b.capacity == 0 ==> b.writeIdx == 0)
  }

  /**
   * `create_bitstream_buffer`: NULL when either allocation fails (the header
   * is freed on the second failure); otherwise zeroed samples and both
   * counters at 0.
   */
  function Create(capacity: nat, headerAllocated: bool, samplesAllocated: bool): (r: Option<Buffer>)
    ensures r.None? <==> !headerAllocated || !samplesAllocated
    ensures r.Some? ==> Valid(r.value) && r.value.capacity == capacity
    ensures r.Some? ==> r.value.count == 0 && r.value.writeIdx == 0
    ensures r.Some? ==> forall k :: 0 <= k < capacity ==> r.value.samples[k] == Zero
  {
    if !headerAllocated then None
    else if !samplesAllocated then None
    else Some(Buffer(seq(capacity, _ => Zero), capacity, 0, 0))
  }

  /** One call of `record_bitstream_sample`: the instruction, the opcode and the `rdtsc()` value. */
  datatype Event = Event(clock: u64, instruction: u64, opcode: u32)

  function SampleOf(e: Event): Sample
  {
    Sample(e.clock, e.instruction, e.opcode, 0)
  }

  /**
   * `record_bitstream_sample` on a buffer with at least one slot (a zero
   * capacity indexes out of bounds and takes a remainder by zero in C).
   */
  function Record(b: Buffer, e: Event): (r: Buffer)
    requires Valid(b) && b.capacity > 0
    ensures Valid(r) && r.capacity == b.capacity
    ensures r.samples[b.writeIdx] == SampleOf(e)
    ensures forall k :: 0 <= k < b.capacity && k != b.writeIdx ==> r.samples[k] == b.samples[k]
    ensures r.writeIdx == (b.writeIdx + 1) % b.capacity
    ensures r.count == if b.count < b.capacity then b.count + 1 else b.capacity
  {
    Buffer(b.samples[b.writeIdx := SampleOf(e)], b.capacity,
           if b.count < b.capacity then b.count + 1 else b.count,
           (b.writeIdx + 1) % b.capacity)
  }

  /** The pointer-level call: a NULL buffer is left alone. */
  function RecordAt(b: Option<Buffer>, e: Event): (r: Option<Buffer>)
    requires b.Some? ==> Valid(b.value) && b.value.capacity > 0
    ensures b.None? ==> r.None?
    ensures b.Some? ==> r == Some(Record(b.value, e))
  {
    match b
    case None => None
    case Some(buf) => Some(Record(buf, e))
  }

  function Min(a: nat, b: nat): nat
  {
    if a <= b then a else b
  }

  /**
   * The ring invariant after k records into a fresh buffer of capacity C:
   * k mod C is the next slot, min(k, C) slots are filled, record e of the
   * last C sits in slot e mod C, and the slots not yet reached are zero.
   */
  predicate Holds(b: Buffer, es: seq<Event>)
    requires Valid(b) && b.capacity > 0
  {
    var k := |es|;
    var c := b.capacity;
    b.count == Min(k, c) && b.writeIdx == k % c &&
    (forall e :: 0 <= e < k && k - c <= e ==> b.samples[e % c] == SampleOf(es[e])) &&
    (forall s :: k <= s < c ==> b.samples[s] == Zero)
  }

  /**
   * The buffer after recording the events in order into a fresh buffer of
   * the given capacity; it keeps the ring invariant throughout.
   */
  function Run(capacity: nat, es: seq<Event>): (r: Buffer)
    requires capacity > 0
    ensures Valid(r) && r.capacity == capacity
    ensures Holds(r, es)
    ensures |es| == 0 ==> Some(r) == Create(capacity, true, true)
    decreases |es|
  {
    if |es| == 0 then Create(capacity, true, true).value
    else
      var k := |es| - 1;
      var prev := Run(capacity, es[..k]);
      HoldsStep(prev, es[..k], es[k]);
      assert es[..k] + [es[k]] == es;
      Record(prev, es[k])
  }

  /** Recording one more event keeps the ring invariant. */
  lemma HoldsStep(b: Buffer, es: seq<Event>, ev: Event)
    requires Valid(b) && b.capacity > 0
    requires Holds(b, es)
    ensures Holds(Record(b, ev), es + [ev])
  {
    StepCounters(b, es, ev);
    StepSamples(b, es, ev);
    StepZero(b, es, ev);
  }

  lemma StepCounters(b: Buffer, es: seq<Event>, ev: Event)
    requires Valid(b) && b.capacity > 0
    requires b.count == Min(|es|, b.capacity) && b.writeIdx == |es| % b.capacity
    ensures Record(b, ev).count == Min(|es| + 1, b.capacity)
    ensures Record(b, ev).writeIdx == (|es| + 1) % b.capacity
  {
    AddMod(|es|, 1, b.capacity);
  }

  lemma StepSamples(b: Buffer, es: seq<Event>, ev: Event)
    requires Valid(b) && b.capacity > 0
    requires b.writeIdx == |es| % b.capacity
    requires forall e :: 0 <= e < |es| && |es| - b.capacity <= e ==> b.samples[e % b.capacity] == SampleOf(es[e])
    ensures forall e :: 0 <= e < |es| + 1 && |es| + 1 - b.capacity <= e ==>
      Record(b, ev).samples[e % b.capacity] == SampleOf((es + [ev])[e])
  {
    var c := b.capacity;
    var k := |es|;
    var r := Record(b, ev);
    forall e | 0 <= e < k + 1 && k + 1 - c <= e
      ensures r.samples[e % c] == SampleOf((es + [ev])[e])
    {
      if e < k {
        ModDistinct(e, k, c);
        assert (es + [ev])[e] == es[e];
        assert r.samples[e % c] == b.samples[e % c];
      } else {
        assert (es + [ev])[e] == ev;
      }
    }
  }

  lemma StepZero(b: Buffer, es: seq<Event>, ev: Event)
    requires Valid(b) && b.capacity > 0
    requires b.writeIdx == |es| % b.capacity
    requires forall s :: |es| <= s < b.capacity ==> b.samples[s] == Zero
    ensures forall s :: |es| + 1 <= s < b.capacity ==> Record(b, ev).samples[s] == Zero
  {
    if |es| < b.capacity {
      assert b.writeIdx == |es|;
    }
  }

  /** After k records into a fresh buffer: count = min(k, C) and write_idx = k mod C. */
  lemma CountAndIndex(capacity: nat, es: seq<Event>)
    requires capacity > 0
    ensures Run(capacity, es).count == Min(|es|, capacity)
    ensures Run(capacity, es).writeIdx == |es| % capacity
    ensures Run(capacity, es).count <= capacity && Run(capacity, es).writeIdx < capacity
  {
  }

  /** Once full, slot (write_idx + j) mod C holds the j-th oldest of the last C records. */
  lemma OldestFirst(capacity: nat, es: seq<Event>, j: nat)
    requires capacity > 0 && |es| >= capacity && j < capacity
    ensures Run(capacity, es).samples[(Run(capacity, es).writeIdx + j) % capacity] == SampleOf(es[|es| - capacity + j])
  {
    OldestSlot(Run(capacity, es), es, j);
  }

  lemma OldestSlot(b: Buffer, es: seq<Event>, j: nat)
    requires Valid(b) && b.capacity > 0 && |es| >= b.capacity && j < b.capacity
    requires Holds(b, es)
    ensures b.samples[(b.writeIdx + j) % b.capacity] == SampleOf(es[|es| - b.capacity + j])
  {
    var c := b.capacity;
    var k := |es|;
    var e := k - c + j;
    SlotShift(k, j, c);
    assert b.samples[e % c] == SampleOf(es[e]);
  }

  lemma SlotShift(k: int, j: int, c: int)
    requires c > 0
    ensures (k % c + j) % c == (k - c + j) % c
  {
    AddMod(k, j, c);
    assert k + j == c * 1 + (k - c + j);
    ModAddMultiple(c, 1, k - c + j);
  }
}
