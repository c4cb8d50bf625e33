/**
 * `inject_noise_gate` of hardware_bitstream_monitor.c as an event trace:
 * busy-wait on the time-stamp counter until the target, then one primitive
 * per gate kind. The counter is a clock function indexed by read number.
 */
module NoiseGate {
  import opened Wrappers
  import opened Bytes

  datatype GateKind = NopGate | LfenceGate | MfenceGate | SfenceGate | PauseGate | ClflushGate | SpeculationGate

  /** `NoiseGateInjection`; a NULL `target_address` is None. */
  datatype Gate = Gate(kind: GateKind, targetTsc: u64, durationCycles: u32, targetAddress: Option<nat>)

  /** What the processor is asked to do, in order. */
  datatype Event = ReadClock(value: u64) | Pause | Nop | LFence | MFence | SFence | Flush(address: nat)

  type Clock = nat -> u64

  /** Occurrences of x in s. */
  function Count(s: seq<Event>, x: Event): (c: nat)
    ensures c <= |s|
    decreases |s|
  {
    if |s| == 0 then 0 else (if s[0] == x then 1 else 0) + Count(s[1..], x)
  }

  lemma {:induction false} CountAppend(a: seq<Event>, b: seq<Event>, x: Event)
    ensures Count(a + b, x) == Count(a, x) + Count(b, x)
    decreases |a|
  {
    if |a| == 0 {
      assert a + b == b;
    } else {
      assert (a + b)[0] == a[0];
      assert (a + b)[1..] == a[1..] + b;
      CountAppend(a[1..], b, x);
    }
  }

  /** n copies of x. */
  function Repeat(n: nat, x: Event): (s: seq<Event>)
    ensures |s| == n
    ensures Count(s, x) == n
    ensures forall y :: y != x ==> Count(s, y) == 0
    decreases n
  {
    if n == 0 then [] else [x] + Repeat(n - 1, x)
  }

  /**
   * A busy-wait trace for the target: readings below the target, each
   * followed by a pause, and finally one reading at or above it.
   */
  predicate IsWait(w: seq<Event>, target: u64)
    decreases |w|
  {
    if |w| <= 1 then |w| == 1 && w[0].ReadClock? && w[0].value >= target
    else |w| >= 3 && w[0].ReadClock? && w[0].value < target && w[1] == Pause && IsWait(w[2..], target)
  }

  /**
   * `while (rdtsc() < target) pause();` from reading `next` on. The loop
   * ends only if some reading reaches the target; `reach` names one.
   */
  function Wait(clock: Clock, target: u64, next: nat, reach: nat): (r: (seq<Event>, nat))
    requires next <= reach && clock(reach) >= target
    ensures IsWait(r.0, target)
    ensures next < r.1 <= reach + 1 && |r.0| == 2 * (r.1 - next) - 1
    ensures clock(r.1 - 1) >= target && forall j :: next <= j < r.1 - 1 ==> clock(j) < target
    ensures Count(r.0, Pause) == r.1 - 1 - next
    decreases reach - next
  {
    if clock(next) >= target then
      var w := [ReadClock(clock(next))];
      WaitLast(clock(next), target, w);
      (w, next + 1)
    else
      var (tail, end) := Wait(clock, target, next + 1, reach);
      var w := [ReadClock(clock(next)), Pause] + tail;
      WaitStep(clock, target, next, reach, tail, end, w);
      (w, end)
  }

  /** A single reading at or above the target is a wait trace without pauses. */
  lemma WaitLast(v: u64, target: u64, w: seq<Event>)
    requires v >= target && w == [ReadClock(v)]
    ensures IsWait(w, target) && |w| == 1 && Count(w, Pause) == 0
  {
    assert w[1..] == [];
  }

  /** A reading below the target and a pause in front of the wait from next + 1 make the wait from next. */
  lemma WaitStep(clock: Clock, target: u64, next: nat, reach: nat, rest: seq<Event>, end: nat, w: seq<Event>)
    requires clock(next) < target && w == [ReadClock(clock(next)), Pause] + rest
    requires IsWait(rest, target)
    requires next + 1 < end <= reach + 1 && |rest| == 2 * (end - (next + 1)) - 1
    requires clock(end - 1) >= target && forall j :: next + 1 <= j < end - 1 ==> clock(j) < target
    requires Count(rest, Pause) == end - 1 - (next + 1)
    ensures IsWait(w, target)
    ensures next < end <= reach + 1 && |w| == 2 * (end - next) - 1
    ensures clock(end - 1) >= target && forall j :: next <= j < end - 1 ==> clock(j) < target
    ensures Count(w, Pause) == end - 1 - next
  {
    PrependWait(clock(next), rest, target);
  }

  /** A reading below the target and a pause, in front of a wait trace, make a wait trace. */
  lemma PrependWait(v: u64, rest: seq<Event>, target: u64)
    requires IsWait(rest, target) && v < target
    ensures IsWait([ReadClock(v), Pause] + rest, target)
    ensures Count([ReadClock(v), Pause] + rest, Pause) == 1 + Count(rest, Pause)
  {
    var w := [ReadClock(v), Pause] + rest;
    assert w[2..] == rest;
    assert w[1..] == [Pause] + rest;
    assert ([Pause] + rest)[1..] == rest;
  }

  /** The primitive a gate issues once the target has passed; `next` is the next clock reading. */
  function Effect(g: Gate, clock: Clock, next: nat): (e: seq<Event>)
    ensures Count(e, Nop) == (if g.kind == NopGate then g.durationCycles else 0)
    ensures Count(e, Pause) == (if g.kind == PauseGate then g.durationCycles else 0)
    ensures Count(e, LFence) == (if g.kind == LfenceGate then 1 else 0)
    ensures Count(e, MFence) == (if g.kind == MfenceGate then 1 else 0)
    ensures Count(e, SFence) == (if g.kind == SfenceGate then 1 else 0)
    ensures forall a: nat :: Count(e, Flush(a)) == (if g.kind == ClflushGate && g.targetAddress == Some(a) then 1 else 0)
    ensures forall v :: Count(e, ReadClock(v)) == (if g.kind == SpeculationGate && clock(next) == v then 1 else 0)
  {
    match g.kind
    case NopGate => Repeat(g.durationCycles, Nop)
    case LfenceGate => Once(LFence)
    case MfenceGate => Once(MFence)
    case SfenceGate => Once(SFence)
    case PauseGate => Repeat(g.durationCycles, Pause)
    case ClflushGate => if g.targetAddress.Some? then Once(Flush(g.targetAddress.value)) else Repeat(0, Nop)
    case SpeculationGate => Once(ReadClock(clock(next)))
  }

  /** One event, issued once. */
  function Once(y: Event): (s: seq<Event>)
    ensures s == [y]
    ensures forall x :: Count(s, x) == if x == y then 1 else 0
  {
    var s := [y];
    assert s[1..] == [];
    s
  }

  /**
   * `inject_noise_gate`: nothing for a NULL gate; otherwise the wait from
   * the first reading, then the gate's effect at the reading after the
   * wait. The result also gives the length of the wait prefix.
   */
  function Inject(gate: Option<Gate>, clock: Clock, reach: nat): (r: (seq<Event>, nat))
    requires gate.Some? ==> clock(reach) >= gate.value.targetTsc
    ensures gate.None? ==> r.0 == [] && r.1 == 0
    ensures r.1 <= |r.0|
    ensures gate.Some? ==> IsWait(r.0[..r.1], gate.value.targetTsc)
    ensures gate.Some? ==>
      var (w, next) := Wait(clock, gate.value.targetTsc, 0, reach);
      r.0[..r.1] == w && r.0[r.1..] == Effect(gate.value, clock, next)
    ensures gate.Some? ==> Count(r.0[r.1..], Nop) == (if gate.value.kind == NopGate then gate.value.durationCycles else 0)
    ensures gate.Some? ==> Count(r.0[r.1..], Pause) == (if gate.value.kind == PauseGate then gate.value.durationCycles else 0)
    ensures gate.Some? ==> Count(r.0, Nop) == (if gate.value.kind == NopGate then gate.value.durationCycles else 0)
    ensures gate.Some? ==> Count(r.0, LFence) == (if gate.value.kind == LfenceGate then 1 else 0)
    ensures gate.Some? ==> Count(r.0, MFence) == (if gate.value.kind == MfenceGate then 1 else 0)
    ensures gate.Some? ==> Count(r.0, SFence) == (if gate.value.kind == SfenceGate then 1 else 0)
    ensures gate.Some? ==>
      (forall a: nat :: Count(r.0, Flush(a)) == (if gate.value.kind == ClflushGate && gate.value.targetAddress == Some(a) then 1 else 0))
    ensures gate.Some? ==>
      (forall v :: Count(r.0[r.1..], ReadClock(v)) == if gate.value.kind == SpeculationGate && clock(Wait(clock, gate.value.targetTsc, 0, reach).1) == v then 1 else 0)
  {
    match gate
    case None => ([], 0)
    case Some(g) =>
      var (w, next) := Wait(clock, g.targetTsc, 0, reach);
      var e := Effect(g, clock, next);
      var t := w + e;
      TraceCounts(g, clock, next, w, e, t);
      (t, |w|)
  }

  /** A wait trace followed by a gate's effect: the wait adds no primitive of its own. */
  lemma TraceCounts(g: Gate, clock: Clock, next: nat, w: seq<Event>, e: seq<Event>, t: seq<Event>)
    requires IsWait(w, g.targetTsc) && e == Effect(g, clock, next) && t == w + e
    ensures t[..|w|] == w && t[|w|..] == e
    ensures Count(t, Nop) == (if g.kind == NopGate then g.durationCycles else 0)
    ensures Count(t, LFence) == (if g.kind == LfenceGate then 1 else 0)
    ensures Count(t, MFence) == (if g.kind == MfenceGate then 1 else 0)
    ensures Count(t, SFence) == (if g.kind == SfenceGate then 1 else 0)
    ensures forall a: nat :: Count(t, Flush(a)) == (if g.kind == ClflushGate && g.targetAddress == Some(a) then 1 else 0)
  {
    assert t[..|w|] == w && t[|w|..] == e;
    forall x: Event ensures Count(t, x) == Count(w, x) + Count(e, x) {
      CountAppend(w, e, x);
    }
    WaitOnlyReadsAndPauses(w, g.targetTsc);
  }

  /** A wait trace holds nothing but readings and pauses. */
  lemma WaitOnlyReadsAndPauses(w: seq<Event>, target: u64)
    requires IsWait(w, target)
    ensures Count(w, Nop) == 0 && Count(w, LFence) == 0 && Count(w, MFence) == 0 && Count(w, SFence) == 0
    ensures forall a: nat :: Count(w, Flush(a)) == 0
  {
    forall x: Event | !x.ReadClock? && x != Pause
      ensures Count(w, x) == 0
    {
      NoOther(w, target, x);
    }
  }

  lemma {:induction false} NoOther(w: seq<Event>, target: u64, x: Event)
    requires IsWait(w, target)
    requires !x.ReadClock? && x != Pause
    ensures Count(w, x) == 0
    decreases |w|
  {
    if |w| > 1 {
      NoOther(w[2..], target, x);
      assert w[1..][1..] == w[2..];
    }
  }
}
