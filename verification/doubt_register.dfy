/**
 * The `DoubtRegister` of oagi_v20_1_self_mod.py: a bounded list of doubts
 * with increasing ids, the oldest evicted when the register is full.
 */
module Doubts {
  import opened Wrappers

  datatype Doubt = Doubt(
    id: nat,
    content: string,
    intensity: real,
    persistence: real,
    source: string,
    resolved: bool,
    resolution: Option<string>)

  datatype DoubtRegister = DoubtRegister(capacity: int, doubts: seq<Doubt>, nextId: nat)

  /** `list.pop(0)` on an empty list. */
  datatype DoubtError = IndexError

  /** The floor `decay_doubts` keeps persistence at. */
  const MinPersistence: real := 0.1

  function New(capacity: int): (reg: DoubtRegister)
    ensures reg.doubts == [] && reg.nextId == 0 && reg.capacity == capacity
  {
    DoubtRegister(capacity, [], 0)
  }

  /** What a register built by these operations satisfies. */
  predicate Valid(reg: DoubtRegister)
  {
    |reg.doubts| <= (if reg.capacity > 0 then reg.capacity else 0) &&
    (forall i, j :: 0 <= i < j < |reg.doubts| ==> reg.doubts[i].id < reg.doubts[j].id) &&
    (forall i :: 0 <= i < |reg.doubts| ==> reg.doubts[i].id < reg.nextId) &&
    (forall i :: 0 <= i < |reg.doubts| ==> reg.doubts[i].persistence >= MinPersistence)
  }

  lemma NewValid(capacity: int)
    ensures Valid(New(capacity))
  {
  }

  /**
   * `register_doubt`: the id is taken and the counter advanced first; a full
   * register drops its oldest doubt, which for an empty register (capacity
   * 0 or less) raises IndexError with the counter already advanced; the new
   * doubt goes last, unresolved, at persistence 1.0.
   */
  function Register(reg: DoubtRegister, content: string, intensity: real, source: string): (r: (Result<nat, DoubtError>, DoubtRegister))
    ensures r.1.nextId == reg.nextId + 1 && r.1.capacity == reg.capacity
    ensures r.0.Err? <==> |reg.doubts| >= reg.capacity && |reg.doubts| == 0
    ensures r.0.Err? ==> r.1.doubts == reg.doubts
    ensures r.0.Ok? ==> r.0.value == reg.nextId
    ensures r.0.Ok? ==>
      var kept := if |reg.doubts| >= reg.capacity then reg.doubts[1..] else reg.doubts;
      r.1.doubts == kept + [Doubt(reg.nextId, content, intensity, 1.0, source, false, None)]
  {
    var d := Doubt(reg.nextId, content, intensity, 1.0, source, false, None);
    var reg1 := reg.(nextId := reg.nextId + 1);
    if |reg.doubts| >= reg.capacity then
      if |reg.doubts| == 0 then (Err(IndexError), reg1)
      else (Ok(d.id), reg1.(doubts := reg.doubts[1..] + [d]))
    else (Ok(d.id), reg1.(doubts := reg.doubts + [d]))
  }

  /** Registering keeps the register valid: never more doubts than the capacity, ids increasing. */
  lemma RegisterValid(reg: DoubtRegister, content: string, intensity: real, source: string)
    requires Valid(reg)
    ensures Valid(Register(reg, content, intensity, source).1)
  {
    var r := Register(reg, content, intensity, source).1;
    if |reg.doubts| >= reg.capacity && |reg.doubts| > 0 {
      assert forall i :: 0 <= i < |reg.doubts| - 1 ==> r.doubts[i] == reg.doubts[i + 1];
    }
  }

  /** A register without room raises on its first doubt, every time. */
  lemma NoCapacityRaises(reg: DoubtRegister, content: string, intensity: real, source: string)
    requires Valid(reg) && reg.capacity <= 0
    ensures Register(reg, content, intensity, source).0.Err?
  {
  }

  /** Two registrations in a row receive consecutive ids. */
  lemma ConsecutiveIds(reg: DoubtRegister, c1: string, i1: real, s1: string, c2: string, i2: real, s2: string)
    requires reg.capacity > 0
    ensures var (r1, reg1) := Register(reg, c1, i1, s1);
      var (r2, _) := Register(reg1, c2, i2, s2);
      r1 == Ok(reg.nextId) && r2 == Ok(reg.nextId + 1)
  {
  }

  /** The position of the first doubt with the id, if any. */
  function FindId(ds: seq<Doubt>, id: nat): (r: Option<nat>)
    ensures r.None? <==> forall i :: 0 <= i < |ds| ==> ds[i].id != id
    ensures r.Some? ==> r.value < |ds| && ds[r.value].id == id && forall i :: 0 <= i < r.value ==> ds[i].id != id
  {
    if |ds| == 0 then None
    else if ds[0].id == id then Some(0)
    else
      match FindId(ds[1..], id)
      case None => None
      case Some(k) => Some(k + 1)
  }

  /** `resolve_doubt`: mark the first doubt with the id resolved and record the resolution; nothing else changes. */
  function Resolve(reg: DoubtRegister, id: nat, resolution: string): (r: DoubtRegister)
    ensures r.capacity == reg.capacity && r.nextId == reg.nextId && |r.doubts| == |reg.doubts|
    ensures FindId(reg.doubts, id).None? ==> r == reg
    ensures FindId(reg.doubts, id).Some? ==>
      var k := FindId(reg.doubts, id).value;
      r.doubts[k] == reg.doubts[k].(resolved := true, resolution := Some(resolution)) &&
      forall i :: 0 <= i < |reg.doubts| && i != k ==> r.doubts[i] == reg.doubts[i]
  {
    match FindId(reg.doubts, id)
    case None => reg
    case Some(k) => reg.(doubts := reg.doubts[k := reg.doubts[k].(resolved := true, resolution := Some(resolution))])
  }

  lemma ResolveValid(reg: DoubtRegister, id: nat, resolution: string)
    requires Valid(reg)
    ensures Valid(Resolve(reg, id, resolution))
  {
  }

  /** A doubt `get_active_doubts` reports. */
  predicate Active(d: Doubt, minIntensity: real)
  {
    !d.resolved && d.intensity * d.persistence >= minIntensity
  }

  /**
   * `get_active_doubts`: the unresolved doubts strong enough, in register
   * order, each as often as the register holds it.
   */
  function GetActive(ds: seq<Doubt>, minIntensity: real): (r: seq<Doubt>)
    ensures forall d :: d in r <==> d in ds && Active(d, minIntensity)
    ensures forall d :: multiset(r)[d] == if Active(d, minIntensity) then multiset(ds)[d] else 0
    ensures |ds| == 1 ==> r == if Active(ds[0], minIntensity) then ds else []
    ensures |r| <= |ds|
  {
    if |ds| == 0 then []
    else
      var rest := GetActive(ds[1..], minIntensity);
      assert forall d :: d in ds <==> d == ds[0] || d in ds[1..];
      assert ds == [ds[0]] + ds[1..];
      if Active(ds[0], minIntensity) then [ds[0]] + rest else rest
  }

  /**
   * Filtering a register split in two filters each part, so the active
   * doubts keep the register's order.
   */
  lemma {:induction false} GetActiveAppend(a: seq<Doubt>, b: seq<Doubt>, minIntensity: real)
    ensures GetActive(a + b, minIntensity) == GetActive(a, minIntensity) + GetActive(b, minIntensity)
    decreases |a|
  {
    if |a| == 0 {
      assert a + b == b;
    } else {
      assert (a + b)[1..] == a[1..] + b;
      GetActiveAppend(a[1..], b, minIntensity);
    }
  }

  function DecayOne(d: Doubt, rate: real): (e: Doubt)
  {
    if d.resolved then d
    else d.(persistence := if d.persistence - rate > MinPersistence then d.persistence - rate else MinPersistence)
  }

  /**
   * `decay_doubts`: every unresolved doubt loses `rate` persistence, but
   * not below 0.1; resolved doubts are untouched.
   */
  function Decay(reg: DoubtRegister, rate: real): (r: DoubtRegister)
    ensures r.capacity == reg.capacity && r.nextId == reg.nextId && |r.doubts| == |reg.doubts|
    ensures forall i :: 0 <= i < |reg.doubts| ==>
      (reg.doubts[i].resolved ==> r.doubts[i] == reg.doubts[i]) &&
      (!reg.doubts[i].resolved ==>
        r.doubts[i].persistence >= MinPersistence &&
        r.doubts[i] == reg.doubts[i].(persistence := r.doubts[i].persistence))
    ensures forall i :: 0 <= i < |reg.doubts| && !reg.doubts[i].resolved ==>
      r.doubts[i].persistence ==
        if reg.doubts[i].persistence - rate > MinPersistence then reg.doubts[i].persistence - rate else MinPersistence
  {
    reg.(doubts := seq(|reg.doubts|, i requires 0 <= i < |reg.doubts| => DecayOne(reg.doubts[i], rate)))
  }

  /** Decay keeps the register valid, whatever the rate. */
  lemma DecayValid(reg: DoubtRegister, rate: real)
    requires Valid(reg)
    ensures Valid(Decay(reg, rate))
  {
  }
}
