/**
 * Quantum-Bit-Classical encoding (qbc.py): classical bits are tagged with a
 * hardware-noise reading, packed eight to a byte least significant bit first,
 * and read back through a measurement.
 *
 * The noise reading of each encode call (amplitudes, noise signature, its
 * variance, timestamp) and the measurement are inputs of the model.
 */
module Qbc {
  import opened Arith
  import opened Bytes
  import opened Wrappers
  import opened RealStats

  /** What one encode call reads from the hardware. */
  datatype NoiseReading = NoiseReading(
    alpha: (real, real),
    beta: (real, real),
    signature: seq<int>,
    variance: real,
    timestampNs: int)

  datatype QBCState = QBCState(
    classicalBit: bit,
    alpha: (real, real),
    beta: (real, real),
    noiseSignature: seq<int>,
    coherenceQuality: real,
    timestampNs: int)

  /** The encoder keeps every state it has produced. */
  datatype Encoder = Encoder(history: seq<QBCState>)

  /** Noise readings indexed by the number of the encode call. */
  type NoiseSource = nat -> NoiseReading

  /** Measurement: the bit a state reads back as. */
  type Measure = QBCState -> bit

  /** A measurement that returns the encoded bit of every state. */
  ghost predicate Ideal(measure: Measure)
  {
    forall s: QBCState :: measure(s) == s.classicalBit
  }

  function Clamp01(x: real): real
  {
    if x > 1.0 then 1.0 else if x < 0.0 then 0.0 else x
  }

  /** `QBCEncoder.encode`: tag the bit with the next noise reading and log it. */
  function Encode(enc: Encoder, b: bit, noise: NoiseSource): (r: (QBCState, Encoder))
    ensures r.0.classicalBit == b
    ensures 0.0 <= r.0.coherenceQuality <= 1.0
    ensures r.1.history == enc.history + [r.0]
  {
    var n := noise(|enc.history|);
    var s := QBCState(b, n.alpha, n.beta, n.signature, Clamp01(1.0 - n.variance / 10000.0), n.timestampNs);
    (s, Encoder(enc.history + [s]))
  }

  /** Encode the given bits in order. */
  function EncodeBits(enc: Encoder, bits: seq<bit>, noise: NoiseSource): (r: (seq<QBCState>, Encoder))
    ensures |r.0| == |bits|
    ensures forall i :: 0 <= i < |bits| ==> r.0[i].classicalBit == bits[i]
    ensures r.1.history == enc.history + r.0
    decreases |bits|
  {
    if |bits| == 0 then ([], enc)
    else
      var first := Encode(enc, bits[0], noise);
      var rest := EncodeBits(first.1, bits[1..], noise);
      var all := [first.0] + rest.0;
      (all, rest.1)
  }

  /** `encode_byte`: eight states, state i carrying `(v >> i) & 1`. */
  function EncodeByte(enc: Encoder, v: nat, noise: NoiseSource): (r: (seq<QBCState>, Encoder))
    ensures |r.0| == 8
    ensures forall i :: 0 <= i < 8 ==> r.0[i].classicalBit == LowBits(v, 8)[i]
    ensures r.1.history == enc.history + r.0
  {
    EncodeBits(enc, LowBits(v, 8), noise)
  }

  /** State i of an encoded byte carries Python's `(v >> i) & 1`. */
  lemma EncodeByteBits(enc: Encoder, v: nat, noise: NoiseSource, i: nat)
    requires i < 8
    ensures EncodeByte(enc, v, noise).0[i].classicalBit == (v / Pow(2, i)) % 2
  {
    LowBitsIndex(v, 8, i);
  }

  function MeasureAll(states: seq<QBCState>, measure: Measure): (r: seq<bit>)
    ensures |r| == |states|
    ensures forall i :: 0 <= i < |states| ==> r[i] == measure(states[i])
  {
    if |states| == 0 then [] else [measure(states[0])] + MeasureAll(states[1..], measure)
  }

  /** `decode_byte`: the measured bits of the first eight states, bit i weighted 2^i. */
  function DecodeByte(states: seq<QBCState>, measure: Measure): (v: nat)
    ensures v < 256
    ensures forall i :: 0 <= i < 8 && i < |states| ==> (v / Pow(2, i)) % 2 == measure(states[i])
    ensures forall i :: |states| <= i < 8 ==> (v / Pow(2, i)) % 2 == 0
  {
    var k := if |states| < 8 then |states| else 8;
    var bits := MeasureAll(states[..k], measure);
    var v := PackBits(bits);
    assert Pow(2, 8) == 256;
    PowMono(2, k, 8);
    forall i | 0 <= i < k ensures (v / Pow(2, i)) % 2 == measure(states[i]) {
      PackBitsIndex(bits, i);
    }
    forall i | k <= i < 8 ensures (v / Pow(2, i)) % 2 == 0 {
      PowMono(2, k, i);
      DivSmall(v, Pow(2, i));
    }
    v
  }

  lemma DivSmall(v: nat, d: int)
    requires 0 <= v < d
    ensures v / d == 0
  {
    DivModUnique(v, d, 0, v);
  }

  lemma {:induction false} PowMono(b: int, e1: nat, e2: nat)
    requires b >= 1 && e1 <= e2
    ensures Pow(b, e1) <= Pow(b, e2)
  {
    if e1 < e2 {
      PowMono(b, e1, e2 - 1);
      MulLe(Pow(b, e2 - 1), 1, b);
    }
  }

  /** With an ideal measurement, decode_byte inverts encode_byte on [0, 255]. */
  lemma ByteRoundTrip(enc: Encoder, v: nat, noise: NoiseSource, measure: Measure)
    requires v < 256
    requires Ideal(measure)
    ensures DecodeByte(EncodeByte(enc, v, noise).0, measure) == v
  {
    DecodeIdealGroup(EncodeByte(enc, v, noise).0, v, measure);
  }

  /** Eight states that carry the bits of v < 256 decode, ideally measured, to v. */
  lemma DecodeIdealGroup(states: seq<QBCState>, v: nat, measure: Measure)
    requires v < 256
    requires Ideal(measure)
    requires |states| == 8
    requires forall i :: 0 <= i < 8 ==> states[i].classicalBit == LowBits(v, 8)[i]
    ensures DecodeByte(states, measure) == v
  {
    var bits := MeasureAll(states, measure);
    assert states[..8] == states;
    assert bits == LowBits(v, 8);
    assert Pow(2, 8) == 256;
    PackLowBits(v, 8);
  }

  /** Encode each value's low eight bits in turn, eight states per value. */
  function EncodeValues(enc: Encoder, vs: seq<nat>, noise: NoiseSource): (r: (seq<QBCState>, Encoder))
    ensures |r.0| == 8 * |vs|
    ensures forall j :: 0 <= j < |r.0| ==> r.0[j].classicalBit == ValueBit(vs, j)
    ensures r.1.history == enc.history + r.0
    decreases |vs|
  {
    if |vs| == 0 then ([], enc)
    else
      var head := EncodeByte(enc, vs[0], noise);
      var tail := EncodeValues(head.1, vs[1..], noise);
      var first, rest := head.0, tail.0;
      var all := first + rest;
      ConsValueBits(vs, first, rest);
      HistoryAppend(enc.history, first, rest);
      (all, tail.1)
  }

  lemma HistoryAppend(h: seq<QBCState>, first: seq<QBCState>, rest: seq<QBCState>)
    ensures h + first + rest == h + (first + rest)
  {
  }

  /** The states of the first value followed by those of the rest carry the bits of all values. */
  lemma ConsValueBits(vs: seq<nat>, first: seq<QBCState>, rest: seq<QBCState>)
    requires |vs| > 0 && |first| == 8 && |rest| == 8 * (|vs| - 1)
    requires forall i :: 0 <= i < 8 ==> first[i].classicalBit == LowBits(vs[0], 8)[i]
    requires forall j :: 0 <= j < |rest| ==> rest[j].classicalBit == ValueBit(vs[1..], j)
    ensures forall j :: 0 <= j < |first + rest| ==> (first + rest)[j].classicalBit == ValueBit(vs, j)
  {
    var all := first + rest;
    forall j | 0 <= j < |all| ensures all[j].classicalBit == ValueBit(vs, j) {
      ValueBitSplit(vs, j);
      if j >= 8 {
        assert all[j] == rest[j - 8];
      }
    }
  }

  /** The first value's bits come first, then those of the rest. */
  lemma ValueBitSplit(vs: seq<nat>, j: nat)
    requires j < 8 * |vs|
    ensures j < 8 ==> ValueBit(vs, j) == LowBits(vs[0], 8)[j]
    ensures j >= 8 ==> ValueBit(vs, j) == ValueBit(vs[1..], j - 8)
  {
    if j < 8 {
      DivModUnique(j, 8, 0, j);
    } else {
      DivModUnique(j, 8, (j - 8) / 8 + 1, (j - 8) % 8);
      DivModUnique(j - 8, 8, (j - 8) / 8, (j - 8) % 8);
    }
  }

  /** Bit j of the eight-bits-per-value packing: bit j % 8 of value j / 8. */
  function ValueBit(vs: seq<nat>, j: nat): bit
    requires j < 8 * |vs|
  {
    LowBits(vs[j / 8], 8)[j % 8]
  }

  /** Ideally measured, group k of an encoding of values below 256 decodes to value k. */
  lemma DecodeIdealValue(states: seq<QBCState>, vs: seq<nat>, k: nat, measure: Measure)
    requires |states| == 8 * |vs| && k < |vs| && vs[k] < 256
    requires forall j :: 0 <= j < |states| ==> states[j].classicalBit == ValueBit(vs, j)
    requires Ideal(measure)
    ensures DecodeByte(states[8 * k..8 * k + 8], measure) == vs[k]
  {
    var group := states[8 * k..8 * k + 8];
    forall i | 0 <= i < 8 ensures group[i].classicalBit == LowBits(vs[k], 8)[i] {
      assert group[i] == states[8 * k + i];
      DivModUnique(8 * k + i, 8, k, i);
    }
    DecodeIdealGroup(group, vs[k], measure);
  }

  /** The code points of a string. */
  function Ords(text: string): (r: seq<nat>)
    ensures |r| == |text|
    ensures forall k :: 0 <= k < |text| ==> r[k] == text[k] as int
  {
    if |text| == 0 then [] else [text[0] as int] + Ords(text[1..])
  }

  /** `encode_string`: eight states per character, from the low 8 bits of its code point. */
  function EncodeString(enc: Encoder, text: string, noise: NoiseSource): (r: (seq<QBCState>, Encoder))
    ensures |r.0| == 8 * |text|
    ensures forall j :: 0 <= j < |r.0| ==> r.0[j].classicalBit == LowBits(text[j / 8] as nat, 8)[j % 8]
    ensures r.1.history == enc.history + r.0
  {
    var r := EncodeValues(enc, Ords(text), noise);
    assert forall j :: 0 <= j < |r.0| ==> r.0[j].classicalBit == ValueBit(Ords(text), j);
    r
  }

  /** Code points 0..255, the characters that survive the 8-bit packing. */
  function Chr(v: nat): char
    requires v < 256
  {
    v as char
  }

  /** `decode_string`: one character per complete group of eight states. */
  function DecodeString(states: seq<QBCState>, measure: Measure): (t: string)
    ensures |t| == |states| / 8
    ensures forall k :: 0 <= k < |t| ==> t[k] == Chr(DecodeByte(states[8 * k..8 * k + 8], measure))
    decreases |states|
  {
    if |states| < 8 then []
    else
      var rest := DecodeString(states[8..], measure);
      var t := [Chr(DecodeByte(states[..8], measure))] + rest;
      forall k | 1 <= k < |t| ensures t[k] == Chr(DecodeByte(states[8 * k..8 * k + 8], measure)) {
        assert states[8..][8 * (k - 1)..8 * (k - 1) + 8] == states[8 * k..8 * k + 8];
      }
      t
  }

  /** Every character of `text` has a code point below 256. */
  predicate Latin1(text: string)
  {
    forall k :: 0 <= k < |text| ==> (text[k] as int) < 256
  }

  /** Ideal measurement recovers any text of code points below 256. */
  lemma StringRoundTrip(enc: Encoder, text: string, noise: NoiseSource, measure: Measure)
    requires Latin1(text)
    requires Ideal(measure)
    ensures DecodeString(EncodeString(enc, text, noise).0, measure) == text
  {
    var states := EncodeString(enc, text, noise).0;
    var t := DecodeString(states, measure);
    assert |t| == |text|;
    forall k | 0 <= k < |text| ensures t[k] == text[k] {
      DecodeIdealValue(states, Ords(text), k, measure);
    }
  }

  /** `NoiseEncoder.decode_pattern`: 1 when the variance exceeds 1000, and 0 for an empty pattern. */
  function DecodePattern(pattern: seq<int>): (b: bit)
    ensures |pattern| == 0 ==> b == 0
    ensures |pattern| > 0 ==> (b == 1 <==> Variance(ToReals(pattern)) > 1000.0)
  {
    if |pattern| == 0 then 0
    else if Variance(ToReals(pattern)) > 1000.0 then 1 else 0
  }

  function ToReals(xs: seq<int>): (r: seq<real>)
    ensures |r| == |xs|
    ensures forall i :: 0 <= i < |xs| ==> r[i] == xs[i] as real
  {
    if |xs| == 0 then [] else [xs[0] as real] + ToReals(xs[1..])
  }

  /** `get_statistics` of a non-empty history. */
  datatype Statistics = Statistics(
    totalEncodings: nat,
    avgCoherence: real,
    minCoherence: real,
    maxCoherence: real,
    successRate: real)

  function Coherences(states: seq<QBCState>): (r: seq<real>)
    ensures |r| == |states|
    ensures forall i :: 0 <= i < |states| ==> r[i] == states[i].coherenceQuality
  {
    if |states| == 0 then [] else [states[0].coherenceQuality] + Coherences(states[1..])
  }

  /**
   * `get_statistics`: nothing for an empty history; otherwise the mean, the
   * least and the greatest coherence, and the fraction of coherences above 0.5.
   */
  function GetStatistics(enc: Encoder): (r: Option<Statistics>)
    ensures r.None? <==> |enc.history| == 0
    ensures r.Some? ==> r.value.totalEncodings == |enc.history|
    ensures r.Some? ==>
      var cs := Coherences(enc.history);
      && r.value.avgCoherence == Mean(cs)
      && r.value.minCoherence == Min(cs)
      && r.value.maxCoherence == Max(cs)
      && r.value.successRate == (|Above(cs, 0.5)| as real) / (|enc.history| as real)
    ensures r.Some? ==> r.value.minCoherence <= r.value.avgCoherence <= r.value.maxCoherence
    ensures r.Some? ==> 0.0 <= r.value.successRate <= 1.0
  {
    if |enc.history| == 0 then None
    else
      var cs := Coherences(enc.history);
      MeanBetween(cs);
      var c := CountAbove(cs, 0.5);
      CountAboveExact(cs, 0.5);
      RatioInUnit(c, |cs|);
      Some(Statistics(|cs|, Mean(cs), Min(cs), Max(cs), (c as real) / (|cs| as real)))
  }

  /** Every state produced by Encode has coherence in [0, 1]. */
  predicate CoherencesInRange(enc: Encoder)
  {
    forall i :: 0 <= i < |enc.history| ==> 0.0 <= enc.history[i].coherenceQuality <= 1.0
  }

  lemma EncodeKeepsCoherenceRange(enc: Encoder, b: bit, noise: NoiseSource)
    requires CoherencesInRange(enc)
    ensures CoherencesInRange(Encode(enc, b, noise).1)
  {
  }

  /** With every logged coherence in [0, 1], the reported average is in [0, 1]. */
  lemma AverageCoherenceInRange(enc: Encoder)
    requires CoherencesInRange(enc)
    requires |enc.history| > 0
    ensures 0.0 <= GetStatistics(enc).value.avgCoherence <= 1.0
  {
    MeanInRange(Coherences(enc.history), 0.0, 1.0);
  }
}
