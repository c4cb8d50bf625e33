/**
 * Integer and string framing over the E8 store (qbc_bit_int.py): every byte
 * becomes eight QBC states, each stored at a lattice point, and the value is
 * represented by the list of point indices.
 *
 * The source encodes a byte and stores its states before encoding the next
 * byte. Encoder and lattice are independent, so the model encodes all states
 * first and then stores them in the same order.
 */
module QbcBitInt {
  import opened Wrappers
  import opened Bytes
  import opened Qbc
  import opened QbcE8

  /** The converter: an encoder and the E8 table it stores into. */
  datatype Converter = Converter(encoder: Encoder, lattice: Lattice)

  /** What an encode call returns, with the converter after the call. */
  datatype Encoded = Encoded(states: seq<QBCState>, indices: seq<nat>, after: Converter)

  /** Encode the values' low bytes and store every state. */
  function EncodeAndStore(c: Converter, vs: seq<nat>, noise: NoiseSource, place: Placement): (r: Encoded)
    requires Fits(c.lattice, place)
    ensures |r.states| == 8 * |vs| && |r.indices| == 8 * |vs|
    ensures forall j :: 0 <= j < |r.states| ==> r.states[j].classicalBit == ValueBit(vs, j)
    ensures forall j :: 0 <= j < |r.indices| ==> r.indices[j] == place(r.states[j])
    ensures |r.after.lattice.points| == |c.lattice.points|
  {
    var (states, enc) := EncodeValues(c.encoder, vs, noise);
    var (indices, lat) := StoreAll(c.lattice, states, place);
    Encoded(states, indices, Converter(enc, lat))
  }

  /** Bytes as naturals. */
  function Widen(bs: seq<byte>): (r: seq<nat>)
    ensures |r| == |bs|
    ensures forall k :: 0 <= k < |bs| ==> r[k] == bs[k]
  {
    if |bs| == 0 then [] else [bs[0] as nat] + Widen(bs[1..])
  }

  /** `encode_int32`: `struct.pack('<i')` raises outside the signed 32-bit range; 32 indices otherwise. */
  function EncodeInt32(c: Converter, v: int, noise: NoiseSource, place: Placement): (r: Result<Encoded, PackError>)
    requires Fits(c.lattice, place)
    ensures r.Ok? <==> -TwoTo31 <= v < TwoTo31
    ensures r.Ok? ==> |r.value.indices| == 32 && |r.value.states| == 32
    ensures r.Ok? ==> |r.value.after.lattice.points| == |c.lattice.points|
  {
    var bytes :- PackInt32(v);
    Ok(EncodeAndStore(c, Widen(bytes), noise, place))
  }

  /** `encode_uint64`: `struct.pack('<Q')` raises outside [0, 2^64); 64 indices otherwise. */
  function EncodeUint64(c: Converter, v: int, noise: NoiseSource, place: Placement): (r: Result<Encoded, PackError>)
    requires Fits(c.lattice, place)
    ensures r.Ok? <==> 0 <= v < TwoTo64
    ensures r.Ok? ==> |r.value.indices| == 64 && |r.value.states| == 64
    ensures r.Ok? ==> |r.value.after.lattice.points| == |c.lattice.points|
  {
    var bytes :- PackUint64(v);
    Ok(EncodeAndStore(c, Widen(bytes), noise, place))
  }

  /** The groups of eight indices that all hold a state, decoded; incomplete groups are skipped. */
  function DecodeGroups(lat: Lattice, indices: seq<int>, measure: Measure): (r: seq<byte>)
    requires |indices| % 8 == 0
    ensures |r| <= |indices| / 8
    decreases |indices|
  {
    if |indices| == 0 then []
    else
      var states := Present(RetrieveAll(lat, indices[..8]));
      var head := if |states| == 8 then [DecodeByte(states, measure) as byte] else [];
      GroupTail(|indices|);
      head + DecodeGroups(lat, indices[8..], measure)
  }

  /** A positive multiple of eight less one group of eight. */
  lemma GroupTail(n: nat)
    requires n > 0 && n % 8 == 0
    ensures n >= 8 && (n - 8) % 8 == 0 && (n - 8) / 8 == n / 8 - 1
  {
  }

  /** Every index of group g (indices 8g to 8g + 7) holds a state. */
  predicate GroupHolds(lat: Lattice, indices: seq<int>, g: nat)
    requires 8 * g + 8 <= |indices|
  {
    |Present(RetrieveAll(lat, indices[8 * g..8 * g + 8]))| == 8
  }

  /** Every one of the first n groups of eight indices holds all its states. */
  predicate AllGroupsHold(lat: Lattice, indices: seq<int>, n: nat)
    requires 8 * n <= |indices|
  {
    forall g: nat :: g < n ==> GroupHolds(lat, indices, g)
  }

  /** A byte is decoded for every group exactly when every group holds all its states. */
  lemma {:induction false} DecodeGroupsComplete(lat: Lattice, indices: seq<int>, measure: Measure)
    requires |indices| % 8 == 0
    ensures |DecodeGroups(lat, indices, measure)| == |indices| / 8 <==> AllGroupsHold(lat, indices, |indices| / 8)
    decreases |indices|
  {
    if |indices| > 0 {
      GroupTail(|indices|);
      var rest := indices[8..];
      DecodeGroupsComplete(lat, rest, measure);
      DecodeGroupsStep(lat, indices, measure);
      forall g: nat | g < |rest| / 8 ensures GroupHolds(lat, rest, g) == GroupHolds(lat, indices, g + 1) {
        GroupShift(lat, indices, g);
      }
      if forall g: nat :: g < |indices| / 8 ==> GroupHolds(lat, indices, g) {
        assert GroupHolds(lat, indices, 0);
        assert forall g: nat :: g < |rest| / 8 ==> GroupHolds(lat, rest, g);
      } else if GroupHolds(lat, indices, 0) {
        var g: nat :| g < |indices| / 8 && !GroupHolds(lat, indices, g);
        assert !GroupHolds(lat, rest, g - 1);
      }
    }
  }

  /** One group: a byte when the first group holds, then the rest. */
  lemma DecodeGroupsStep(lat: Lattice, indices: seq<int>, measure: Measure)
    requires |indices| % 8 == 0 && |indices| > 0
    ensures |indices| >= 8 && (|indices| - 8) % 8 == 0
    ensures |DecodeGroups(lat, indices, measure)| ==
      (if GroupHolds(lat, indices, 0) then 1 else 0) + |DecodeGroups(lat, indices[8..], measure)|
  {
    GroupTail(|indices|);
    var first := indices[..8];
    assert GroupHolds(lat, indices, 0) == (|Present(RetrieveAll(lat, first))| == 8) by {
      assert indices[8 * 0..8 * 0 + 8] == first;
    }
  }

  /** Group g of the tail is group g + 1 of the whole. */
  lemma GroupShift(lat: Lattice, indices: seq<int>, g: nat)
    requires 8 * g + 16 <= |indices|
    ensures GroupHolds(lat, indices[8..], g) == GroupHolds(lat, indices, g + 1)
  {
    assert indices[8..][8 * g..8 * g + 8] == indices[8 * (g + 1)..8 * (g + 1) + 8];
  }

  /** `decode_int32`: 0 unless there are 32 indices and every group of eight holds states. */
  function DecodeInt32(lat: Lattice, indices: seq<int>, measure: Measure): (v: int)
    ensures -TwoTo31 <= v < TwoTo31
    ensures |indices| != 32 ==> v == 0
    ensures |indices| == 32 && !AllGroupsHold(lat, indices, 4) ==> v == 0
  {
    if |indices| != 32 then 0
    else
      var bytes := DecodeGroups(lat, indices, measure);
      DecodeGroupsComplete(lat, indices, measure);
      if |bytes| == 4 then UnpackInt32(bytes) else 0
  }

  /** `decode_uint64`: 0 unless there are 64 indices and every group of eight holds states. */
  function DecodeUint64(lat: Lattice, indices: seq<int>, measure: Measure): (v: int)
    ensures 0 <= v < TwoTo64
    ensures |indices| != 64 ==> v == 0
    ensures |indices| == 64 && !AllGroupsHold(lat, indices, 8) ==> v == 0
  {
    if |indices| != 64 then 0
    else
      var bytes := DecodeGroups(lat, indices, measure);
      DecodeGroupsComplete(lat, indices, measure);
      if |bytes| == 8 then UnpackUint64(bytes) else 0
  }

  /** Ideally measured and stored at distinct points, the groups decode to the encoded bytes. */
  lemma {:induction false} DecodeGroupsIdeal(
    lat: Lattice, indices: seq<int>, states: seq<QBCState>, vs: seq<nat>, measure: Measure)
    requires |states| == 8 * |vs| && |indices| == |states|
    requires forall k :: 0 <= k < |vs| ==> vs[k] < 256
    requires forall j :: 0 <= j < |states| ==> states[j].classicalBit == ValueBit(vs, j)
    requires forall j :: 0 <= j < |indices| ==> Retrieve(lat, indices[j]) == Some(states[j])
    requires Ideal(measure)
    ensures DecodeGroups(lat, indices, measure) == Widen2(vs)
    decreases |vs|
  {
    if |vs| > 0 {
      FirstGroupIdeal(lat, indices, states, vs, measure);
      TailBits(states, vs);
      DecodeGroupsIdeal(lat, indices[8..], states[8..], vs[1..], measure);
    }
  }

  /** The first group of an ideally measured layout decodes to the first value. */
  lemma FirstGroupIdeal(lat: Lattice, indices: seq<int>, states: seq<QBCState>, vs: seq<nat>, measure: Measure)
    requires |states| == 8 * |vs| && |indices| == |states| && |vs| > 0
    requires forall k :: 0 <= k < |vs| ==> vs[k] < 256
    requires forall j :: 0 <= j < |states| ==> states[j].classicalBit == ValueBit(vs, j)
    requires forall j :: 0 <= j < |indices| ==> Retrieve(lat, indices[j]) == Some(states[j])
    requires Ideal(measure)
    ensures |indices| >= 8 && (|indices| - 8) % 8 == 0
    ensures DecodeGroups(lat, indices, measure) == [vs[0] as byte] + DecodeGroups(lat, indices[8..], measure)
  {
    EightGroups(|vs|);
    var first := states[..8];
    assert Present(RetrieveAll(lat, indices[..8])) == first by {
      var got := RetrieveAll(lat, indices[..8]);
      assert forall i :: 0 <= i < 8 ==> got[i] == Some(states[i]);
    }
    assert DecodeByte(first, measure) == vs[0] by {
      DecodeIdealValue(states, vs, 0, measure);
      assert states[8 * 0..8 * 0 + 8] == first;
    }
  }

  /** n groups of eight, less one group, are still whole groups. */
  lemma EightGroups(n: nat)
    requires n > 0
    ensures 8 * n >= 8 && (8 * n) % 8 == 0 && (8 * n - 8) % 8 == 0
  {
    assert 8 * n - 8 == 8 * (n - 1);
  }

  /** Dropping the first value drops its eight states. */
  lemma TailBits(states: seq<QBCState>, vs: seq<nat>)
    requires |states| == 8 * |vs| && |vs| > 0
    requires forall j :: 0 <= j < |states| ==> states[j].classicalBit == ValueBit(vs, j)
    ensures |states[8..]| == 8 * |vs[1..]|
    ensures forall j :: 0 <= j < |states[8..]| ==> states[8..][j].classicalBit == ValueBit(vs[1..], j)
  {
    forall j | 0 <= j < |states[8..]| ensures states[8..][j].classicalBit == ValueBit(vs[1..], j) {
      assert states[8..][j] == states[j + 8];
      assert (j + 8) / 8 == j / 8 + 1 && (j + 8) % 8 == j % 8;
    }
  }

  /** Naturals below 256 as bytes. */
  function Widen2(vs: seq<nat>): (r: seq<byte>)
    requires forall k :: 0 <= k < |vs| ==> vs[k] < 256
    ensures |r| == |vs|
    ensures forall k :: 0 <= k < |vs| ==> r[k] == vs[k]
  {
    if |vs| == 0 then [] else [vs[0] as byte] + Widen2(vs[1..])
  }

  /** Encoding stores every state at the index reported for it, when those indices are distinct. */
  lemma EncodedRetrievable(c: Converter, vs: seq<nat>, noise: NoiseSource, place: Placement)
    requires Fits(c.lattice, place)
    requires Distinct(EncodeAndStore(c, vs, noise, place).indices)
    ensures var r := EncodeAndStore(c, vs, noise, place);
      forall j :: 0 <= j < |r.indices| ==> Retrieve(r.after.lattice, r.indices[j]) == Some(r.states[j])
  {
    var states := EncodeValues(c.encoder, vs, noise).0;
    StoreAllRetrieve(c.lattice, states, place);
  }

  /** With an ideal measurement and distinct storage points, int32 decoding inverts encoding. */
  lemma Int32RoundTripStored(c: Converter, v: int, noise: NoiseSource, place: Placement, measure: Measure)
    requires Fits(c.lattice, place)
    requires -TwoTo31 <= v < TwoTo31
    requires Ideal(measure)
    requires Distinct(EncodeInt32(c, v, noise, place).value.indices)
    ensures var r := EncodeInt32(c, v, noise, place).value;
      DecodeInt32(r.after.lattice, r.indices, measure) == v
  {
    var bytes := PackInt32(v).value;
    var vs := Widen(bytes);
    var r := EncodeAndStore(c, vs, noise, place);
    EncodedRetrievable(c, vs, noise, place);
    DecodeGroupsIdeal(r.after.lattice, r.indices, r.states, vs, measure);
    assert Widen2(vs) == bytes;
    Int32RoundTrip(v);
  }

  /** With an ideal measurement and distinct storage points, uint64 decoding inverts encoding. */
  lemma Uint64RoundTripStored(c: Converter, v: int, noise: NoiseSource, place: Placement, measure: Measure)
    requires Fits(c.lattice, place)
    requires 0 <= v < TwoTo64
    requires Ideal(measure)
    requires Distinct(EncodeUint64(c, v, noise, place).value.indices)
    ensures var r := EncodeUint64(c, v, noise, place).value;
      DecodeUint64(r.after.lattice, r.indices, measure) == v
  {
    var bytes := PackUint64(v).value;
    var vs := Widen(bytes);
    var r := EncodeAndStore(c, vs, noise, place);
    EncodedRetrievable(c, vs, noise, place);
    DecodeGroupsIdeal(r.after.lattice, r.indices, r.states, vs, measure);
    assert Widen2(vs) == bytes;
    Uint64RoundTrip(v);
  }

  /** `encode_string`: an int32 length prefix, then eight indices per character. */
  function EncodeString(c: Converter, text: string, noise: NoiseSource, place: Placement): (r: Result<Encoded, PackError>)
    requires Fits(c.lattice, place)
    ensures r.Ok? <==> |text| < TwoTo31
    ensures r.Ok? ==> |r.value.indices| == 32 + 8 * |text| && |r.value.states| == 32 + 8 * |text|
    ensures r.Ok? ==> |r.value.after.lattice.points| == |c.lattice.points|
  {
    var lenBytes :- PackInt32(|text|);
    Ok(EncodeAndStore(c, Widen(lenBytes) + Ords(text), noise, place))
  }

  /** The longest length prefix `decode_string` accepts. */
  const MaxStringLength: int := 10000

  /** `decode_string`: empty unless the prefix gives a length in [1, 10000]. */
  function DecodeString(lat: Lattice, indices: seq<int>, measure: Measure): (t: string)
    ensures |indices| < 32 ==> t == ""
    ensures |indices| >= 32 ==> |t| <= (|indices| - 32) / 8
    ensures |indices| >= 32 && |t| > 0 ==> |t| <= DecodeInt32(lat, indices[..32], measure)
    ensures |indices| >= 32 ==>
      var length := DecodeInt32(lat, indices[..32], measure);
      (length <= 0 || length > MaxStringLength ==> t == "") &&
      (0 < length <= MaxStringLength ==> t == DecodeChars(lat, indices, 32, length, measure))
    ensures |t| <= MaxStringLength
  {
    if |indices| < 32 then ""
    else
      var length := DecodeInt32(lat, indices[..32], measure);
      if length <= 0 || length > MaxStringLength then ""
      else DecodeChars(lat, indices, 32, length, measure)
  }

  /**
   * The character loop of `decode_string`: up to `count` more groups from
   * `offset`, stopping when fewer than eight indices remain; a group with a
   * missing state gives no character but still advances the offset.
   */
  function DecodeChars(lat: Lattice, indices: seq<int>, offset: nat, count: nat, measure: Measure): (t: string)
    ensures |t| <= count
    ensures offset <= |indices| ==> |t| <= (|indices| - offset) / 8
    decreases count
  {
    if count == 0 || offset + 8 > |indices| then ""
    else
      var states := Present(RetrieveAll(lat, indices[offset..offset + 8]));
      var head := if |states| == 8 then [Chr(DecodeByte(states, measure))] else [];
      head + DecodeChars(lat, indices, offset + 8, count - 1, measure)
  }

  /** The states encode the values below 256, eight per value, and each index reads back its state. */
  ghost predicate Laid(lat: Lattice, indices: seq<int>, states: seq<QBCState>, vs: seq<nat>)
  {
    && |indices| == |states| == 8 * |vs|
    && (forall i :: 0 <= i < |vs| ==> vs[i] < 256)
    && (forall j :: 0 <= j < |states| ==> states[j].classicalBit == ValueBit(vs, j))
    && (forall j :: 0 <= j < |indices| ==> Retrieve(lat, indices[j]) == Some(states[j]))
  }

  /** The characters with the given code points. */
  function Chars(vs: seq<nat>): (t: string)
    requires forall i :: 0 <= i < |vs| ==> vs[i] < 256
    ensures |t| == |vs|
  {
    if |vs| == 0 then "" else [Chr(vs[0])] + Chars(vs[1..])
  }

  /** Laid out and ideally measured, every group reads back its value. */
  lemma AllGroupsRead(lat: Lattice, indices: seq<int>, states: seq<QBCState>, vs: seq<nat>, measure: Measure)
    requires Laid(lat, indices, states, vs)
    requires Ideal(measure)
    ensures forall g :: 0 <= g < |vs| ==> GroupReads(lat, indices, g, vs[g], measure)
  {
    forall g | 0 <= g < |vs| ensures GroupReads(lat, indices, g, vs[g], measure) {
      GroupAt(lat, indices, states, vs, g, measure);
    }
  }

  /** Group g of the indices reads back eight states that decode to v. */
  predicate GroupReads(lat: Lattice, indices: seq<int>, g: nat, v: nat, measure: Measure)
  {
    8 * g + 8 <= |indices| &&
    var states := Present(RetrieveAll(lat, indices[8 * g..8 * g + 8]));
    |states| == 8 && DecodeByte(states, measure) == v
  }

  /** The character loop over groups that each read back their value gives the values' characters. */
  lemma {:induction false} DecodeCharsFrom(
    lat: Lattice, indices: seq<int>, vs: seq<nat>, k: nat, offset: nat, count: nat, measure: Measure)
    requires forall i :: 0 <= i < |vs| ==> vs[i] < 256
    requires k <= |vs| && offset == 8 * k && count == |vs| - k
    requires forall g :: k <= g < |vs| ==> GroupReads(lat, indices, g, vs[g], measure)
    ensures DecodeChars(lat, indices, offset, count, measure) == Chars(vs[k..])
    decreases count
  {
    if k < |vs| {
      DecodeCharsFrom(lat, indices, vs, k + 1, offset + 8, count - 1, measure);
      DecodeCharsGroup(lat, indices, k, count, vs[k], measure);
      CharsStep(vs, k);
    }
  }

  lemma CharsStep(vs: seq<nat>, k: nat)
    requires forall i :: 0 <= i < |vs| ==> vs[i] < 256
    requires k < |vs|
    ensures Chars(vs[k..]) == [Chr(vs[k])] + Chars(vs[k + 1..])
  {
    assert vs[k..][1..] == vs[k + 1..];
  }

  /** A group that reads back v gives the character v, then the loop goes on from the next group. */
  lemma DecodeCharsGroup(lat: Lattice, indices: seq<int>, k: nat, count: nat, v: nat, measure: Measure)
    requires count > 0 && v < 256 && GroupReads(lat, indices, k, v, measure)
    ensures DecodeChars(lat, indices, 8 * k, count, measure) ==
      [Chr(v)] + DecodeChars(lat, indices, 8 * k + 8, count - 1, measure)
  {
    DecodeCharsStep(lat, indices, 8 * k, count, measure);
  }

  lemma DecodeCharsStep(lat: Lattice, indices: seq<int>, offset: nat, count: nat, measure: Measure)
    requires count > 0 && offset + 8 <= |indices|
    ensures var states := Present(RetrieveAll(lat, indices[offset..offset + 8]));
      DecodeChars(lat, indices, offset, count, measure)
      == (if |states| == 8 then [Chr(DecodeByte(states, measure))] else []) + DecodeChars(lat, indices, offset + 8, count - 1, measure)
  {
  }

  /** Group k holds all its states and decodes to value k. */
  lemma GroupAt(lat: Lattice, indices: seq<int>, states: seq<QBCState>, vs: seq<nat>, k: nat, measure: Measure)
    requires Laid(lat, indices, states, vs)
    requires k < |vs|
    requires Ideal(measure)
    ensures Present(RetrieveAll(lat, indices[8 * k..8 * k + 8])) == states[8 * k..8 * k + 8]
    ensures DecodeByte(states[8 * k..8 * k + 8], measure) == vs[k]
  {
    var got := RetrieveAll(lat, indices[8 * k..8 * k + 8]);
    assert forall i :: 0 <= i < 8 ==> got[i] == Some(states[8 * k + i]);
    DecodeIdealValue(states, vs, k, measure);
  }

  /**
   * With an ideal measurement and distinct storage points, a text of at most
   * 10000 characters, all below code point 256, decodes to itself.
   */
  lemma StringRoundTripStored(c: Converter, text: string, noise: NoiseSource, place: Placement, measure: Measure)
    requires Fits(c.lattice, place)
    requires |text| <= MaxStringLength
    requires Latin1(text)
    requires Ideal(measure)
    requires Distinct(EncodeString(c, text, noise, place).value.indices)
    ensures var r := EncodeString(c, text, noise, place).value;
      DecodeString(r.after.lattice, r.indices, measure) == text
  {
    var lenBytes := PackInt32(|text|).value;
    var vs := Widen(lenBytes) + Ords(text);
    var r := EncodeAndStore(c, vs, noise, place);
    var lat, indices := r.after.lattice, r.indices;
    assert Laid(lat, indices, r.states, vs) by {
      EncodedRetrievable(c, vs, noise, place);
      assert forall i :: 0 <= i < |vs| ==> vs[i] < 256;
    }
    assert DecodeInt32(lat, indices[..32], measure) == |text| by {
      PrefixDecodes(lat, indices, r.states, vs, lenBytes, measure);
      Int32RoundTrip(|text|);
    }
    if |text| > 0 {
      assert DecodeChars(lat, indices, 32, |text|, measure) == text by {
        AllGroupsRead(lat, indices, r.states, vs, measure);
        DecodeCharsFrom(lat, indices, vs, 4, 32, |text|, measure);
        assert vs[4..] == Ords(text);
        CharsOrds(text);
      }
    }
  }

  /** The first 32 indices of a laid-out encoding decode to the int32 packed in its first four values. */
  lemma PrefixDecodes(lat: Lattice, indices: seq<int>, states: seq<QBCState>, vs: seq<nat>, lenBytes: seq<byte>, measure: Measure)
    requires Laid(lat, indices, states, vs)
    requires |lenBytes| == 4 && |vs| >= 4 && vs[..4] == Widen(lenBytes)
    requires Ideal(measure)
    ensures DecodeInt32(lat, indices[..32], measure) == UnpackInt32(lenBytes)
  {
    var prefix := indices[..32];
    var prefixStates := states[..32];
    forall j | 0 <= j < 32 ensures prefixStates[j].classicalBit == ValueBit(Widen(lenBytes), j) {
      assert vs[j / 8] == Widen(lenBytes)[j / 8];
    }
    DecodeGroupsIdeal(lat, prefix, prefixStates, Widen(lenBytes), measure);
    assert Widen2(Widen(lenBytes)) == lenBytes;
  }

  lemma {:induction false} CharsOrds(text: string)
    requires Latin1(text)
    ensures Chars(Ords(text)) == text
  {
    if |text| > 0 {
      assert Ords(text)[1..] == Ords(text[1..]);
      CharsOrds(text[1..]);
    }
  }
}
