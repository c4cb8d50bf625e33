/**
 * Bytes, bits and little-endian packing, as Python's `struct` module and the
 * `(v >> i) & 1` idiom use them.
 */
module Bytes {
  import opened Arith
  import opened Wrappers

  type byte = x: int | 0 <= x < 256
  type bit = x: int | 0 <= x < 2

  /** Fixed-width unsigned machine integers (C `uint16_t`, `uint32_t`, `uint64_t`/`size_t`). */
  type u16 = x: int | 0 <= x < 0x1_0000
  type u32 = x: int | 0 <= x < 0x1_0000_0000
  type u64 = x: int | 0 <= x < 0x1_0000_0000_0000_0000

  /** Reduction modulo 2^64: what C unsigned 64-bit arithmetic does to a result. */
  function Wrap64(x: int): (r: u64)
    ensures 0 <= x < 0x1_0000_0000_0000_0000 ==> r == x
    ensures (r - x) % 0x1_0000_0000_0000_0000 == 0
  {
    x % 0x1_0000_0000_0000_0000
  }

  /** The n low-order base-256 digits of v, least significant first. */
  function ToLE(v: nat, n: nat): (r: seq<byte>)
    ensures |r| == n
  {
    if n == 0 then [] else [(v % 256) as byte] + ToLE(v / 256, n - 1)
  }

  /** The value of a little-endian digit sequence. */
  function FromLE(bs: seq<byte>): (v: nat)
    ensures v < Pow(256, |bs|)
  {
    if |bs| == 0 then 0 else bs[0] + 256 * FromLE(bs[1..])
  }

  lemma {:induction false} FromToLE(v: nat, n: nat)
    requires v < Pow(256, n)
    ensures FromLE(ToLE(v, n)) == v
  {
    if n > 0 {
      assert v / 256 < Pow(256, n - 1) by {
        DivModUnique(v, 256, v / 256, v % 256);
      }
      FromToLE(v / 256, n - 1);
      assert ToLE(v, n)[1..] == ToLE(v / 256, n - 1);
    }
  }

  lemma {:induction false} ToFromLE(bs: seq<byte>)
    ensures ToLE(FromLE(bs), |bs|) == bs
  {
    if |bs| > 0 {
      var v := FromLE(bs);
      DivModUnique(v, 256, FromLE(bs[1..]), bs[0]);
      ToFromLE(bs[1..]);
    }
  }

  /** The n low-order bits of v, least significant first. */
  function LowBits(v: nat, n: nat): (r: seq<bit>)
    ensures |r| == n
  {
    if n == 0 then [] else [(v % 2) as bit] + LowBits(v / 2, n - 1)
  }

  /** The value of a bit sequence read least significant first. */
  function PackBits(bs: seq<bit>): (v: nat)
    ensures v < Pow(2, |bs|)
  {
    if |bs| == 0 then 0 else bs[0] + 2 * PackBits(bs[1..])
  }

  /** Element i of LowBits is Python's `(v >> i) & 1`. */
  lemma {:induction false} LowBitsIndex(v: nat, n: nat, i: nat)
    requires i < n
    ensures LowBits(v, n)[i] == (v / Pow(2, i)) % 2
  {
    if i > 0 {
      LowBitsIndex(v / 2, n - 1, i - 1);
      DivDiv(v, 2, Pow(2, i - 1));
    }
  }

  /** Bit i of a packed sequence is element i: the bits occupy distinct positions. */
  lemma {:induction false} PackBitsIndex(bs: seq<bit>, i: nat)
    requires i < |bs|
    ensures (PackBits(bs) / Pow(2, i)) % 2 == bs[i]
  {
    var v := PackBits(bs);
    DivModUnique(v, 2, PackBits(bs[1..]), bs[0]);
    if i > 0 {
      PackBitsIndex(bs[1..], i - 1);
      DivDiv(v, 2, Pow(2, i - 1));
    }
  }

  lemma {:induction false} PackLowBits(v: nat, n: nat)
    requires v < Pow(2, n)
    ensures PackBits(LowBits(v, n)) == v
  {
    if n > 0 {
      assert v / 2 < Pow(2, n - 1) by {
        DivModUnique(v, 2, v / 2, v % 2);
      }
      PackLowBits(v / 2, n - 1);
      assert LowBits(v, n)[1..] == LowBits(v / 2, n - 1);
    }
  }

  lemma {:induction false} LowBitsPack(bs: seq<bit>)
    ensures LowBits(PackBits(bs), |bs|) == bs
  {
    if |bs| > 0 {
      DivModUnique(PackBits(bs), 2, PackBits(bs[1..]), bs[0]);
      LowBitsPack(bs[1..]);
    }
  }

  /** Errors `struct.pack` raises for a value outside the format's range. */
  datatype PackError = OutOfRange(value: int)

  const TwoTo31: int := 0x8000_0000
  const TwoTo32: int := 0x1_0000_0000
  const TwoTo64: int := 0x1_0000_0000_0000_0000

  lemma Pow256Values()
    ensures Pow(256, 4) == TwoTo32
    ensures Pow(256, 8) == TwoTo64
  {
    assert Pow(256, 2) == 65536;
    assert Pow(256, 4) == Pow(256, 2) * Pow(256, 2) by { PowAdd(256, 2, 2); }
    assert Pow(256, 8) == Pow(256, 4) * Pow(256, 4) by { PowAdd(256, 4, 4); }
  }

  /** `struct.pack('<i', v)`: four bytes of two's complement, little-endian. */
  function PackInt32(v: int): (r: Result<seq<byte>, PackError>)
    ensures r.Ok? <==> -TwoTo31 <= v < TwoTo31
    ensures r.Ok? ==> |r.value| == 4
  {
    if -TwoTo31 <= v < TwoTo31 then
      Ok(ToLE(if v < 0 then v + TwoTo32 else v, 4))
    else
      Err(OutOfRange(v))
  }

  /** `struct.unpack('<i', bs)[0]` for exactly four bytes. */
  function UnpackInt32(bs: seq<byte>): (v: int)
    requires |bs| == 4
    ensures -TwoTo31 <= v < TwoTo31
  {
    Pow256Values();
    var u := FromLE(bs);
    if u >= TwoTo31 then u - TwoTo32 else u
  }

  lemma Int32RoundTrip(v: int)
    requires -TwoTo31 <= v < TwoTo31
    ensures PackInt32(v).Ok? && UnpackInt32(PackInt32(v).value) == v
  {
    Pow256Values();
    FromToLE(if v < 0 then v + TwoTo32 else v, 4);
  }

  /** `struct.pack('<Q', v)`: eight bytes, little-endian. */
  function PackUint64(v: int): (r: Result<seq<byte>, PackError>)
    ensures r.Ok? <==> 0 <= v < TwoTo64
    ensures r.Ok? ==> |r.value| == 8
  {
    if 0 <= v < TwoTo64 then Ok(ToLE(v, 8)) else Err(OutOfRange(v))
  }

  /** `struct.unpack('<Q', bs)[0]` for exactly eight bytes. */
  function UnpackUint64(bs: seq<byte>): (v: int)
    requires |bs| == 8
    ensures 0 <= v < TwoTo64
  {
    Pow256Values();
    FromLE(bs)
  }

  lemma Uint64RoundTrip(v: int)
    requires 0 <= v < TwoTo64
    ensures PackUint64(v).Ok? && UnpackUint64(PackUint64(v).value) == v
  {
    Pow256Values();
    FromToLE(v, 8);
  }
}
