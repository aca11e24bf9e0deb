/** The primitive encodings of a Java ByteBuffer in its default big-endian
    order: unsigned words of k bytes, `int` and `long` in two's complement,
    and `double` as its raw 64-bit pattern. */
module Bytes {
  import opened RStarNodes

  newtype Byte = x: int | 0 <= x < 256

  /** A Java `int`. */
  type Int32 = x: int | -0x8000_0000 <= x < 0x8000_0000

  /** A raw 64-bit pattern, as `Double.doubleToRawLongBits` gives it, read
      as an unsigned number. */
  type Bits64 = x: nat | x < 0x1_0000_0000_0000_0000

  function Pow256(k: nat): (r: nat)
    ensures r > 0
  {
    if k == 0 then 1 else 256 * Pow256(k - 1)
  }

  /** Half the range of `k` bytes: the bound of the signed values. */
  function Half(k: nat): (h: int)
    ensures k > 0 ==> 2 * h == Pow256(k)
  {
    Pow256(k) / 2
  }

  /** The k-byte big-endian encoding of an unsigned value. */
  function EncodeUnsigned(x: nat, k: nat): (r: seq<Byte>)
    requires x < Pow256(k)
    ensures |r| == k
  {
    if k == 0 then []
    else
      assert x / 256 < Pow256(k - 1);
      EncodeUnsigned(x / 256, k - 1) + [(x % 256) as Byte]
  }

  /** The value of a big-endian byte string. */
  function DecodeUnsigned(bs: seq<Byte>): (x: nat)
    ensures x < Pow256(|bs|)
  {
    if |bs| == 0 then 0
    else DecodeUnsigned(bs[..|bs| - 1]) * 256 + bs[|bs| - 1] as nat
  }

  lemma {:induction false} DecodeEncodeUnsigned(x: nat, k: nat)
    requires x < Pow256(k)
    ensures DecodeUnsigned(EncodeUnsigned(x, k)) == x
  {
    if k > 0 {
      var r := EncodeUnsigned(x, k);
      assert r[..k - 1] == EncodeUnsigned(x / 256, k - 1);
      DecodeEncodeUnsigned(x / 256, k - 1);
      assert r[k - 1] as nat == x % 256;
      assert DecodeUnsigned(r) == (x / 256) * 256 + x % 256;
    }
  }

  lemma {:induction false} EncodeDecodeUnsigned(bs: seq<Byte>)
    ensures EncodeUnsigned(DecodeUnsigned(bs), |bs|) == bs
  {
    if |bs| > 0 {
      var init := bs[..|bs| - 1];
      var x := DecodeUnsigned(bs);
      var b := bs[|bs| - 1];
      assert x == DecodeUnsigned(init) * 256 + b as nat;
      assert x / 256 == DecodeUnsigned(init);
      assert x % 256 == b as nat;
      assert bs == init + [b];
      EncodeDecodeUnsigned(init);
    }
  }

  /** Two's complement of a value in `k` bytes, and back. */
  function ToUnsigned(x: int, k: nat): (u: nat)
    requires -Half(k) <= x < Half(k)
    ensures u < Pow256(k)
    ensures x >= 0 ==> u == x
    ensures x < 0 ==> u >= Half(k)
  {
    if x < 0 then x + Pow256(k) else x
  }

  function FromUnsigned(u: nat, k: nat): (x: int)
    requires k > 0 && u < Pow256(k)
    ensures -Half(k) <= x < Half(k)
    ensures ToUnsigned(x, k) == u
  {
    if u >= Half(k) then u - Pow256(k) else u
  }

  lemma FromToUnsigned(x: int, k: nat)
    requires k > 0 && -Half(k) <= x < Half(k)
    ensures FromUnsigned(ToUnsigned(x, k), k) == x
  {
  }

  lemma Pow256Widths()
    ensures Pow256(1) == 0x100
    ensures Pow256(4) == 0x1_0000_0000
    ensures Pow256(8) == 0x1_0000_0000_0000_0000
  {
    assert Pow256(2) == 0x1_0000;
    assert Pow256(4) == 0x1_0000_0000;
    assert Pow256(6) == 0x1_0000_0000_0000;
  }

  /** putInt / getInt. */
  function EncodeInt(x: Int32): (r: seq<Byte>)
    ensures |r| == 4
  {
    Pow256Widths();
    EncodeUnsigned(ToUnsigned(x, 4), 4)
  }

  function DecodeInt(bs: seq<Byte>): (x: Int32)
    requires |bs| == 4
    ensures EncodeInt(x) == bs
  {
    Pow256Widths();
    var x := FromUnsigned(DecodeUnsigned(bs), 4);
    EncodeDecodeUnsigned(bs);
    x
  }

  lemma DecodeEncodeInt(x: Int32)
    ensures DecodeInt(EncodeInt(x)) == x
  {
    Pow256Widths();
    DecodeEncodeUnsigned(ToUnsigned(x, 4), 4);
    FromToUnsigned(x, 4);
  }

  /** putLong / getLong. */
  function EncodeLong(x: Long): (r: seq<Byte>)
    ensures |r| == 8
  {
    Pow256Widths();
    EncodeUnsigned(ToUnsigned(x, 8), 8)
  }

  function DecodeLong(bs: seq<Byte>): (x: Long)
    requires |bs| == 8
    ensures EncodeLong(x) == bs
  {
    Pow256Widths();
    var x := FromUnsigned(DecodeUnsigned(bs), 8);
    EncodeDecodeUnsigned(bs);
    x
  }

  lemma DecodeEncodeLong(x: Long)
    ensures DecodeLong(EncodeLong(x)) == x
  {
    Pow256Widths();
    DecodeEncodeUnsigned(ToUnsigned(x, 8), 8);
    FromToUnsigned(x, 8);
  }

  /** putDouble / getDouble: the raw bit pattern, unchanged. */
  function EncodeDouble(x: Bits64): (r: seq<Byte>)
    ensures |r| == 8
  {
    Pow256Widths();
    EncodeUnsigned(x, 8)
  }

  function DecodeDouble(bs: seq<Byte>): (x: Bits64)
    requires |bs| == 8
    ensures EncodeDouble(x) == bs
  {
    Pow256Widths();
    EncodeDecodeUnsigned(bs);
    DecodeUnsigned(bs)
  }

  lemma DecodeEncodeDouble(x: Bits64)
    ensures DecodeDouble(EncodeDouble(x)) == x
  {
    Pow256Widths();
    DecodeEncodeUnsigned(x, 8);
  }
}
