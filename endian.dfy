/** Explicit fixed-width integer codecs over byte sequences, the layout Go's
    `binary.Write` / `binary.Read` give a struct of fixed-size fields: every
    field in declaration order, each in the configured byte order, no padding.
    The configured order (`conf.Endianness`) lives outside the modelled code,
    so it is a parameter here. */
module Endian {
  import opened Primitives

  datatype ByteOrder = BigEndian | LittleEndian

  /** 256 to the power `n`: one more than the largest `n`-byte unsigned value. */
  function Pow256(n: nat): (p: nat)
    ensures p > 0
  {
    if n == 0 then 1 else 256 * Pow256(n - 1)
  }

  lemma Pow256Widths()
    ensures Pow256(1) == 0x100 && Pow256(2) == 0x1_0000
    ensures Pow256(4) == TwoTo32 && Pow256(8) == TwoTo64
  {
    assert Pow256(1) == 256 * Pow256(0);
    assert Pow256(2) == 256 * Pow256(1);
    assert Pow256(3) == 256 * Pow256(2);
    assert Pow256(4) == 256 * Pow256(3);
    assert Pow256(5) == 256 * Pow256(4);
    assert Pow256(6) == 256 * Pow256(5);
    assert Pow256(7) == 256 * Pow256(6);
    assert Pow256(8) == 256 * Pow256(7);
  }

  /** The `width`-byte encoding of the unsigned value `x`. */
  function EncodeUint(order: ByteOrder, width: nat, x: nat): (r: seq<byte>)
    requires x < Pow256(width)
    ensures |r| == width
  {
    if width == 0 then []
    else
      DivideBelowPow(x, width);
      match order
      case BigEndian => EncodeUint(order, width - 1, x / 256) + [x % 256]
      case LittleEndian => [x % 256] + EncodeUint(order, width - 1, x / 256)
  }

  /** The unsigned value a byte sequence encodes. */
  function DecodeUint(order: ByteOrder, s: seq<byte>): (x: nat)
    ensures x < Pow256(|s|)
  {
    if |s| == 0 then 0
    else
      match order
      case BigEndian =>
        var high := DecodeUint(order, s[..|s| - 1]);
        ComposeBelowPow(high, s[|s| - 1], |s| - 1);
        high * 256 + s[|s| - 1]
      case LittleEndian =>
        var high := DecodeUint(order, s[1..]);
        ComposeBelowPow(high, s[0], |s| - 1);
        s[0] + 256 * high
  }

  lemma DivideBelowPow(x: nat, width: nat)
    requires width > 0 && x < Pow256(width)
    ensures x / 256 < Pow256(width - 1)
  {
    assert Pow256(width) == 256 * Pow256(width - 1);
  }

  lemma ComposeBelowPow(high: nat, low: byte, width: nat)
    requires high < Pow256(width)
    ensures high * 256 + low < Pow256(width + 1)
  {
    assert Pow256(width + 1) == 256 * Pow256(width);
    assert high * 256 <= (Pow256(width) - 1) * 256;
  }

  /** Decoding inverts encoding. */
  lemma {:induction false} DecodeEncode(order: ByteOrder, width: nat, x: nat)
    requires x < Pow256(width)
    ensures DecodeUint(order, EncodeUint(order, width, x)) == x
    decreases width
  {
    if width > 0 {
      DivideBelowPow(x, width);
      var s := EncodeUint(order, width, x);
      DecodeEncode(order, width - 1, x / 256);
      match order
      case BigEndian =>
        assert s[..|s| - 1] == EncodeUint(order, width - 1, x / 256);
      case LittleEndian =>
        assert s[1..] == EncodeUint(order, width - 1, x / 256);
    }
  }

  /** Encoding inverts decoding: every byte sequence is the encoding of the
      value it decodes to, so the codec is a bijection at each width. */
  lemma {:induction false} EncodeDecode(order: ByteOrder, s: seq<byte>)
    ensures EncodeUint(order, |s|, DecodeUint(order, s)) == s
    decreases |s|
  {
    if |s| > 0 {
      var x := DecodeUint(order, s);
      match order
      case BigEndian =>
        var high := DecodeUint(order, s[..|s| - 1]);
        assert x / 256 == high && x % 256 == s[|s| - 1];
        EncodeDecode(order, s[..|s| - 1]);
        assert s == s[..|s| - 1] + [s[|s| - 1]];
      case LittleEndian =>
        var high := DecodeUint(order, s[1..]);
        assert x / 256 == high && x % 256 == s[0];
        EncodeDecode(order, s[1..]);
        assert s == [s[0]] + s[1..];
    }
  }

  function EncodeU8(order: ByteOrder, x: uint8): (r: seq<byte>)
    ensures |r| == 1
  {
    Pow256Widths();
    EncodeUint(order, 1, x)
  }

  function EncodeU16(order: ByteOrder, x: uint16): (r: seq<byte>)
    ensures |r| == 2
  {
    Pow256Widths();
    EncodeUint(order, 2, x)
  }

  function EncodeU32(order: ByteOrder, x: uint32): (r: seq<byte>)
    ensures |r| == 4
  {
    Pow256Widths();
    EncodeUint(order, 4, x)
  }

  /** Two's-complement 8-byte encoding of an int64. */
  function EncodeI64(order: ByteOrder, x: int64): (r: seq<byte>)
    ensures |r| == 8
  {
    Pow256Widths();
    EncodeUint(order, 8, if x >= 0 then x else x + TwoTo64)
  }

  function DecodeU8(order: ByteOrder, s: seq<byte>): uint8
    requires |s| == 1
  {
    Pow256Widths();
    DecodeUint(order, s)
  }

  function DecodeU16(order: ByteOrder, s: seq<byte>): uint16
    requires |s| == 2
  {
    Pow256Widths();
    DecodeUint(order, s)
  }

  function DecodeU32(order: ByteOrder, s: seq<byte>): uint32
    requires |s| == 4
  {
    Pow256Widths();
    DecodeUint(order, s)
  }

  function DecodeI64(order: ByteOrder, s: seq<byte>): int64
    requires |s| == 8
  {
    Pow256Widths();
    var u := DecodeUint(order, s);
    if u < TwoTo63 then u else u - TwoTo64
  }

  lemma FieldRoundTrips(order: ByteOrder, a: uint8, b: uint16, c: uint32, d: int64)
    ensures DecodeU8(order, EncodeU8(order, a)) == a
    ensures DecodeU16(order, EncodeU16(order, b)) == b
    ensures DecodeU32(order, EncodeU32(order, c)) == c
    ensures DecodeI64(order, EncodeI64(order, d)) == d
  {
    Pow256Widths();
    DecodeEncode(order, 1, a);
    DecodeEncode(order, 2, b);
    DecodeEncode(order, 4, c);
    DecodeEncode(order, 8, if d >= 0 then d else d + TwoTo64);
  }

  /** Every field-width byte sequence is the encoding of the value it
      decodes to. */
  lemma FieldsReencode(order: ByteOrder, s: seq<byte>)
    ensures |s| == 1 ==> EncodeU8(order, DecodeU8(order, s)) == s
    ensures |s| == 2 ==> EncodeU16(order, DecodeU16(order, s)) == s
    ensures |s| == 4 ==> EncodeU32(order, DecodeU32(order, s)) == s
    ensures |s| == 8 ==> EncodeI64(order, DecodeI64(order, s)) == s
  {
    Pow256Widths();
    EncodeDecode(order, s);
  }
}
