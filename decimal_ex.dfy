/*******************************************************************************
 *  Decimals: DecimalEx.GetBytes, which is to write the sixteen bytes of a
 *  decimal (its four 32-bit parts lo, mid, hi and flags, each low byte
 *  first) into a buffer of at least sixteen bytes.
 *
 *  As written it stores only the low byte of each part, in buffer[0..4):
 *  GetBytes models that, and GetBytesCorrected the sixteen-byte layout the
 *  method's precondition and its description call for.
 *******************************************************************************/

module Decimals {
  import opened Common

  /** A decimal by decimal.GetBits: lo, mid, hi and flags. */
  datatype DecimalBits = DecimalBits(lo: int32, mid: int32, hi: int32, flags: int32)

  /** decimal.GetBits(d): the four parts in order. */
  function GetBits(d: DecimalBits): (r: seq<int32>)
    ensures |r| == 4
  {
    [d.lo, d.mid, d.hi, d.flags]
  }

  /** The unchecked cast (byte)x: the low eight bits of x. */
  function LowByte(x: int32): (r: byte)
    ensures (x - r) % 0x100 == 0
  {
    x % 0x100
  }

  /** What GetBytes as written leaves in buffer[0..4): the low byte of each part. */
  function TruncatedBytes(d: DecimalBits): (r: seq<byte>)
    ensures |r| == 4
  {
    seq(4, i requires 0 <= i < 4 => LowByte(GetBits(d)[i]))
  }

  /**
   * GetBytes as written: for each part i, buffer[i] = (byte)part; the bytes
   * from 4 on are not touched.
   */
  method GetBytes(d: DecimalBits, buffer: array<byte>)
    requires buffer.Length >= 16
    modifies buffer
    ensures buffer[..] == TruncatedBytes(d) + old(buffer[4..])
  {
    var intArr := GetBits(d);
    var i := 0;
    while i < |intArr|
      invariant 0 <= i <= |intArr|
      invariant buffer[..i] == TruncatedBytes(d)[..i]
      invariant buffer[4..] == old(buffer[4..])
    {
      buffer[i] := LowByte(intArr[i]);
      i := i + 1;
    }
    assert buffer[..] == buffer[..4] + buffer[4..];
  }

  /**
   * GetBytes as written cannot be decoded: the decimals 256 and 0 (lo = 256
   * and lo = 0, all else zero) leave the same bytes in every buffer.
   */
  lemma TruncatedBytesCollide()
    ensures DecimalBits(256, 0, 0, 0) != DecimalBits(0, 0, 0, 0)
    ensures TruncatedBytes(DecimalBits(256, 0, 0, 0)) == TruncatedBytes(DecimalBits(0, 0, 0, 0))
  {
    assert TruncatedBytes(DecimalBits(256, 0, 0, 0)) == [0, 0, 0, 0];
    assert TruncatedBytes(DecimalBits(0, 0, 0, 0)) == [0, 0, 0, 0];
  }

  /** The sixteen bytes of a decimal: each part low byte first, lo, mid, hi, flags. */
  function Encode(d: DecimalBits): (r: seq<byte>)
    ensures |r| == 16
  {
    LeBytes32(d.lo) + LeBytes32(d.mid) + LeBytes32(d.hi) + LeBytes32(d.flags)
  }

  /** The reader of the sixteen-byte layout: the four parts read little-endian. */
  function Decode(b: seq<byte>): DecimalBits
    requires |b| >= 16
  {
    DecimalBits(LeInt32(b, 0), LeInt32(b, 4), LeInt32(b, 8), LeInt32(b, 12))
  }

  /** The part written at position |p| reads back. */
  lemma ReadBackAt(p: seq<byte>, x: int32, q: seq<byte>)
    ensures LeInt32(p + LeBytes32(x) + q, |p|) == x
  {
    var s := p + LeBytes32(x) + q;
    assert s[|p|..|p| + 4] == LeBytes32(x);
    LeInt32OfBytes(x);
    assert LeUInt32(s, |p|) == LeUInt32(LeBytes32(x), 0);
  }

  /** Encoding then decoding gives the decimal back. */
  lemma DecodeEncode(d: DecimalBits)
    ensures Decode(Encode(d)) == d
  {
    var a, b, c, f := LeBytes32(d.lo), LeBytes32(d.mid), LeBytes32(d.hi), LeBytes32(d.flags);
    ReadBackAt([], d.lo, b + c + f);
    assert Encode(d) == [] + a + (b + c + f);
    ReadBackAt(a, d.mid, c + f);
    assert Encode(d) == a + b + (c + f);
    ReadBackAt(a + b, d.hi, f);
    assert Encode(d) == (a + b) + c + f;
    ReadBackAt(a + b + c, d.flags, []);
    assert Encode(d) == (a + b + c) + f + [];
  }

  /** Decoding then encoding gives the sixteen bytes back. */
  lemma EncodeDecode(b: seq<byte>)
    requires |b| >= 16
    ensures Encode(Decode(b)) == b[..16]
  {
    LeBytes32Of(b, 0);
    LeBytes32Of(b, 4);
    LeBytes32Of(b, 8);
    LeBytes32Of(b, 12);
    assert b[..16] == b[0..4] + b[4..8] + b[8..12] + b[12..16];
  }

  /**
   * GetBytes as evidently intended: each part's four bytes, low byte first,
   * at 4 * i; the bytes from 16 on are not touched.
   */
  method GetBytesCorrected(d: DecimalBits, buffer: array<byte>)
    requires buffer.Length >= 16
    modifies buffer
    ensures buffer[..] == Encode(d) + old(buffer[16..])
  {
    var intArr := GetBits(d);
    var i := 0;
    while i < |intArr|
      invariant 0 <= i <= |intArr|
      invariant forall k | 0 <= k < 4 * i :: buffer[k] == Encode(d)[k]
      invariant buffer[16..] == old(buffer[16..])
    {
      var part := LeBytes32(intArr[i]);
      assert part == Encode(d)[4 * i..4 * i + 4];
      buffer[4 * i] := part[0];
      buffer[4 * i + 1] := part[1];
      buffer[4 * i + 2] := part[2];
      buffer[4 * i + 3] := part[3];
      i := i + 1;
    }
    assert buffer[..] == buffer[..16] + buffer[16..];
  }
}
