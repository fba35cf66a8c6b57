/*******************************************************************************
 *  Shared vocabulary for the MonoLib model: bytes, the .NET integer widths,
 *  the exceptions the library throws, and failure-compatible wrappers.
 *******************************************************************************/

module Common {

  /** An 8-bit unsigned value (System.Byte). */
  type byte = x: int | 0 <= x < 0x100

  const Int16Min: int := -0x8000
  const Int16Max: int := 0x7FFF
  const UInt16Max: int := 0xFFFF
  const Int32Min: int := -0x8000_0000
  const Int32Max: int := 0x7FFF_FFFF
  const UInt32Max: int := 0xFFFF_FFFF
  const Int64Min: int := -0x8000_0000_0000_0000
  const Int64Max: int := 0x7FFF_FFFF_FFFF_FFFF
  const UInt64Max: int := 0xFFFF_FFFF_FFFF_FFFF

  /** System.Int16 .. System.UInt64 as ranges of int. */
  type int16 = x: int | Int16Min <= x <= Int16Max
  type uint16 = x: int | 0 <= x <= UInt16Max
  type int32 = x: int | Int32Min <= x <= Int32Max
  type int64 = x: int | Int64Min <= x <= Int64Max
  type uint32 = x: int | 0 <= x <= UInt32Max
  type uint64 = x: int | 0 <= x <= UInt64Max

  /** Two's-complement truncation of an integer to 16 bits. */
  function Wrap16(x: int): (r: int16)
    ensures (r - x) % 0x1_0000 == 0
    ensures Int16Min <= x <= Int16Max ==> r == x
  {
    var m := x % 0x1_0000;
    if m <= Int16Max then m else m - 0x1_0000
  }

  /** A value below the modulus is its own remainder. */
  lemma ModOfSmall(v: int, c: int)
    requires 0 <= v < c
    ensures v % c == v
  {
  }

  /** Two's-complement truncation of an integer to 32 bits (unchecked C# arithmetic). */
  function Wrap32(x: int): (r: int32)
    ensures (r - x) % 0x1_0000_0000 == 0
    ensures Int32Min <= x <= Int32Max ==> r == x
  {
    var m := x % 0x1_0000_0000;
    if m <= Int32Max then m else m - 0x1_0000_0000
  }

  /** Two's-complement truncation of an integer to 64 bits. */
  function Wrap64(x: int): (r: int64)
    ensures (r - x) % 0x1_0000_0000_0000_0000 == 0
    ensures Int64Min <= x <= Int64Max ==> r == x
  {
    var m := x % 0x1_0000_0000_0000_0000;
    if m <= Int64Max then m else m - 0x1_0000_0000_0000_0000
  }

  /** The unsigned image of a 32-bit value: a cast to UInt32, as C# bit operators see it. */
  function Unsigned32(x: int): (u: uint32)
  {
    x % 0x1_0000_0000
  }

  /** The unsigned image of a 64-bit value: a cast to UInt64. */
  function Unsigned64(x: int): (u: uint64)
  {
    x % 0x1_0000_0000_0000_0000
  }

  function Pow2(n: nat): (r: nat)
    ensures r >= 1
  {
    if n == 0 then 1 else 2 * Pow2(n - 1)
  }

  lemma Pow2Values()
    ensures Pow2(8) == 0x100 && Pow2(16) == 0x1_0000 && Pow2(32) == 0x1_0000_0000
    ensures Pow2(24) == 0x100_0000 && Pow2(26) == 0x400_0000
    ensures Pow2(64) == 0x1_0000_0000_0000_0000
  {
    assert Pow2(4) == 0x10;
    assert Pow2(8) == 0x100;
    assert Pow2(12) == 0x1000;
    assert Pow2(16) == 0x1_0000;
    assert Pow2(24) == 0x100_0000;
    assert Pow2(26) == 0x400_0000;
    assert Pow2(32) == 0x1_0000_0000;
    assert Pow2(40) == 0x100_0000_0000;
    assert Pow2(48) == 0x1_0000_0000_0000;
    assert Pow2(56) == 0x100_0000_0000_0000;
  }

  /** The bitwise OR `a | b` of two non-negative values, one bit at a time. */
  function BitOr(a: nat, b: nat): (r: nat)
    decreases a + b
  {
    if a == 0 then b
    else if b == 0 then a
    else 2 * BitOr(a / 2, b / 2) + (if a % 2 == 1 || b % 2 == 1 then 1 else 0)
  }

  /** The bitwise AND `a & b` of two non-negative values, one bit at a time. */
  function BitAnd(a: nat, b: nat): (r: nat)
    decreases a + b
  {
    if a == 0 || b == 0 then 0
    else 2 * BitAnd(a / 2, b / 2) + (if a % 2 == 1 && b % 2 == 1 then 1 else 0)
  }

  /** An OR of a value with no bit below `n` and a value below 2^n is their sum. */
  lemma {:induction false} OrDisjoint(k: nat, b: nat, n: nat)
    requires b < Pow2(n)
    ensures BitOr(Pow2(n) * k, b) == Pow2(n) * k + b
    decreases n
  {
    var a := Pow2(n) * k;
    if a != 0 && b != 0 {
      var t := Pow2(n - 1) * k;
      assert a == 2 * t;
      OrDisjoint(k, b / 2, n - 1);
    }
  }

  /** OR of a value shifted left by 16 with a 16-bit value is their sum. */
  lemma OrDisjoint16(h: nat, l: nat)
    requires l < 0x1_0000
    ensures BitOr(h * 0x1_0000, l) == h * 0x1_0000 + l
  {
    Pow2Values();
    OrDisjoint(h, l, 16);
  }

  /** OR of a value shifted left by 32 with a 32-bit value is their sum. */
  lemma OrDisjoint32(h: nat, l: nat)
    requires l < 0x1_0000_0000
    ensures BitOr(h * 0x1_0000_0000, l) == h * 0x1_0000_0000 + l
  {
    Pow2Values();
    OrDisjoint(h, l, 32);
  }

  lemma {:induction false} OrCommutes(a: nat, b: nat)
    ensures BitOr(a, b) == BitOr(b, a)
    decreases a + b
  {
    if a != 0 && b != 0 {
      OrCommutes(a / 2, b / 2);
    }
  }

  /** OR of two values below 2^n stays below 2^n. */
  lemma {:induction false} OrBelow(a: nat, b: nat, n: nat)
    requires a < Pow2(n) && b < Pow2(n)
    ensures BitOr(a, b) < Pow2(n)
    decreases n
  {
    if a != 0 && b != 0 {
      OrBelow(a / 2, b / 2, n - 1);
    }
  }

  /** OR sets bits and never clears them: it is at least each operand. */
  lemma {:induction false} OrAbove(a: nat, b: nat)
    ensures a <= BitOr(a, b) && b <= BitOr(a, b)
    decreases a + b
  {
    if a != 0 && b != 0 {
      OrAbove(a / 2, b / 2);
    }
  }

  /** AND keeps only bits of both operands: it is at most each operand. */
  lemma {:induction false} AndBelow(a: nat, b: nat)
    ensures BitAnd(a, b) <= a && BitAnd(a, b) <= b
    decreases a + b
  {
    if a != 0 && b != 0 {
      AndBelow(a / 2, b / 2);
    }
  }

  lemma {:induction false} AndSelf(a: nat)
    ensures BitAnd(a, a) == a
    decreases a
  {
    if a != 0 {
      AndSelf(a / 2);
    }
  }

  /** One step of AND: the low bits combine, the rest is the AND of the halves. */
  lemma BitAndStep(a: nat, b: nat)
    ensures BitAnd(a, b) == 2 * BitAnd(a / 2, b / 2) + (if a % 2 == 1 && b % 2 == 1 then 1 else 0)
  {
  }

  /**
   * For k-bit values, `x & ~m` is zero exactly when `x & m` is `x`: x has no
   * bit outside the mask m.
   */
  lemma {:induction false} AndComplement(x: nat, m: nat, k: nat)
    requires x < Pow2(k) && m < Pow2(k)
    ensures BitAnd(x, Pow2(k) - 1 - m) == 0 <==> BitAnd(x, m) == x
    decreases k
  {
    if k == 0 {
      assert x == 0;
    } else {
      var c := Pow2(k) - 1 - m;
      BitAndStep(x, c);
      BitAndStep(x, m);
      assert c / 2 == Pow2(k - 1) - 1 - m / 2;
      assert c % 2 == 1 - m % 2;
      AndComplement(x / 2, m / 2, k - 1);
    }
  }

  /** `x & 2^n` is `x` exactly when x is 0 or 2^n itself. */
  lemma {:induction false} AndSingleBit(x: nat, n: nat)
    ensures BitAnd(x, Pow2(n)) == x <==> x == 0 || x == Pow2(n)
    decreases n
  {
    BitAndStep(x, Pow2(n));
    if n == 0 {
      assert BitAnd(x / 2, 0) == 0;
    } else {
      assert Pow2(n) / 2 == Pow2(n - 1) && Pow2(n) % 2 == 0;
      AndSingleBit(x / 2, n - 1);
    }
  }

  /** Masking with 2^m - 1 keeps the remainder below 2^m. */
  lemma {:induction false} AndLowMask(q: nat, r: nat, m: nat)
    requires r < Pow2(m)
    ensures BitAnd(Pow2(m) * q + r, Pow2(m) - 1) == r
    decreases m
  {
    if m > 0 && Pow2(m) * q + r != 0 {
      var x, mask := Pow2(m) * q + r, Pow2(m) - 1;
      var t := Pow2(m - 1) * q;
      assert Pow2(m) * q == 2 * t;
      assert x / 2 == t + r / 2 && x % 2 == r % 2;
      assert mask / 2 == Pow2(m - 1) - 1 && mask % 2 == 1;
      AndLowMask(q, r / 2, m - 1);
      assert BitAnd(x / 2, mask / 2) == r / 2;
      BitAndStep(x, mask);
    } else if m == 0 {
      assert BitAnd(Pow2(m) * q + r, 0) == 0;
    }
  }

  /** Masking with a multiple of 2^m drops the remainder below 2^m. */
  lemma {:induction false} AndHighMask(q: nat, r: nat, c: nat, m: nat)
    requires r < Pow2(m)
    ensures BitAnd(Pow2(m) * q + r, Pow2(m) * c) == Pow2(m) * BitAnd(q, c)
    decreases m
  {
    if m == 0 {
    } else {
      var t := Pow2(m - 1) * q;
      var u := Pow2(m - 1) * c;
      assert Pow2(m) * q == 2 * t;
      assert Pow2(m) * c == 2 * u;
      assert Pow2(m) * BitAnd(q, c) == 2 * (Pow2(m - 1) * BitAnd(q, c));
      AndHighMask(q, r / 2, c, m - 1);
    }
  }

  /** BitConverter.ToUInt16: the little-endian 16-bit value at `i`. */
  function LeUInt16(b: seq<byte>, i: nat): (r: uint16)
    requires i + 2 <= |b|
  {
    b[i] as int + 0x100 * b[i + 1] as int
  }

  /** BitConverter.ToInt16: the little-endian 16-bit value at `i`, read as signed. */
  function LeInt16(b: seq<byte>, i: nat): (r: int16)
    requires i + 2 <= |b|
  {
    Wrap16(LeUInt16(b, i))
  }

  /** The little-endian 32-bit value at `i`, read as unsigned. */
  function LeUInt32(b: seq<byte>, i: nat): (r: uint32)
    requires i + 4 <= |b|
  {
    b[i] as int + 0x100 * b[i + 1] as int + 0x1_0000 * b[i + 2] as int + 0x100_0000 * b[i + 3] as int
  }

  /** BitConverter.ToInt32: the little-endian 32-bit value at `i`, read as signed. */
  function LeInt32(b: seq<byte>, i: nat): (r: int32)
    requires i + 4 <= |b|
  {
    Wrap32(LeUInt32(b, i))
  }

  /** An unsigned 16-bit value as its two bytes, low byte first. */
  lemma Split16(u: uint16)
    ensures u == u % 0x100 + 0x100 * (u / 0x100) && u / 0x100 < 0x100
  {
  }

  /** An unsigned 32-bit value as its four bytes, low byte first. */
  lemma {:induction false} Split32(u: uint32)
    ensures u == u % 0x100 + 0x100 * ((u / 0x100) % 0x100)
               + 0x1_0000 * ((u / 0x1_0000) % 0x100) + 0x100_0000 * (u / 0x100_0000)
    ensures u / 0x100_0000 < 0x100
  {
    var q1 := u / 0x100;
    var q2 := q1 / 0x100;
    var q3 := q2 / 0x100;
    assert u == u % 0x100 + 0x100 * q1;
    assert q1 == q1 % 0x100 + 0x100 * q2;
    assert q2 == q2 % 0x100 + 0x100 * q3;
    assert q2 == u / 0x1_0000;
    assert q3 == u / 0x100_0000;
  }

  /** BitConverter.GetBytes for a 16-bit value: its two bytes, low byte first. */
  function LeBytes16(x: int16): (r: seq<byte>)
    ensures |r| == 2
  {
    var u := x % 0x1_0000;
    Split16(u);
    [u % 0x100, u / 0x100]
  }

  /** BitConverter.GetBytes for a 32-bit value: its four bytes, low byte first. */
  function LeBytes32(x: int32): (r: seq<byte>)
    ensures |r| == 4
  {
    var u := x % 0x1_0000_0000;
    Split32(u);
    [u % 0x100, (u / 0x100) % 0x100, (u / 0x1_0000) % 0x100, u / 0x100_0000]
  }

  /** Reading back the bytes written for a value gives the value. */
  lemma LeInt16OfBytes(x: int16)
    ensures LeInt16(LeBytes16(x), 0) == x
  {
    Split16(x % 0x1_0000);
  }

  lemma LeInt32OfBytes(x: int32)
    ensures LeInt32(LeBytes32(x), 0) == x
  {
    var u := x % 0x1_0000_0000;
    Split32(u);
    assert LeUInt32(LeBytes32(x), 0) == u;
    if x >= 0 {
      assert u == x;
    } else {
      assert u == x + 0x1_0000_0000;
    }
  }

  /** The bytes are recovered from the little-endian value read from them. */
  lemma {:induction false} LeBytes16Of(b: seq<byte>, i: nat)
    requires i + 2 <= |b|
    ensures LeBytes16(LeInt16(b, i)) == b[i .. i + 2]
  {
    var u := LeUInt16(b, i);
    assert LeInt16(b, i) % 0x1_0000 == u;
  }

  lemma {:induction false} LeBytes32Of(b: seq<byte>, i: nat)
    requires i + 4 <= |b|
    ensures LeBytes32(LeInt32(b, i)) == b[i .. i + 4]
  {
    var b0, b1, b2, b3 := b[i] as int, b[i + 1] as int, b[i + 2] as int, b[i + 3] as int;
    var u := LeUInt32(b, i);
    assert u == b0 + 0x100 * (b1 + 0x100 * (b2 + 0x100 * b3));
    assert LeInt32(b, i) % 0x1_0000_0000 == u;
    assert u % 0x100 == b0 && u / 0x100 == b1 + 0x100 * (b2 + 0x100 * b3);
    assert u / 0x1_0000 == (u / 0x100) / 0x100 == b2 + 0x100 * b3;
    assert u / 0x100_0000 == (u / 0x1_0000) / 0x100 == b3;
  }

  /** The exceptions the modelled code raises, by .NET class. */
  datatype Exc =
    | ArgumentNull
    | ArgumentOutOfRange
    | Argument
    | InvalidOperation
    | ObjectDisposed
    | NotSupported
    | IOError
    | Overflow
    | KeyNotFound
    | IndexOutOfRange
    | NullReference
    | InvalidDataContract
    | TimeZoneNotFound
    | FileNotFound
    | DirectoryNotFound
    | UnauthorizedAccess
    | PathTooLong
    | DriveNotFound
    | OperationCanceled

  datatype Option<+T> = None | Some(value: T)

  /** The value of a call that returns normally, or the exception it throws. */
  datatype Result<+T> = Ok(value: T) | Err(error: Exc) {
    predicate IsFailure() { Err? }
    function PropagateFailure<U>(): Result<U>
      requires Err?
    {
      Err(error)
    }
    function Extract(): T
      requires Ok?
    {
      value
    }
  }

  /**
   * The argument validation shared by every (array, index, count) API of the
   * library: a missing array, then a negative index or count, then a range that
   * runs past the end of the array.
   */
  function RangeArgsError(present: bool, length: int, index: int, count: int): (e: Option<Exc>)
    ensures e.None? <==> present && 0 <= index && 0 <= count && index + count <= length
    ensures !present ==> e == Some(ArgumentNull)
    ensures present && (index < 0 || count < 0) ==> e == Some(ArgumentOutOfRange)
    ensures present && 0 <= index && 0 <= count && length - index < count ==> e == Some(Argument)
  {
    if !present then Some(ArgumentNull)
    else if index < 0 then Some(ArgumentOutOfRange)
    else if count < 0 then Some(ArgumentOutOfRange)
    else if length - index < count then Some(Argument)
    else None
  }

  /** A sequence of bytes with `src` written over it at position `at`. */
  function Splice(s: seq<byte>, at: nat, src: seq<byte>): (r: seq<byte>)
    requires at + |src| <= |s|
    ensures |r| == |s|
    ensures forall i :: 0 <= i < |s| ==> r[i] == if at <= i < at + |src| then src[i - at] else s[i]
  {
    s[..at] + src + s[at + |src|..]
  }

  /** A sequence of bytes with positions [from, to) set to zero. */
  function ZeroFill(s: seq<byte>, from: nat, to: nat): (r: seq<byte>)
    requires from <= to <= |s|
    ensures |r| == |s|
    ensures forall i :: 0 <= i < |s| ==> r[i] == if from <= i < to then 0 else s[i]
  {
    s[..from] + seq(to - from, _ => 0) + s[to..]
  }

  /** Upper-casing of the ASCII letters. */
  function ToUpperAscii(c: char): char
  {
    if 'a' <= c <= 'z' then (c as int - 32) as char else c
  }

  /** Equality of strings ignoring case, for ASCII case. */
  predicate EqualsIgnoreCase(a: string, b: string)
  {
    |a| == |b| && forall i :: 0 <= i < |a| ==> ToUpperAscii(a[i]) == ToUpperAscii(b[i])
  }
}
