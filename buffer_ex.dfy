/*******************************************************************************
 *  BufferEx: the byte-copy and byte-clear primitives under the unmanaged
 *  memory stream.
 *
 *  A raw pointer is modelled as an array together with an index into it; two
 *  pointers can only overlap when they index the same array.  The native
 *  memmove is modelled by its contract: the destination receives the bytes the
 *  source held before the call, whether or not the two ranges overlap.
 *******************************************************************************/

module BufferEx {
  import opened Common

  /** The platforms whose CopyThreshold differs. */
  datatype Platform = Amd64OrX86 | Arm64Windows | Arm64Unix | OtherArchitecture

  /** Copies longer than this go to the native memmove. */
  function CopyThreshold(p: Platform): nat
  {
    match p
    case Amd64OrX86 => 2048
    case Arm64Windows => 2048
    case Arm64Unix => UInt64Max
    case OtherArchitecture => 512
  }

  /** Two ranges of `len` bytes that share no byte. */
  predicate Disjoint(dest: array<byte>, d: nat, src: array<byte>, s: nat, len: nat)
  {
    dest != src || d + len <= s || s + len <= d
  }

  /** The native memmove: `dest[d..d+len)` receives the old `src[s..s+len)`. */
  method NativeMemmove(dest: array<byte>, d: nat, src: array<byte>, s: nat, len: nat)
    requires d + len <= dest.Length && s + len <= src.Length
    modifies dest
    ensures dest[..] == Splice(old(dest[..]), d, old(src[s .. s + len]))
  {
    var saved := src[s .. s + len];
    forall i | 0 <= i < len {
      dest[d + i] := saved[i];
    }
  }

  /**
   * Memcpy(byte[] dest, destIndex, byte* src, srcIndex, len): a copy into a
   * managed array from the pointer `src` + `srcAt`; nothing for a zero-length
   * copy, the native memmove otherwise.
   */
  method MemcpyToArray(dest: array<byte>, destIndex: int32, src: array<byte>, srcAt: nat, srcIndex: int32, len: int32)
    requires 0 <= destIndex && 0 <= srcIndex && 0 <= len
    requires dest.Length - destIndex >= len && srcAt + srcIndex + len <= src.Length
    modifies dest
    ensures dest[..] == Splice(old(dest[..]), destIndex, old(src[srcAt + srcIndex .. srcAt + srcIndex + len]))
  {
    if len == 0 {
      return;
    }
    NativeMemmove(dest, destIndex, src, srcAt + srcIndex, len);
  }

  /**
   * Memcpy(byte* dest, destIndex, byte[] src, srcIndex, len): a copy from a
   * managed array to the pointer `dest` + `destAt`.
   */
  method MemcpyFromArray(dest: array<byte>, destAt: nat, destIndex: int32, src: array<byte>, srcIndex: int32, len: int32)
    requires 0 <= destIndex && 0 <= srcIndex && 0 <= len
    requires src.Length - srcIndex >= len && destAt + destIndex + len <= dest.Length
    modifies dest
    ensures dest[..] == Splice(old(dest[..]), destAt + destIndex, old(src[srcIndex .. srcIndex + len]))
  {
    if len == 0 {
      return;
    }
    NativeMemmove(dest, destAt + destIndex, src, srcIndex, len);
  }

  /**
   * One unaligned block load and store of `w` bytes (a byte, short, int, long,
   * 16- or 64-byte block), at `k` bytes into a copy of disjoint ranges.
   */
  method CopyBlock(dest: array<byte>, d: nat, src: array<byte>, s: nat, len: nat, k: nat, w: nat)
    requires k + w <= len
    requires d + len <= dest.Length && s + len <= src.Length
    requires Disjoint(dest, d, src, s, len)
    modifies dest
    ensures forall i :: 0 <= i < dest.Length ==>
      dest[i] == if d + k <= i < d + k + w then old(src[s + (i - d)]) else old(dest[i])
    ensures src[s .. s + len] == old(src[s .. s + len])
  {
    var block := src[s + k .. s + k + w];
    forall i | 0 <= i < w {
      dest[d + k + i] := block[i];
    }
  }

  /** (len & mask) != 0 for the three masks the copy dispatch tests, on the lengths where it tests them. */
  lemma LowBits(len: nat)
    requires len <= 16
    ensures ((len as bv32) & 24 != 0) <==> len >= 8
    ensures len < 8 ==> (((len as bv32) & 4 != 0) <==> len >= 4)
    ensures len < 4 ==> (((len as bv32) & 2 != 0) <==> len >= 2)
  {
    if len == 0 {} else if len == 1 {} else if len == 2 {} else if len == 3 {}
    else if len == 4 {} else if len == 5 {} else if len == 6 {} else if len == 7 {}
    else if len == 8 {} else if len == 9 {} else if len == 10 {} else if len == 11 {}
    else if len == 12 {} else if len == 13 {} else if len == 14 {} else if len == 15 {}
    else {}
  }

  /**
   * MCPY00/MCPY01: a copy of 16 < len <= 64 bytes at `k` into the range, as up
   * to three 16-byte blocks from the front and one 16-byte block ending at the
   * end of the range.
   */
  method Copy17To64(dest: array<byte>, d: nat, src: array<byte>, s: nat, len: nat, k: nat)
    requires 16 < len - k <= 64 && k <= len
    requires d + len <= dest.Length && s + len <= src.Length
    requires Disjoint(dest, d, src, s, len)
    modifies dest
    ensures forall i :: 0 <= i < dest.Length ==>
      dest[i] == if d + k <= i < d + len then old(src[s + (i - d)]) else old(dest[i])
    ensures src[s .. s + len] == old(src[s .. s + len])
  {
    var rest := len - k;
    CopyBlock(dest, d, src, s, len, k, 16);
    if rest > 32 {
      CopyBlock(dest, d, src, s, len, k + 16, 16);
      if rest > 48 {
        CopyBlock(dest, d, src, s, len, k + 32, 16);
      }
    }
    CopyBlock(dest, d, src, s, len, len - 16, 16);
  }

  /**
   * The copy of 0 <= len <= 16 disjoint bytes: two overlapping 8-byte or 4-byte
   * blocks, or a byte followed by a 2-byte block ending at the end.
   */
  method CopyUpTo16(dest: array<byte>, d: nat, src: array<byte>, s: nat, len: nat)
    requires len <= 16
    requires d + len <= dest.Length && s + len <= src.Length
    requires Disjoint(dest, d, src, s, len)
    modifies dest
    ensures forall i :: 0 <= i < dest.Length ==>
      dest[i] == if d <= i < d + len then old(src[s + (i - d)]) else old(dest[i])
  {
    LowBits(len);
    var bits := len as bv32;
    if bits & 24 != 0 {
      CopyBlock(dest, d, src, s, len, 0, 8);
      CopyBlock(dest, d, src, s, len, len - 8, 8);
    } else if bits & 4 != 0 {
      CopyBlock(dest, d, src, s, len, 0, 4);
      CopyBlock(dest, d, src, s, len, len - 4, 4);
    } else if len != 0 {
      CopyBlock(dest, d, src, s, len, 0, 1);
      if bits & 2 != 0 {
        CopyBlock(dest, d, src, s, len, len - 2, 2);
      }
    }
  }

  /**
   * The copy of more than 64 disjoint bytes: 64-byte blocks, then the tail as
   * a 17..64-byte copy or one 16-byte block ending at the end.
   */
  method CopyOver64(dest: array<byte>, d: nat, src: array<byte>, s: nat, len: nat)
    requires 64 < len
    requires d + len <= dest.Length && s + len <= src.Length
    requires Disjoint(dest, d, src, s, len)
    modifies dest
    ensures forall i :: 0 <= i < dest.Length ==>
      dest[i] == if d <= i < d + len then old(src[s + (i - d)]) else old(dest[i])
  {
    ghost var was := dest[..];
    ghost var from := src[s .. s + len];
    var n := len / 64;
    var k := 0;
    while k < n
      invariant 0 <= k <= n
      invariant src[s .. s + len] == from
      invariant forall i :: 0 <= i < dest.Length ==>
        dest[i] == if d <= i < d + 64 * k then from[i - d] else was[i]
    {
      CopyBlock(dest, d, src, s, len, 64 * k, 64);
      k := k + 1;
    }
    var rest := len % 64;
    if rest > 16 {
      Copy17To64(dest, d, src, s, len, 64 * n);
    } else {
      CopyBlock(dest, d, src, s, len, len - 16, 16);
    }
  }

  /**
   * Memmove(dest, src, len). Overlapping ranges and copies longer than the
   * platform's threshold go to the native memmove; every other length is
   * copied by the block sequence chosen from the bits of `len`.
   */
  method Memmove(dest: array<byte>, d: nat, src: array<byte>, s: nat, len: uint32, platform: Platform)
    requires d + len <= dest.Length && s + len <= src.Length
    modifies dest
    ensures dest[..] == Splice(old(dest[..]), d, old(src[s .. s + len]))
  {
    if !Disjoint(dest, d, src, s, len) || len > CopyThreshold(platform) {
      NativeMemmove(dest, d, src, s, len);
      return;
    }
    ghost var was := dest[..];
    ghost var from := src[s .. s + len];
    if len <= 16 {
      CopyUpTo16(dest, d, src, s, len);
    } else if len <= 64 {
      Copy17To64(dest, d, src, s, len, 0);
    } else {
      CopyOver64(dest, d, src, s, len);
    }
    assert forall i :: 0 <= i < dest.Length ==>
      dest[i] == if d <= i < d + len then from[i - d] else was[i];
    assert dest[..] == Splice(was, d, from);
  }

  /**
   * ZeroMemory(src, len): clears the `len` bytes from `at`, last byte first;
   * a non-positive length clears nothing.
   */
  method ZeroMemory(a: array<byte>, at: nat, len: int64)
    requires at <= a.Length
    requires len > 0 ==> at + len <= a.Length
    modifies a
    ensures a[..] == ZeroFill(old(a[..]), at, if len > 0 then at + len else at)
  {
    var k := len;
    while k > 0
      invariant len <= 0 ==> k == len
      invariant len > 0 ==> 0 <= k <= len
      invariant forall i :: 0 <= i < a.Length ==>
        a[i] == if at + k <= i < at + len then 0 else old(a[i])
    {
      k := k - 1;
      a[at + k] := 0;
    }
    assert a[..] == ZeroFill(old(a[..]), at, if len > 0 then at + len else at);
  }
}
