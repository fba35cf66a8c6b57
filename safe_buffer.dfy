/*******************************************************************************
 *  SafeBuffer: a handle to a block of unmanaged memory whose size is set once
 *  by Initialize, with bounds-checked reads and writes of marshalled values.
 *
 *  A value of type T is represented by its marshalled image, a sequence of
 *  SizeOf(T) bytes; an element of an array of T occupies AlignedSizeOf(T)
 *  bytes, of which the first SizeOf(T) hold the image.
 *******************************************************************************/

module SafeBuffers {
  import opened Common

  /** The number of distinct addresses: 2^32 in a 32-bit process, 2^64 in a 64-bit one. */
  function PointerSpan(is64: bool): nat
  {
    if is64 then 0x1_0000_0000_0000_0000 else 0x1_0000_0000
  }

  /** UIntPtr.MaxValue, which a SafeBuffer uses to mean "size not yet set". */
  function Uninitialized(is64: bool): nat
  {
    PointerSpan(is64) - 1
  }

  /** The exception Initialize(numBytes) throws, if any. */
  function InitializeError(is64: bool, numBytes: uint64): (e: Option<Exc>)
    ensures e.None? <==> numBytes < Uninitialized(is64)
    ensures e.Some? ==> e.value == ArgumentOutOfRange
    ensures !is64 && numBytes > UInt32Max ==> e.Some?
  {
    if !is64 && numBytes > UInt32Max then Some(ArgumentOutOfRange)
    else if numBytes >= Uninitialized(is64) then Some(ArgumentOutOfRange)
    else None
  }

  /**
   * What Initialize(numElements, sizeOfEachElement) does: the product is taken
   * in unchecked 32-bit arithmetic by the two range tests and in checked
   * arithmetic by the final conversion.
   */
  function InitializeElementsOutcome(is64: bool, numElements: uint32, sizeOfEachElement: uint32): Result<int>
  {
    var product := numElements * sizeOfEachElement;
    var wrapped := product % 0x1_0000_0000;
    if !is64 && wrapped > UInt32Max then Err(ArgumentOutOfRange)
    else if wrapped >= Uninitialized(is64) then Err(ArgumentOutOfRange)
    else if product > UInt32Max then Err(Overflow)
    else Ok(product)
  }

  /**
   * Initialize(numElements, size) sets the size to the product when the product
   * fits in 32 bits (and, in a 32-bit process, is not the sentinel); any larger
   * product fails, with OverflowException unless its low 32 bits are the
   * 32-bit sentinel.
   */
  lemma InitializeElementsSpec(is64: bool, numElements: uint32, size: uint32)
    ensures var r := InitializeElementsOutcome(is64, numElements, size);
      && (r.Ok? <==> numElements * size < (if is64 then 0x1_0000_0000 else UInt32Max))
      && (r.Ok? ==> r.value == numElements * size)
      && (numElements * size > UInt32Max && (is64 || (numElements * size) % 0x1_0000_0000 != UInt32Max)
          ==> r == Err(Overflow))
  {
  }

  /**
   * In a 32-bit process the address-space test on the unchecked product never
   * fires, because a 32-bit product cannot exceed UInt32.MaxValue.
   */
  lemma AddressSpaceTestIsDead(numElements: uint32, size: uint32)
    ensures !((numElements * size) % 0x1_0000_0000 > UInt32Max)
  {
  }

  /**
   * `(ulong)(ptr - (byte*)handle)` for `ptr = (byte*)handle + byteOffset`, the
   * offset SpaceCheck tests and the access uses.  In a 64-bit process it is
   * `byteOffset`.  In a 32-bit one the pointer add keeps the low 32 bits of
   * `byteOffset`, and the pointer difference, a 32-bit signed value widened
   * to long, turns a low part of 2^31 or more into a value near 2^64.
   */
  function PointerOffset(is64: bool, byteOffset: uint64): (r: nat)
    ensures r < 0x1_0000_0000_0000_0000
    ensures is64 ==> r == byteOffset
    ensures !is64 ==> r % 0x1_0000_0000 == byteOffset % 0x1_0000_0000
  {
    if is64 then byteOffset
    else
      var low := byteOffset % 0x1_0000_0000;
      if low < 0x8000_0000 then low else low + 0x1_0000_0000_0000_0000 - 0x1_0000_0000
  }

  /**
   * In a 32-bit process an access of `size` bytes passes SpaceCheck exactly
   * when the low 32 bits of the offset are below 2^31 and the access ends
   * within the buffer counted from them; the offset used is those low bits.
   */
  lemma PointerOffset32(byteOffset: uint64, size: nat, numBytes: nat)
    requires numBytes < 0x1_0000_0000
    ensures var low := byteOffset % 0x1_0000_0000;
      && (SpaceCheck(numBytes, PointerOffset(false, byteOffset), size).None? <==> low < 0x8000_0000 && low + size <= numBytes)
      && (SpaceCheck(numBytes, PointerOffset(false, byteOffset), size).None? ==> PointerOffset(false, byteOffset) == low)
  {
  }

  /** In a 32-bit process an offset of 2^32 reaches the first byte of the buffer. */
  lemma OffsetWrapsIn32Bit()
    ensures PointerOffset(false, 0x1_0000_0000) == 0
    ensures SpaceCheck(16, PointerOffset(false, 0x1_0000_0000), 4).None?
    ensures PointerOffset(true, 0x1_0000_0000) == 0x1_0000_0000
    ensures SpaceCheck(16, PointerOffset(true, 0x1_0000_0000), 4).Some?
  {
  }

  /** SpaceCheck: an access of `size` bytes at `off` bytes past the handle fits in `numBytes`. */
  function SpaceCheck(numBytes: nat, off: nat, size: nat): (e: Option<Exc>)
    ensures e.None? <==> off + size <= numBytes
    ensures e.Some? ==> e.value == Argument
  {
    if numBytes < size then Some(Argument)
    else if off > numBytes - size then Some(Argument)
    else None
  }

  /**
   * AlignedSizeOf<T>: the raw size for 1- and 2-byte types and for 4-byte types
   * in a 64-bit process; otherwise the runtime's aligned size, here the input
   * `runtimeAligned`.
   */
  function AlignedSizeOf(is64: bool, size: uint32, runtimeAligned: uint32): (r: uint32)
    ensures size == 1 || size == 2 ==> r == size
    ensures is64 && size == 4 ==> r == size
    ensures !(size == 1 || size == 2 || (is64 && size == 4)) ==> r == runtimeAligned
  {
    if size == 1 || size == 2 then size
    else if is64 && size == 4 then size
    else runtimeAligned
  }

  /**
   * The address of slot `i` of an array stored from `off`, one slot per
   * `stride` bytes: the start, advanced one stride per earlier slot.
   */
  function Slot(off: nat, stride: nat, i: nat): (r: nat)
    ensures off <= r
  {
    if i == 0 then off else Slot(off, stride, i - 1) + stride
  }

  /** Slot `i` is `i` strides past the start, as the source computes it. */
  lemma {:induction false} SlotIsProduct(off: nat, stride: nat, i: nat)
    ensures Slot(off, stride, i) == off + stride * i
  {
    if i > 0 {
      SlotIsProduct(off, stride, i - 1);
      assert stride * (i - 1) + stride == stride * i;
    }
  }

  /** A later slot starts at least one stride past an earlier one. */
  lemma {:induction false} SlotOrder(off: nat, stride: nat, i: nat, k: nat)
    requires i < k
    ensures Slot(off, stride, i) + stride <= Slot(off, stride, k)
    decreases k
  {
    if i + 1 < k {
      SlotOrder(off, stride, i, k - 1);
    }
  }

  /** The bytes of element `i` of an array stored from `off` with the given stride. */
  function ElementAt(m: seq<byte>, off: nat, stride: nat, size: nat, i: nat): (r: seq<byte>)
    requires size <= stride
    requires Slot(off, stride, i + 1) <= |m|
    ensures |r| == size
    ensures forall j :: 0 <= j < size ==> r[j] == m[Slot(off, stride, i) + j]
  {
    m[Slot(off, stride, i) .. Slot(off, stride, i) + size]
  }

  /** Product monotonicity, for the size checks written with a multiplication. */
  lemma MulMono(c: nat, a: nat, b: nat)
    requires a <= b
    ensures c * a <= c * b
  {
  }

  /** The memory `m` after the images `elems` are stored from `off`, one per `stride` bytes. */
  function Scatter(m: seq<byte>, off: nat, elems: seq<seq<byte>>, stride: nat): (r: seq<byte>)
    requires forall k :: 0 <= k < |elems| ==> |elems[k]| <= stride
    requires Slot(off, stride, |elems|) <= |m|
    ensures |r| == |m|
    decreases |elems|
  {
    if elems == [] then m
    else
      var n := |elems| - 1;
      Splice(Scatter(m, off, elems[..n], stride), Slot(off, stride, n), elems[n])
  }

  /** Element `i` of a scattered array reads back from its slot. */
  lemma {:induction false} ScatterAt(m: seq<byte>, off: nat, elems: seq<seq<byte>>, stride: nat, i: nat, j: nat)
    requires forall k :: 0 <= k < |elems| ==> |elems[k]| <= stride
    requires Slot(off, stride, |elems|) <= |m|
    requires i < |elems| && j < |elems[i]|
    ensures Slot(off, stride, i) + j < |m|
    ensures Scatter(m, off, elems, stride)[Slot(off, stride, i) + j] == elems[i][j]
    decreases |elems|
  {
    var n := |elems| - 1;
    var at := Slot(off, stride, n);
    var p := Slot(off, stride, i) + j;
    var inner := Scatter(m, off, elems[..n], stride);
    assert Scatter(m, off, elems, stride) == Splice(inner, at, elems[n]);
    if i < n {
      SlotOrder(off, stride, i, n);
      ScatterAt(m, off, elems[..n], stride, i, j);
      assert inner[p] == elems[i][j];
    } else {
      assert p - at == j;
    }
  }

  /** A byte before `off` or past the last slot keeps its value. */
  lemma {:induction false} ScatterOutside(m: seq<byte>, off: nat, elems: seq<seq<byte>>, stride: nat, p: nat)
    requires forall k :: 0 <= k < |elems| ==> |elems[k]| <= stride
    requires Slot(off, stride, |elems|) <= |m|
    requires p < |m|
    requires p < off || p >= Slot(off, stride, |elems|)
    ensures Scatter(m, off, elems, stride)[p] == m[p]
    decreases |elems|
  {
    if elems != [] {
      var n := |elems| - 1;
      var inner := Scatter(m, off, elems[..n], stride);
      assert Scatter(m, off, elems, stride) == Splice(inner, Slot(off, stride, n), elems[n]);
      ScatterOutside(m, off, elems[..n], stride, p);
    }
  }

  /** A padding byte of a slot (past the element's image, before the next slot) keeps its value. */
  lemma {:induction false} ScatterPadding(m: seq<byte>, off: nat, elems: seq<seq<byte>>, stride: nat, i: nat, j: nat)
    requires forall k :: 0 <= k < |elems| ==> |elems[k]| <= stride
    requires Slot(off, stride, |elems|) <= |m|
    requires i < |elems| && |elems[i]| <= j < stride
    ensures Slot(off, stride, i) + j < |m|
    ensures Scatter(m, off, elems, stride)[Slot(off, stride, i) + j] == m[Slot(off, stride, i) + j]
    decreases |elems|
  {
    var n := |elems| - 1;
    var p := Slot(off, stride, i) + j;
    var inner := Scatter(m, off, elems[..n], stride);
    assert Scatter(m, off, elems, stride) == Splice(inner, Slot(off, stride, n), elems[n]);
    if i < n {
      SlotOrder(off, stride, i, n);
      ScatterPadding(m, off, elems[..n], stride, i, j);
    } else {
      ScatterOutside(m, off, elems[..n], stride, p);
    }
  }

  /** Storing one more element extends a scatter by one splice. */
  lemma ScatterSnoc(m: seq<byte>, off: nat, elems: seq<seq<byte>>, stride: nat, i: nat)
    requires forall k :: 0 <= k < |elems| ==> |elems[k]| <= stride
    requires Slot(off, stride, |elems|) <= |m|
    requires i < |elems|
    ensures Slot(off, stride, i + 1) <= |m|
    ensures Scatter(m, off, elems[..i + 1], stride)
         == Splice(Scatter(m, off, elems[..i], stride), Slot(off, stride, i), elems[i])
  {
    if i + 1 < |elems| {
      SlotOrder(off, stride, i + 1, |elems|);
    }
    assert elems[..i + 1][..i] == elems[..i];
  }

  /** The images of `n` elements loaded from `off`, one per `stride` bytes. */
  function Gather(m: seq<byte>, off: nat, stride: nat, size: nat, n: nat): (r: seq<seq<byte>>)
    requires size <= stride
    requires Slot(off, stride, n) <= |m|
    ensures |r| == n
    decreases n
  {
    if n == 0 then []
    else Gather(m, off, stride, size, n - 1) + [ElementAt(m, off, stride, size, n - 1)]
  }

  /** Element `i` of a gather is the image in slot `i`. */
  lemma {:induction false} GatherAt(m: seq<byte>, off: nat, stride: nat, size: nat, n: nat, i: nat)
    requires size <= stride
    requires Slot(off, stride, n) <= |m|
    requires i < n
    ensures Slot(off, stride, i + 1) <= |m|
    ensures Gather(m, off, stride, size, n)[i] == ElementAt(m, off, stride, size, i)
    decreases n
  {
    if i < n - 1 {
      SlotOrder(off, stride, i + 1, n);
      GatherAt(m, off, stride, size, n - 1, i);
    }
  }

  /**
   * ReadArray after WriteArray: loading the slots a scatter filled gives back
   * the images that were stored.
   */
  lemma GatherScatter(m: seq<byte>, off: nat, elems: seq<seq<byte>>, stride: nat, size: nat)
    requires forall k :: 0 <= k < |elems| ==> |elems[k]| == size
    requires size <= stride
    requires Slot(off, stride, |elems|) <= |m|
    ensures Gather(Scatter(m, off, elems, stride), off, stride, size, |elems|) == elems
  {
    var s := Scatter(m, off, elems, stride);
    var g := Gather(s, off, stride, size, |elems|);
    forall i | 0 <= i < |elems|
      ensures g[i] == elems[i]
    {
      GatherAt(s, off, stride, size, |elems|, i);
      forall j | 0 <= j < size
        ensures g[i][j] == elems[i][j]
      {
        ScatterAt(m, off, elems, stride, i, j);
      }
    }
  }

  class SafeBuffer {
    /** Whether the process is 64-bit (IntPtr.Size == 8). */
    const is64: bool
    /** The address the handle holds. */
    const handle: nat
    /** The memory the handle refers to. */
    const mem: array<byte>
    /** _numBytes: the declared size, or the Uninitialized sentinel. */
    var numBytes: nat
    /** The handle's reference count, as changed by DangerousAddRef/DangerousRelease. */
    ghost var refCount: int

    ghost predicate Valid()
      reads this
    {
      && handle + mem.Length <= PointerSpan(is64)
      && numBytes <= Uninitialized(is64)
      && (numBytes != Uninitialized(is64) ==> numBytes <= mem.Length)
    }

    predicate IsInitialized()
      reads this
    {
      numBytes != Uninitialized(is64)
    }

    /** A new SafeBuffer over `memory` at address `handle`, with no size set. */
    constructor (is64: bool, handle: nat, memory: array<byte>)
      requires handle + memory.Length <= PointerSpan(is64)
      ensures Valid() && !IsInitialized()
      ensures this.is64 == is64 && this.handle == handle && mem == memory
      ensures refCount == 0
    {
      this.is64 := is64;
      this.handle := handle;
      this.mem := memory;
      this.numBytes := Uninitialized(is64);
      this.refCount := 0;
    }

    /** ByteLength: the declared size; InvalidOperation before Initialize. */
    function ByteLength(): (r: Result<nat>)
      reads this
      ensures r.Ok? <==> IsInitialized()
      ensures r.Ok? ==> r.value == numBytes
      ensures r.Err? ==> r.error == InvalidOperation
    {
      if numBytes == Uninitialized(is64) then Err(InvalidOperation) else Ok(numBytes)
    }

    /**
     * Initialize(numBytes). The caller promises that the handle covers the
     * size it declares.
     */
    method Initialize(n: uint64) returns (r: Result<()>)
      requires Valid()
      requires InitializeError(is64, n).None? ==> n <= mem.Length
      modifies this`numBytes
      ensures Valid()
      ensures r.Ok? <==> n < Uninitialized(is64)
      ensures r.Ok? ==> numBytes == n && IsInitialized()
      ensures r.Err? ==> r.error == ArgumentOutOfRange && numBytes == old(numBytes)
    {
      var e := InitializeError(is64, n);
      if e.Some? {
        return Err(e.value);
      }
      numBytes := n;
      return Ok(());
    }

    /** Initialize(numElements, sizeOfEachElement), with the size checks as written. */
    method InitializeElements(numElements: uint32, sizeOfEachElement: uint32) returns (r: Result<()>)
      requires Valid()
      requires InitializeElementsOutcome(is64, numElements, sizeOfEachElement).Ok? ==> numElements * sizeOfEachElement <= mem.Length
      modifies this`numBytes
      ensures Valid()
      ensures r.Ok? <==> numElements * sizeOfEachElement < (if is64 then 0x1_0000_0000 else UInt32Max)
      ensures r.Ok? ==> numBytes == numElements * sizeOfEachElement && IsInitialized()
      ensures r.Err? ==> numBytes == old(numBytes)
      ensures r == Err(Overflow) || r.Ok? || r == Err(ArgumentOutOfRange)
    {
      InitializeElementsSpec(is64, numElements, sizeOfEachElement);
      var outcome := InitializeElementsOutcome(is64, numElements, sizeOfEachElement);
      if outcome.Err? {
        return Err(outcome.error);
      }
      numBytes := outcome.value;
      return Ok(());
    }

    /** AcquirePointer: takes one reference on the handle and yields its address. */
    method AcquirePointer() returns (r: Result<nat>)
      modifies this`refCount
      ensures r.Ok? <==> IsInitialized()
      ensures r.Ok? ==> r.value == handle && refCount == old(refCount) + 1
      ensures r.Err? ==> r.error == InvalidOperation && refCount == old(refCount)
    {
      if numBytes == Uninitialized(is64) {
        return Err(InvalidOperation);
      }
      refCount := refCount + 1;
      return Ok(handle);
    }

    /** ReleasePointer: gives back one reference. */
    method ReleasePointer() returns (r: Result<()>)
      modifies this`refCount
      ensures r.Ok? <==> IsInitialized()
      ensures r.Ok? ==> refCount == old(refCount) - 1
      ensures r.Err? ==> r.error == InvalidOperation && refCount == old(refCount)
    {
      if numBytes == Uninitialized(is64) {
        return Err(InvalidOperation);
      }
      refCount := refCount - 1;
      return Ok(());
    }

    /** Stores `image` at `at` in the handle's memory: the copy step of Write and WriteArray. */
    method CopyIn(at: nat, image: seq<byte>)
      requires at + |image| <= mem.Length
      modifies mem
      ensures mem[..] == Splice(old(mem[..]), at, image)
    {
      forall j | 0 <= j < |image| {
        mem[at + j] := image[j];
      }
    }

    /** Stores image `i` of `images` into its slot, extending the scatter of the images before it. */
    method ScatterStep(ghost m: seq<byte>, off: nat, images: seq<seq<byte>>, stride: nat, i: nat)
      requires forall k :: 0 <= k < |images| ==> |images[k]| <= stride
      requires i < |images|
      requires Slot(off, stride, i + 1) <= |m| == mem.Length
      requires mem[..] == Scatter(m, off, images[..i], stride)
      modifies mem
      ensures mem[..] == Scatter(m, off, images[..i + 1], stride)
    {
      SlotIsProduct(off, stride, i);
      var at := off + stride * i;
      assert images[..i + 1][..i] == images[..i];
      CopyIn(at, images[i]);
    }

    /** Stores `images` from `off`, one per `stride` bytes, first to last: the loop of WriteArray. */
    method ScatterIn(off: nat, images: seq<seq<byte>>, stride: nat)
      requires forall k :: 0 <= k < |images| ==> |images[k]| <= stride
      requires Slot(off, stride, |images|) <= mem.Length
      modifies mem
      ensures mem[..] == Scatter(old(mem[..]), off, images, stride)
    {
      ghost var m := mem[..];
      var i := 0;
      while i < |images|
        invariant 0 <= i <= |images|
        invariant Slot(off, stride, i) <= mem.Length
        invariant mem[..] == Scatter(m, off, images[..i], stride)
      {
        if i + 1 < |images| {
          SlotOrder(off, stride, i + 1, |images|);
        }
        ScatterStep(m, off, images, stride, i);
        i := i + 1;
      }
      assert images[..i] == images;
    }

    /** Write<T>(byteOffset, value): stores the image of `value` at PointerOffset(byteOffset). */
    method Write(byteOffset: uint64, value: seq<byte>) returns (r: Result<()>)
      requires Valid()
      requires |value| <= UInt32Max
      modifies this`refCount, mem
      ensures Valid() && refCount == old(refCount)
      ensures !old(IsInitialized()) ==> r == Err(InvalidOperation)
      ensures old(IsInitialized()) ==> (r.Ok? <==> PointerOffset(is64, byteOffset) + |value| <= numBytes)
      ensures r.Err? ==> mem[..] == old(mem[..])
      ensures r.Err? && old(IsInitialized()) ==> r.error == Argument
      ensures r.Ok? ==> mem[..] == Splice(old(mem[..]), PointerOffset(is64, byteOffset), value)
    {
      if numBytes == Uninitialized(is64) {
        return Err(InvalidOperation);
      }
      var off := PointerOffset(is64, byteOffset);
      var e := SpaceCheck(numBytes, off, |value|);
      if e.Some? {
        return Err(e.value);
      }
      refCount := refCount + 1;
      CopyIn(off, value);
      refCount := refCount - 1;
      return Ok(());
    }

    /** Read<T>(byteOffset): the image of the value stored at PointerOffset(byteOffset). */
    method Read(byteOffset: uint64, sizeofT: uint32) returns (r: Result<seq<byte>>)
      requires Valid()
      modifies this`refCount
      ensures Valid() && refCount == old(refCount)
      ensures !IsInitialized() ==> r == Err(InvalidOperation)
      ensures IsInitialized() ==> (r.Ok? <==> PointerOffset(is64, byteOffset) + sizeofT <= numBytes)
      ensures r.Err? && IsInitialized() ==> r.error == Argument
      ensures r.Ok? ==> var off := PointerOffset(is64, byteOffset);
        |r.value| == sizeofT && r.value == mem[off .. off + sizeofT]
    {
      if numBytes == Uninitialized(is64) {
        return Err(InvalidOperation);
      }
      var off := PointerOffset(is64, byteOffset);
      var e := SpaceCheck(numBytes, off, sizeofT);
      if e.Some? {
        return Err(e.value);
      }
      refCount := refCount + 1;
      var value := mem[off .. off + sizeofT];
      refCount := refCount - 1;
      return Ok(value);
    }

    /**
     * WriteArray<T>(byteOffset, array, index, count): stores the images of
     * array[index .. index + count) from PointerOffset(byteOffset), one per
     * aligned slot.
     */
    method WriteArray(byteOffset: uint64, elems: array?<seq<byte>>, index: int32, count: int32,
                      sizeofT: uint32, alignedSizeofT: uint32) returns (r: Result<()>)
      requires Valid()
      requires 1 <= sizeofT <= alignedSizeofT
      requires elems != null ==> forall k :: 0 <= k < elems.Length ==> |elems[k]| == sizeofT
      modifies this`refCount, mem
      ensures Valid() && refCount == old(refCount)
      ensures RangeArgsError(elems != null, if elems == null then 0 else elems.Length, index, count).Some? ==>
        r == Err(RangeArgsError(elems != null, if elems == null then 0 else elems.Length, index, count).value)
      ensures RangeArgsError(elems != null, if elems == null then 0 else elems.Length, index, count).None? ==>
        && (!IsInitialized() ==> r == Err(InvalidOperation))
        && (IsInitialized() ==> (r.Ok? <==> PointerOffset(is64, byteOffset) + alignedSizeofT * count <= numBytes))
        && (IsInitialized() && r.Err? ==> r.error == Argument)
      ensures r.Err? ==> mem[..] == old(mem[..])
      ensures r.Ok? ==> (elems != null && 0 <= index && 0 <= count && index + count <= elems.Length
        && Slot(PointerOffset(is64, byteOffset), alignedSizeofT, count) <= mem.Length
        && mem[..] == Scatter(old(mem[..]), PointerOffset(is64, byteOffset), elems[index .. index + count], alignedSizeofT))
    {
      var e := RangeArgsError(elems != null, if elems == null then 0 else elems.Length, index, count);
      if e.Some? {
        return Err(e.value);
      }
      if numBytes == Uninitialized(is64) {
        return Err(InvalidOperation);
      }
      var off := PointerOffset(is64, byteOffset);
      var space := SpaceCheck(numBytes, off, alignedSizeofT * count);
      if space.Some? {
        return Err(space.value);
      }
      SlotIsProduct(off, alignedSizeofT, count);
      refCount := refCount + 1;
      ScatterIn(off, elems[index .. index + count], alignedSizeofT);
      refCount := refCount - 1;
      return Ok(());
    }

    /** Loads slot `i` of `m`, the buffer's bytes, into dest[index + i], extending the gather of the slots before it. */
    method GatherStep(ghost m: seq<byte>, ghost was: seq<seq<byte>>, off: nat, stride: nat, size: nat,
                      dest: array<seq<byte>>, index: nat, n: nat, i: nat)
      requires m == mem[..]
      requires size <= stride && i < n && Slot(off, stride, n) <= |m|
      requires |was| == dest.Length && index + n <= |was|
      requires Slot(off, stride, i) <= |m|
      requires dest[..] == was[..index] + Gather(m, off, stride, size, i) + was[index + i..]
      modifies dest
      ensures Slot(off, stride, i + 1) <= |m|
        && dest[..] == was[..index] + Gather(m, off, stride, size, i + 1) + was[index + i + 1..]
    {
      if i + 1 < n {
        SlotOrder(off, stride, i + 1, n);
      }
      SlotIsProduct(off, stride, i);
      var at := off + stride * i;
      dest[i + index] := mem[at .. at + size];
      assert Gather(m, off, stride, size, i + 1)
          == Gather(m, off, stride, size, i) + [ElementAt(m, off, stride, size, i)];
    }

    /** Loads `n` slots from `off` into dest[index ..]: the loop of ReadArray. */
    method GatherIn(off: nat, stride: nat, size: nat, dest: array<seq<byte>>, index: nat, n: nat)
      requires size <= stride && Slot(off, stride, n) <= mem.Length
      requires index + n <= dest.Length
      modifies dest
      ensures dest[..] == old(dest[..])[..index] + Gather(mem[..], off, stride, size, n) + old(dest[..])[index + n..]
    {
      ghost var m := mem[..];
      ghost var was := dest[..];
      var i := 0;
      assert dest[..] == was[..index] + Gather(m, off, stride, size, 0) + was[index..];
      while i < n
        invariant i <= n && Slot(off, stride, i) <= |m|
        invariant dest[..] == was[..index] + Gather(m, off, stride, size, i) + was[index + i..]
      {
        GatherStep(m, was, off, stride, size, dest, index, n, i);
        i := i + 1;
      }
      assert m == mem[..];
    }

    /**
     * ReadArray<T>(byteOffset, elems, index, count): loads elems[index + i]
     * from aligned slot i for every i < count and leaves the other elements.
     */
    method ReadArray(byteOffset: uint64, elems: array?<seq<byte>>, index: int32, count: int32,
                     sizeofT: uint32, alignedSizeofT: uint32) returns (r: Result<()>)
      requires Valid()
      requires 1 <= sizeofT <= alignedSizeofT
      modifies this`refCount, elems
      ensures Valid() && refCount == old(refCount)
      ensures RangeArgsError(elems != null, if elems == null then 0 else elems.Length, index, count).Some? ==>
        r == Err(RangeArgsError(elems != null, if elems == null then 0 else elems.Length, index, count).value)
      ensures RangeArgsError(elems != null, if elems == null then 0 else elems.Length, index, count).None? ==>
        && (!IsInitialized() ==> r == Err(InvalidOperation))
        && (IsInitialized() ==> (r.Ok? <==> PointerOffset(is64, byteOffset) + alignedSizeofT * count <= numBytes))
        && (IsInitialized() && r.Err? ==> r.error == Argument)
      ensures elems != null && r.Err? ==> elems[..] == old(elems[..])
      ensures r.Ok? ==> (elems != null && 0 <= index && 0 <= count && index + count <= elems.Length
        && Slot(PointerOffset(is64, byteOffset), alignedSizeofT, count) <= mem.Length
        && elems[..] == old(elems[..index]) + Gather(mem[..], PointerOffset(is64, byteOffset), alignedSizeofT, sizeofT, count)
                        + old(elems[index + count..]))
    {
      var e := RangeArgsError(elems != null, if elems == null then 0 else elems.Length, index, count);
      if e.Some? {
        return Err(e.value);
      }
      if numBytes == Uninitialized(is64) {
        return Err(InvalidOperation);
      }
      var off := PointerOffset(is64, byteOffset);
      var space := SpaceCheck(numBytes, off, alignedSizeofT * count);
      if space.Some? {
        return Err(space.value);
      }
      SlotIsProduct(off, alignedSizeofT, count);
      refCount := refCount + 1;
      GatherIn(off, alignedSizeofT, sizeofT, elems, index, count);
      refCount := refCount - 1;
      return Ok(());
    }
  }
}
