/*******************************************************************************
 *  UnmanagedMemoryStreamEx: a seekable stream of fixed capacity over a block
 *  of unmanaged memory, either a raw pointer (the "pointer" form) or a slice
 *  of a SafeBuffer starting at `offset` (the "SafeBuffer" form).
 *
 *  The memory is modelled by an array: the pointer's block, or the
 *  SafeBuffer's memory.  Stream byte k lives at Region()[offset + k].
 *******************************************************************************/

module UnmanagedMemoryStreams {
  import opened Common
  import opened SafeBuffers
  import BufferEx

  /** System.IO.FileAccess. */
  const AccessRead: int := 1
  const AccessWrite: int := 2
  const AccessReadWrite: int := 3

  /** System.IO.SeekOrigin. */
  const SeekBegin: int := 0
  const SeekCurrent: int := 1
  const SeekEnd: int := 2

  /**
   * The number of bytes Read delivers for `count` requested at `position` of a
   * stream of `length` bytes: as many as are asked for, but none past the end.
   */
  function ReadCount(length: int, position: int, count: int): (n: int)
    requires 0 <= count
    ensures 0 <= n <= count
    ensures n > 0 ==> position + n <= length
    ensures n < count ==> position + n >= length
  {
    var left := length - position;
    var n := if left > count then count else left;
    if n <= 0 then 0 else n
  }

  /**
   * The position Seek moves to: Ok(target) when the 64-bit sum of the origin
   * and the offset is not negative, IOException when it is, ArgumentException
   * for an unknown origin.  (Seek's test `offset > Int64.MaxValue` cannot fire
   * for a 64-bit offset.)
   */
  function SeekTarget(origin: int, offset: int64, position: int64, length: int64): (r: Result<int>)
    requires 0 <= position && 0 <= length
    ensures r.Ok? ==> 0 <= r.value <= Int64Max
    ensures origin == SeekBegin ==> r == (if offset < 0 then Err(IOError) else Ok(offset))
    ensures origin == SeekCurrent ==>
      r == (if 0 <= position + offset <= Int64Max then Ok(position + offset) else Err(IOError))
    ensures origin == SeekEnd ==>
      r == (if 0 <= length + offset <= Int64Max then Ok(length + offset) else Err(IOError))
    ensures origin !in {SeekBegin, SeekCurrent, SeekEnd} ==> r == Err(Argument)
  {
    if origin == SeekBegin then
      if offset < 0 then Err(IOError) else Ok(offset)
    else if origin == SeekCurrent then
      if Wrap64(offset + position) < 0 then Err(IOError) else Ok(offset + position)
    else if origin == SeekEnd then
      if Wrap64(length + offset) < 0 then Err(IOError) else Ok(length + offset)
    else Err(Argument)
  }

  /** Does the pointer `address + size` wrap round below `address`? */
  predicate WrapsAround(address: nat, size: nat, is64: bool)
  {
    (address + size) % PointerSpan(is64) < address
  }

  /** Without wrap-around the end pointer is the plain sum, inside the address space. */
  lemma NoWrapMeansInRange(address: nat, size: nat, is64: bool)
    requires address < PointerSpan(is64)
    requires size < PointerSpan(is64)
    ensures !WrapsAround(address, size, is64) <==> address + size < PointerSpan(is64)
  {
    var span := PointerSpan(is64);
    if address + size >= span {
      assert (address + size) % span == address + size - span;
    }
  }

  /** The exception Initialize(pointer, length, capacity, access) throws, if any. */
  function PointerInitError(present: bool, address: nat, length: int64, capacity: int64, access: int,
                            isOpen: bool, is64: bool): (e: Option<Exc>)
    ensures e.None? <==> (present && 0 <= length <= capacity && !WrapsAround(address, capacity, is64)
                          && AccessRead <= access <= AccessReadWrite && !isOpen)
    ensures !present ==> e == Some(ArgumentNull)
    ensures present && (length < 0 || capacity < 0 || length > capacity) ==> e == Some(ArgumentOutOfRange)
    ensures (present && 0 <= length <= capacity && !WrapsAround(address, capacity, is64)
             && AccessRead <= access <= AccessReadWrite && isOpen) ==> e == Some(InvalidOperation)
  {
    if !present then Some(ArgumentNull)
    else if length < 0 || capacity < 0 then Some(ArgumentOutOfRange)
    else if length > capacity then Some(ArgumentOutOfRange)
    else if WrapsAround(address, capacity, is64) then Some(ArgumentOutOfRange)
    else if access < AccessRead || access > AccessReadWrite then Some(ArgumentOutOfRange)
    else if isOpen then Some(InvalidOperation)
    else None
  }

  /**
   * The exception Initialize(buffer, offset, length, access) throws before it
   * takes the buffer's pointer, if any; `byteLength` is the buffer's ByteLength.
   */
  function BufferInitError(present: bool, byteLength: Result<nat>, offset: int64, length: int64, access: int,
                           isOpen: bool): (e: Option<Exc>)
    ensures e.None? <==> (present && 0 <= offset && 0 <= length && byteLength.Ok?
                          && offset + length <= byteLength.value
                          && AccessRead <= access <= AccessReadWrite && !isOpen)
    ensures !present ==> e == Some(ArgumentNull)
    ensures present && (offset < 0 || length < 0) ==> e == Some(ArgumentOutOfRange)
    ensures present && 0 <= offset && 0 <= length && byteLength.Err? ==> e == Some(byteLength.error)
    ensures (present && 0 <= offset && 0 <= length && byteLength.Ok? && byteLength.value < offset + length)
            ==> e == Some(Argument)
  {
    if !present then Some(ArgumentNull)
    else if offset < 0 then Some(ArgumentOutOfRange)
    else if length < 0 then Some(ArgumentOutOfRange)
    else if byteLength.Err? then Some(byteLength.error)
    else if byteLength.value < offset + length then Some(Argument)
    else if access < AccessRead || access > AccessReadWrite then Some(ArgumentOutOfRange)
    else if isOpen then Some(InvalidOperation)
    else None
  }

  /**
   * The memory `was` after a write of `src` at stream position `pos` of a
   * stream of `length` bytes stored from `offset`: the gap [length, pos) is
   * cleared first, then `src` is stored at `pos`.
   */
  function AfterWrite(was: seq<byte>, offset: nat, length: nat, pos: nat, src: seq<byte>): (s: seq<byte>)
    requires offset + pos + |src| <= |was| && offset + length <= |was|
    ensures |s| == |was|
  {
    var gapEnd := if pos > length then pos else length;
    Splice(ZeroFill(was, offset + length, offset + gapEnd), offset + pos, src)
  }

  /** A write that starts inside the stream clears nothing: it only stores `src`. */
  lemma NoGap(was: seq<byte>, offset: nat, length: nat, pos: nat, src: seq<byte>)
    requires offset + pos + |src| <= |was| && offset + length <= |was| && pos <= length
    ensures AfterWrite(was, offset, length, pos, src) == Splice(was, offset + pos, src)
  {
    assert ZeroFill(was, offset + length, offset + length) == was;
  }

  /**
   * Reading back a write: after `src` is written at `pos`, the stream is at
   * least pos + |src| long, a Read of |src| bytes at `pos` delivers all of
   * them, and they are `src`.
   */
  lemma ReadAfterWrite(was: seq<byte>, offset: nat, length: nat, pos: nat, src: seq<byte>)
    requires offset + pos + |src| <= |was| && offset + length <= |was|
    ensures var newLength := if pos + |src| > length then pos + |src| else length;
      && ReadCount(newLength, pos, |src|) == |src|
      && AfterWrite(was, offset, length, pos, src)[offset + pos .. offset + pos + |src|] == src
  {
    var s := AfterWrite(was, offset, length, pos, src);
    assert s[offset + pos .. offset + pos + |src|] == src by {
      forall i | 0 <= i < |src|
        ensures s[offset + pos + i] == src[i]
      {
      }
    }
  }

  /**
   * A write past the end leaves no stale bytes: the gap between the old end
   * and the write position reads as zeros, and every byte outside the gap and
   * the written range keeps its value.
   */
  lemma WriteGap(was: seq<byte>, offset: nat, length: nat, pos: nat, src: seq<byte>, k: nat)
    requires offset + pos + |src| <= |was| && offset + length <= |was|
    requires offset + k < |was|
    ensures length <= k < pos ==> AfterWrite(was, offset, length, pos, src)[offset + k] == 0
    ensures !(length <= k < pos) && !(pos <= k < pos + |src|)
            ==> AfterWrite(was, offset, length, pos, src)[offset + k] == was[offset + k]
  {
  }

  /**
   * The SafeBuffer form of a copy out of the stream: `n` bytes from `at` in
   * the buffer's memory into dest[off..], under a reference on the buffer.
   */
  method LoadFromBuffer(sb: SafeBuffer, at: nat, dest: array<byte>, off: int32, n: int32)
    requires sb.IsInitialized() && dest != sb.mem
    requires 0 <= off && 0 <= n && off + n <= dest.Length && at + n <= sb.mem.Length
    modifies dest, sb`refCount
    ensures sb.refCount == old(sb.refCount)
    ensures dest[..] == Splice(old(dest[..]), off, old(sb.mem[at .. at + n]))
  {
    var pointer := sb.AcquirePointer();
    BufferEx.MemcpyToArray(dest, off, sb.mem, at, 0, n);
    var _ := sb.ReleasePointer();
  }

  /**
   * The SafeBuffer form of a copy into the stream: src[off .. off + count)
   * to `at` in the buffer's memory, under a reference on the buffer.
   */
  method StoreToBuffer(sb: SafeBuffer, at: nat, src: array<byte>, off: int32, count: int32)
    requires sb.IsInitialized() && src != sb.mem
    requires 0 <= off && 0 <= count && off + count <= src.Length && at + count <= sb.mem.Length
    modifies sb.mem, sb`refCount
    ensures sb.refCount == old(sb.refCount)
    ensures sb.mem[..] == Splice(old(sb.mem[..]), at, old(src[off .. off + count]))
  {
    var pointer := sb.AcquirePointer();
    BufferEx.MemcpyFromArray(sb.mem, at, 0, src, off, count);
    var _ := sb.ReleasePointer();
  }

  /** The SafeBuffer form of a one-byte store, under a reference on the buffer. */
  method StoreByteToBuffer(sb: SafeBuffer, at: nat, value: byte)
    requires sb.IsInitialized() && at < sb.mem.Length
    modifies sb.mem, sb`refCount
    ensures sb.refCount == old(sb.refCount)
    ensures sb.mem[..] == Splice(old(sb.mem[..]), at, [value])
  {
    var pointer := sb.AcquirePointer();
    sb.mem[at] := value;
    var _ := sb.ReleasePointer();
  }

  class UnmanagedMemoryStream {
    /** _buffer: the SafeBuffer of the SafeBuffer form, else null. */
    var buffer: SafeBuffer?
    /** _mem: the block of the pointer form; null after Dispose. */
    var mem: array?<byte>
    /** The address _mem holds: the block's address, 0 while _mem is null. */
    var address: nat
    var length: int
    var capacity: int
    var position: int
    var offset: int
    var access: int
    var isOpen: bool

    /** The memory the stream's bytes live in. */
    function Region(): array?<byte>
      reads this`buffer, this`mem
    {
      if buffer != null then buffer.mem else mem
    }

    ghost predicate Valid()
      reads this, buffer
    {
      && 0 <= position <= Int64Max
      && 0 <= length <= capacity <= Int64Max
      && 0 <= offset
      && (buffer == null ==> offset == 0)
      && (buffer != null ==> length == capacity && buffer.IsInitialized())
      && (isOpen ==> AccessRead <= access <= AccessReadWrite
                     && Region() != null && offset + capacity <= Region().Length)
    }

    /** The protected constructor: a closed stream, to be set up by Initialize. */
    constructor ()
      ensures Valid() && !isOpen && buffer == null && mem == null && address == 0
      ensures position == 0 && length == 0 && capacity == 0 && access == 0
    {
      buffer := null;
      mem := null;
      address := 0;
      length, capacity, position, offset, access := 0, 0, 0, 0, 0;
      isOpen := false;
    }

    function CanRead(): (b: bool)
      reads this
      requires AccessRead <= access <= AccessReadWrite || !isOpen
      ensures b <==> isOpen && (access == AccessRead || access == AccessReadWrite)
    {
      isOpen && access % 2 == 1
    }

    function CanWrite(): (b: bool)
      reads this
      requires AccessRead <= access <= AccessReadWrite || !isOpen
      ensures b <==> isOpen && (access == AccessWrite || access == AccessReadWrite)
    {
      isOpen && (access / 2) % 2 == 1
    }

    function CanSeek(): bool
      reads this
    {
      isOpen
    }

    function Flush(): Result<()>
      reads this
    {
      if !isOpen then Err(ObjectDisposed) else Ok(())
    }

    function GetLength(): Result<int>
      reads this
    {
      if !isOpen then Err(ObjectDisposed) else Ok(length)
    }

    function GetCapacity(): Result<int>
      reads this
    {
      if !isOpen then Err(ObjectDisposed) else Ok(capacity)
    }

    function GetPosition(): Result<int>
      reads this
    {
      if !CanSeek() then Err(ObjectDisposed) else Ok(position)
    }

    /** The `n` stream bytes from stream position `from`, as they lie in the region. */
    function Bytes(from: nat, n: nat): (r: seq<byte>)
      reads this, Region()
      requires Region() != null && 0 <= offset && offset + from + n <= Region().Length
      ensures |r| == n
      ensures forall i :: 0 <= i < n ==> r[i] == Region()[offset + from + i]
    {
      Region()[offset + from .. offset + from + n]
    }

    /**
     * Initialize(pointer, length, capacity, access): the stream covers the
     * block at `address`; the caller promises the block holds `capacity` bytes.
     * Neither this nor Dispose clears _buffer, so a disposed SafeBuffer-form
     * stream initialized again keeps reading and writing its old buffer, from
     * offset 0; the caller then promises that the buffer holds `capacity`
     * bytes, and `length` is `capacity`.
     */
    method InitializePointer(pointer: array?<byte>, address: nat, len: int64, cap: int64, acc: int, is64: bool)
      returns (r: Result<()>)
      requires Valid()
      requires PointerInitError(pointer != null, address, len, cap, acc, isOpen, is64).None? ==>
        if buffer == null then cap <= pointer.Length else len == cap && cap <= buffer.mem.Length
      modifies this`mem, this`address, this`offset, this`length, this`capacity, this`access, this`isOpen
      ensures Valid() && position == old(position) && buffer == old(buffer)
      ensures r.Err? <==> PointerInitError(pointer != null, address, len, cap, acc, old(isOpen), is64).Some?
      ensures r.Err? ==> (r.error == PointerInitError(pointer != null, address, len, cap, acc, old(isOpen), is64).value
                          && mem == old(mem) && this.address == old(this.address) && length == old(length)
                          && capacity == old(capacity) && isOpen == old(isOpen) && access == old(access))
      ensures r.Ok? ==> (isOpen && mem == pointer && this.address == address && offset == 0
                         && Region() == (if buffer == null then pointer else buffer.mem)
                         && length == len && capacity == cap && access == acc)
    {
      var e := PointerInitError(pointer != null, address, len, cap, acc, isOpen, is64);
      if e.Some? {
        return Err(e.value);
      }
      mem := pointer;
      this.address := address;
      offset := 0;
      length := len;
      capacity := cap;
      access := acc;
      isOpen := true;
      return Ok(());
    }

    /**
     * Initialize(buffer, offset, length, access): the stream covers `len`
     * bytes of the buffer from `off`, and its capacity is its length.
     */
    method InitializeBuffer(sb: SafeBuffer?, off: int64, len: int64, acc: int) returns (r: Result<()>)
      requires Valid()
      requires sb != null ==> sb.Valid()
      modifies this`buffer, this`offset, this`length, this`capacity, this`access, this`isOpen, sb
      ensures Valid() && position == old(position) && mem == old(mem)
      ensures sb != null ==> sb.refCount == old(sb.refCount) && sb.numBytes == old(sb.numBytes)
      ensures var e := BufferInitError(sb != null, if sb == null then Err(ArgumentNull) else sb.ByteLength(),
                                       off, len, acc, old(isOpen));
        && (e.Some? ==> r == Err(e.value))
        && (e.None? ==> (r.Ok? <==> !WrapsAround(sb.handle, off + len, sb.is64)))
        && (e.None? && r.Err? ==> r.error == Argument)
      ensures r.Err? ==> (buffer == old(buffer) && length == old(length) && capacity == old(capacity)
                          && isOpen == old(isOpen) && access == old(access) && offset == old(offset))
      ensures r.Ok? ==> (isOpen && buffer == sb && Region() == sb.mem && offset == off
                         && length == len && capacity == len && access == acc)
    {
      var e := BufferInitError(sb != null, if sb == null then Err(ArgumentNull) else sb.ByteLength(),
                               off, len, acc, isOpen);
      if e.Some? {
        return Err(e.value);
      }
      var pointer := sb.AcquirePointer();
      var wraps := WrapsAround(pointer.value, off + len, sb.is64);
      var _ := sb.ReleasePointer();
      if wraps {
        return Err(Argument);
      }
      offset := off;
      buffer := sb;
      length := len;
      capacity := len;
      access := acc;
      isOpen := true;
      return Ok(());
    }

    /** Dispose: closes the stream and drops the pointer. */
    method Dispose()
      requires Valid()
      modifies this`isOpen, this`mem, this`address
      ensures Valid() && !isOpen && mem == null && address == 0
      ensures !CanRead() && !CanWrite() && !CanSeek()
      ensures GetLength() == Err(ObjectDisposed) && GetCapacity() == Err(ObjectDisposed)
      ensures GetPosition() == Err(ObjectDisposed) && Flush() == Err(ObjectDisposed)
    {
      isOpen := false;
      mem := null;
      address := 0;
    }

    /**
     * The Position setter.  `win32` says whether the library was built with
     * WIN32 defined: such a build refuses a position above Int32.MaxValue or
     * one whose pointer `_mem + value` wraps round the 32-bit address space.
     */
    method SetPosition(value: int64, win32: bool) returns (r: Result<()>)
      requires Valid()
      modifies this`position
      ensures Valid()
      ensures value < 0 ==> r == Err(ArgumentOutOfRange)
      ensures 0 <= value && !isOpen ==> r == Err(ObjectDisposed)
      ensures 0 <= value && isOpen && win32 && (value > Int32Max || WrapsAround(address, value, false))
              ==> r == Err(ArgumentOutOfRange)
      ensures r.Ok? <==> 0 <= value && isOpen && !(win32 && (value > Int32Max || WrapsAround(address, value, false)))
      ensures r.Err? ==> position == old(position)
      ensures r.Ok? ==> position == value && GetPosition() == Ok(value)
    {
      if value < 0 {
        return Err(ArgumentOutOfRange);
      }
      if !CanSeek() {
        return Err(ObjectDisposed);
      }
      if win32 && (value > Int32Max || WrapsAround(address, value, false)) {
        return Err(ArgumentOutOfRange);
      }
      position := value;
      return Ok(());
    }

    /**
     * The copy step of Read: `n` stream bytes from `pos` into dest[off..],
     * under a reference on the SafeBuffer in the SafeBuffer form.
     */
    method CopyOut(dest: array<byte>, off: int32, pos: nat, n: int32)
      requires Valid() && isOpen && dest != Region()
      requires 0 <= off && 0 <= n && off + n <= dest.Length && pos + n <= capacity
      modifies dest, buffer
      ensures Valid()
      ensures buffer != null ==> buffer.refCount == old(buffer.refCount) && buffer.numBytes == old(buffer.numBytes)
      ensures dest[..] == Splice(old(dest[..]), off, old(Bytes(pos, n)))
    {
      if buffer != null {
        LoadFromBuffer(buffer, pos + offset, dest, off, n);
      } else {
        BufferEx.MemcpyToArray(dest, off, mem, pos, 0, n);
      }
    }

    /**
     * The store step of WriteByte: `value` into stream position `pos`, under a
     * reference on the SafeBuffer in the SafeBuffer form.
     */
    method StoreByte(pos: nat, value: byte)
      requires Valid() && isOpen && pos < capacity
      modifies Region(), buffer
      ensures Valid()
      ensures buffer != null ==> buffer.refCount == old(buffer.refCount) && buffer.numBytes == old(buffer.numBytes)
      ensures Region()[..] == Splice(old(Region()[..]), offset + pos, [value])
    {
      if buffer != null {
        StoreByteToBuffer(buffer, pos + offset, value);
      } else {
        mem[pos] := value;
      }
    }

    /**
     * The copy step of Write: src[off .. off + count) into stream position
     * `pos`, under a reference on the SafeBuffer in the SafeBuffer form, after
     * the SafeBuffer form's own check that the bytes fit.
     */
    method StoreIn(pos: nat, src: array<byte>, off: int32, count: int32)
      requires Valid() && isOpen && src != Region()
      requires 0 <= off && 0 <= count && off + count <= src.Length && pos + count <= capacity
      modifies Region(), buffer
      ensures Valid()
      ensures buffer != null ==> buffer.refCount == old(buffer.refCount) && buffer.numBytes == old(buffer.numBytes)
      ensures Region()[..] == Splice(old(Region()[..]), offset + pos, old(src[off .. off + count]))
    {
      if buffer != null {
        var bytesLeft := capacity - pos;
        if bytesLeft < count {
          assert false;
        }
        StoreToBuffer(buffer, pos + offset, src, off, count);
      } else {
        BufferEx.MemcpyFromArray(mem, pos, 0, src, off, count);
      }
    }

    /**
     * Read(buffer, offset, count): copies min(count, Length - Position) bytes
     * from Position into buffer[offset..] and advances Position past them.
     */
    method Read(dest: array?<byte>, off: int32, count: int32) returns (r: Result<int32>)
      requires Valid()
      requires dest != null ==> dest != Region()
      modifies this`position, dest, buffer
      ensures Valid()
      ensures buffer != null ==> buffer.refCount == old(buffer.refCount) && buffer.numBytes == old(buffer.numBytes)
      ensures var e := RangeArgsError(dest != null, if dest == null then 0 else dest.Length, off, count);
        && (e.Some? ==> r == Err(e.value))
        && (e.None? && !isOpen ==> r == Err(ObjectDisposed))
        && (e.None? && isOpen && !CanRead() ==> r == Err(NotSupported))
        && (r.Ok? <==> e.None? && CanRead())
      ensures r.Err? ==> position == old(position) && (dest != null ==> dest[..] == old(dest[..]))
      ensures r.Ok? ==>
        var n := ReadCount(length, old(position), count);
        && r.value == n
        && position == old(position) + n
        && (n == 0 ==> dest[..] == old(dest[..]))
        && (n > 0 ==> dest[..] == Splice(old(dest[..]), off, old(Bytes(position, n))))
    {
      var e := RangeArgsError(dest != null, if dest == null then 0 else dest.Length, off, count);
      if e.Some? {
        return Err(e.value);
      }
      if !isOpen {
        return Err(ObjectDisposed);
      }
      if !CanRead() {
        return Err(NotSupported);
      }
      var pos := position;
      var n := ReadCount(length, pos, count);
      if n == 0 {
        return Ok(0);
      }
      CopyOut(dest, off, pos, n);
      position := pos + n;
      return Ok(n);
    }

    /** ReadByte: the byte at Position, advancing it by one; -1 at or past the end. */
    method ReadByte() returns (r: Result<int>)
      requires Valid()
      modifies this`position, buffer
      ensures Valid()
      ensures buffer != null ==> buffer.refCount == old(buffer.refCount) && buffer.numBytes == old(buffer.numBytes)
      ensures !isOpen ==> r == Err(ObjectDisposed)
      ensures isOpen && !CanRead() ==> r == Err(NotSupported)
      ensures r.Err? ==> position == old(position)
      ensures CanRead() && old(position) >= length ==> r == Ok(-1) && position == old(position)
      ensures CanRead() && old(position) < length ==>
        r == Ok(Region()[offset + old(position)]) && position == old(position) + 1
    {
      if !isOpen {
        return Err(ObjectDisposed);
      }
      if !CanRead() {
        return Err(NotSupported);
      }
      var pos := position;
      if pos >= length {
        return Ok(-1);
      }
      position := pos + 1;
      var result;
      if buffer != null {
        var pointer := buffer.AcquirePointer();
        result := buffer.mem[pos + offset];
        var _ := buffer.ReleasePointer();
      } else {
        result := mem[pos];
      }
      return Ok(result);
    }

    /** Seek(offset, origin): moves Position to the target and returns it. */
    method Seek(off: int64, origin: int) returns (r: Result<int64>)
      requires Valid()
      modifies this`position
      ensures Valid()
      ensures !isOpen ==> r == Err(ObjectDisposed)
      ensures isOpen ==> r == SeekTarget(origin, off, old(position), length)
      ensures r.Err? ==> position == old(position)
      ensures r.Ok? ==> position == r.value
    {
      if !isOpen {
        return Err(ObjectDisposed);
      }
      var target := SeekTarget(origin, off, position, length);
      if target.Err? {
        return Err(target.error);
      }
      position := target.value;
      return Ok(position);
    }

    /**
     * The pointer-form growth step of SetLength, Write and WriteByte: clears
     * the bytes between Length and `clearTo`, then raises Length to `newLength`
     * if it is longer.
     */
    method Grow(clearTo: int, newLength: int)
      requires Valid() && isOpen && buffer == null
      requires 0 <= clearTo <= capacity && 0 <= newLength <= capacity
      modifies this`length, mem
      ensures Valid()
      ensures length == if newLength > old(length) then newLength else old(length)
      ensures mem[..] == ZeroFill(old(mem[..]), old(length), if clearTo > old(length) then clearTo else old(length))
    {
      var len := length;
      if clearTo > len {
        BufferEx.ZeroMemory(mem, len, clearTo - len);
      } else {
        assert mem[..] == ZeroFill(mem[..], len, len);
      }
      if newLength > len {
        length := newLength;
      }
    }

    /**
     * SetLength(value): only for a writable pointer-form stream; growing clears
     * the new bytes, and Position is pulled back to the new end.
     */
    method SetLength(value: int64) returns (r: Result<()>)
      requires Valid()
      modifies this`length, this`position, mem
      ensures Valid()
      ensures value < 0 ==> r == Err(ArgumentOutOfRange)
      ensures 0 <= value && buffer != null ==> r == Err(NotSupported)
      ensures 0 <= value && buffer == null && !isOpen ==> r == Err(ObjectDisposed)
      ensures 0 <= value && buffer == null && isOpen && !CanWrite() ==> r == Err(NotSupported)
      ensures 0 <= value && buffer == null && CanWrite() && value > capacity ==> r == Err(IOError)
      ensures r.Ok? <==> 0 <= value <= capacity && buffer == null && CanWrite()
      ensures r.Err? ==> (length == old(length) && position == old(position)
                          && (mem != null ==> mem[..] == old(mem[..])))
      ensures r.Ok? ==> (length == value
                         && position == (if old(position) > value then value else old(position))
                         && mem[..] == ZeroFill(old(mem[..]), old(length), if value > old(length) then value else old(length)))
    {
      if value < 0 {
        return Err(ArgumentOutOfRange);
      }
      if buffer != null {
        return Err(NotSupported);
      }
      if !isOpen {
        return Err(ObjectDisposed);
      }
      if !CanWrite() {
        return Err(NotSupported);
      }
      if value > capacity {
        return Err(IOError);
      }
      var pos := position;
      Grow(value, value);
      length := value;
      if pos > value {
        position := value;
      }
      return Ok(());
    }

    /**
     * The store of Write once its checks pass: the pointer form clears the gap
     * between Length and `pos` and raises Length; both forms then copy
     * src[off .. off + count) to `pos`.
     */
    method PlaceBytes(pos: nat, src: array<byte>, off: int32, count: int32)
      requires Valid() && isOpen && src != Region()
      requires 0 <= off && 0 <= count && off + count <= src.Length && pos + count <= capacity
      modifies this`length, Region(), buffer
      ensures Valid()
      ensures buffer != null ==> (buffer.refCount == old(buffer.refCount) && buffer.numBytes == old(buffer.numBytes)
                                  && length == old(length))
      ensures length == if pos + count > old(length) then pos + count else old(length)
      ensures Region()[..] == AfterWrite(old(Region()[..]), offset, old(length), pos, old(src[off .. off + count]))
    {
      if buffer == null {
        PlaceBytesInPointer(pos, src, off, count);
      } else {
        ghost var was := Region()[..];
        StoreIn(pos, src, off, count);
        NoGap(was, offset, length, pos, old(src[off .. off + count]));
      }
    }

    /** PlaceBytes for the pointer form. */
    method PlaceBytesInPointer(pos: nat, src: array<byte>, off: int32, count: int32)
      requires Valid() && isOpen && buffer == null && src != mem
      requires 0 <= off && 0 <= count && off + count <= src.Length && pos + count <= capacity
      modifies this`length, mem
      ensures Valid()
      ensures length == if pos + count > old(length) then pos + count else old(length)
      ensures mem[..] == AfterWrite(old(mem[..]), 0, old(length), pos, old(src[off .. off + count]))
    {
      ghost var was := mem[..];
      ghost var len := length;
      ghost var bytes := src[off .. off + count];
      ghost var gapEnd := if pos > len then pos else len;
      Grow(pos, pos + count);
      assert mem[..] == ZeroFill(was, len, gapEnd);
      StoreIn(pos, src, off, count);
      assert mem[..] == Splice(ZeroFill(was, len, gapEnd), pos, bytes);
      assert mem[..] == AfterWrite(was, 0, len, pos, bytes);
    }

    /**
     * The store of WriteByte once its checks pass: at or past the end, the
     * pointer form clears the gap and raises Length; both forms then store
     * `value` at `pos`.
     */
    method PlaceByte(pos: nat, value: byte)
      requires Valid() && isOpen && pos < capacity
      modifies this`length, Region(), buffer
      ensures Valid()
      ensures buffer != null ==> (buffer.refCount == old(buffer.refCount) && buffer.numBytes == old(buffer.numBytes)
                                  && length == old(length))
      ensures length == if pos + 1 > old(length) then pos + 1 else old(length)
      ensures Region()[..] == AfterWrite(old(Region()[..]), offset, old(length), pos, [value])
    {
      if buffer == null {
        PlaceByteInPointer(pos, value);
      } else {
        ghost var was := Region()[..];
        StoreByte(pos, value);
        NoGap(was, offset, length, pos, [value]);
      }
    }

    /** PlaceByte for the pointer form: at or past the end, clear the gap and raise Length. */
    method PlaceByteInPointer(pos: nat, value: byte)
      requires Valid() && isOpen && buffer == null && pos < capacity
      modifies this`length, mem
      ensures Valid()
      ensures length == if pos + 1 > old(length) then pos + 1 else old(length)
      ensures mem[..] == AfterWrite(old(mem[..]), 0, old(length), pos, [value])
    {
      ghost var was := mem[..];
      ghost var len := length;
      ghost var gapEnd := if pos > len then pos else len;
      if pos >= length {
        Grow(pos, pos + 1);
      } else {
        assert ZeroFill(was, len, len) == was;
      }
      assert mem[..] == ZeroFill(was, len, gapEnd);
      StoreByte(pos, value);
      assert mem[..] == Splice(ZeroFill(was, len, gapEnd), pos, [value]);
      assert mem[..] == AfterWrite(was, 0, len, pos, [value]);
    }

    /**
     * Write(buffer, offset, count): stores buffer[offset .. offset + count) at
     * Position, clearing any gap between Length and Position first, and advances
     * Position past it.  Only the pointer form moves Length.
     */
    method Write(src: array?<byte>, off: int32, count: int32) returns (r: Result<()>)
      requires Valid()
      requires src != null ==> src != Region()
      modifies this`length, this`position, Region(), buffer
      ensures Valid()
      ensures buffer != null ==> (buffer.refCount == old(buffer.refCount) && buffer.numBytes == old(buffer.numBytes)
                                  && length == old(length))
      ensures var e := RangeArgsError(src != null, if src == null then 0 else src.Length, off, count);
        && (e.Some? ==> r == Err(e.value))
        && (e.None? && !isOpen ==> r == Err(ObjectDisposed))
        && (e.None? && isOpen && !CanWrite() ==> r == Err(NotSupported))
        && (e.None? && CanWrite() && old(position) + count > Int64Max ==> r == Err(IOError))
        && (e.None? && CanWrite() && old(position) + count <= Int64Max && old(position) + count > capacity
            ==> r == Err(NotSupported))
        && (r.Ok? <==> e.None? && CanWrite() && old(position) + count <= capacity)
      ensures r.Err? ==> (length == old(length) && position == old(position)
                          && (Region() != null ==> Region()[..] == old(Region()[..])))
      ensures r.Ok? ==>
        && position == old(position) + count
        && length == (if old(position) + count > old(length) then old(position) + count else old(length))
        && Region()[..] == AfterWrite(old(Region()[..]), offset, old(length), old(position), src[off .. off + count])
    {
      var e := RangeArgsError(src != null, if src == null then 0 else src.Length, off, count);
      if e.Some? {
        return Err(e.value);
      }
      if !isOpen {
        return Err(ObjectDisposed);
      }
      if !CanWrite() {
        return Err(NotSupported);
      }
      var pos := position;
      var n := pos + count;
      if Wrap64(n) < 0 {
        return Err(IOError);
      }
      if n > capacity {
        return Err(NotSupported);
      }
      PlaceBytes(pos, src, off, count);
      position := n;
      return Ok(());
    }

    /** WriteByte(value): Write of the single byte `value`. */
    method WriteByte(value: byte) returns (r: Result<()>)
      requires Valid()
      modifies this`length, this`position, Region(), buffer
      ensures Valid()
      ensures buffer != null ==> (buffer.refCount == old(buffer.refCount) && buffer.numBytes == old(buffer.numBytes)
                                  && length == old(length))
      ensures !isOpen ==> r == Err(ObjectDisposed)
      ensures isOpen && !CanWrite() ==> r == Err(NotSupported)
      ensures CanWrite() && old(position) == Int64Max ==> r == Err(IOError)
      ensures CanWrite() && old(position) < Int64Max && old(position) + 1 > capacity ==> r == Err(NotSupported)
      ensures r.Ok? <==> CanWrite() && old(position) + 1 <= capacity
      ensures r.Err? ==> (length == old(length) && position == old(position)
                          && (Region() != null ==> Region()[..] == old(Region()[..])))
      ensures r.Ok? ==>
        && position == old(position) + 1
        && length == (if old(position) + 1 > old(length) then old(position) + 1 else old(length))
        && Region()[..] == AfterWrite(old(Region()[..]), offset, old(length), old(position), [value])
    {
      if !isOpen {
        return Err(ObjectDisposed);
      }
      if !CanWrite() {
        return Err(NotSupported);
      }
      var pos := position;
      var len := length;
      var n := pos + 1;
      if pos >= len {
        if Wrap64(n) < 0 {
          return Err(IOError);
        }
        if n > capacity {
          return Err(NotSupported);
        }
      }
      PlaceByte(pos, value);
      position := n;
      return Ok(());
    }
  }
}
