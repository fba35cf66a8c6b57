# MonoLib core, modelled in Dafny

MonoLib back-ports pieces of the newer .NET class library to an older
runtime. This project models its core: the pieces that hold real logic
rather than forwarding to the framework.

- **Unmanaged memory streams.** `UnmanagedMemoryStream` reads and writes
  over a raw memory region or over a `SafeBuffer`. `BufferEx` provides the
  block copies (`Memmove`, `Memcpy`, `ZeroMemory`) beneath it.
- **`SafeBuffer`.** Its byte-length bookkeeping, pointer reference count,
  and the element-wise `Read`/`Write`/`ReadArray`/`WriteArray` with aligned
  strides.
- **`MemoryMappedFile`.** The factory methods' argument checks, the
  access-right tables, the 64-bit capacity split into two 32-bit halves,
  and the create-or-open retry loop with its doubling back-off.
- **`TimeZoneInfo`.** The registry `TZI` blob decoder, the daylight-rule
  date computation (`CreateDate`), and the UTC-offset arithmetic. Also the
  `ConvertTime` family, the `Utc`/`Local` cache, `FindSystemTimeZoneById`'s
  argument checks, and the comparer that sorts zones.
- **`Win32Native` and `__Error`.** The structure conversions and the
  `FILETIME`/`SetFilePointer` 64-bit splitting. The mapping of Win32 error
  codes to exceptions, and the path-hiding rule for messages.
- **The array views.** `ArraySegmentList<T>` and its enumerator,
  `Span<T>`, `Memory<T>`, and the bucketed `ArrayPool<T>`.
- **Smaller pieces.**
  - From `ExtensionMethods`: `HasFlag`, `IPAddressNumbers`/`MapToIPv4`,
    the HTTP `Range` header of `AddRange`, `EnumEx.TryParse`,
    `IsNullOrWhiteSpace`, and `ImplementInterface`.
  - `TypeInfo.GetRankString` and `TypeInfo.IsAssignableFrom`.
  - `DataMemberAttribute`.
  - `DecimalEx.GetBytes`.

**How the model is written.** Pure computations are functions over
datatypes. Objects whose fields change are classes whose methods carry
`modifies` clauses and state the whole new state. Loops are methods with
invariants, proved against a specification function. Integers are
unbounded, and the C# 32- and 64-bit wrap-around is written out where the
source relies on it (`Common.Wrap32`, `Common.Wrap64`). Calls into the
operating system are function parameters, so the model is proved for every
answer the kernel could give: `CreateFileMapping`, `OpenFileMapping`,
`SetFilePointer`, `File.Exists`, and the file length.

Modules:

| module | file | source |
|---|---|---|
| `Common` | common.dfy | shared: Option/Result, exceptions, integer widths, little-endian bytes |
| `BufferEx` | buffer_ex.dfy | MonoLib/System.IO/UnmanagedMemoryStreamEx.cs (class BufferEx) |
| `SafeBuffers` | safe_buffer.dfy | MonoLib/System.Runtime.InteropServices/SafeBuffer.cs |
| `UnmanagedMemoryStreams` | memory_stream.dfy | MonoLib/System.IO/UnmanagedMemoryStreamEx.cs |
| `Win32Native` | win32_native.dfy | MonoLib/Microsoft.Win32/Win32Native.cs |
| `IOErrors` | io_errors.dfy | MonoLib/System.IO/__Error.cs |
| `Calendar` | calendar.dfy | the `DateTime`/`TimeSpan` arithmetic TimeZoneInfo.cs relies on |
| `TimeZones` | time_zones.dfy | MonoLib/System/TimeZoneInfo.cs |
| `MemoryMappedFiles` | memory_mapped_file.dfy | MonoLib/System.IO/MemoryMappedFile.cs |
| `ArraySegments` | array_segment.dfy | MonoLib/System/ArraySegment.cs |
| `Spans` | span.dfy | MonoLib/System/Span.cs |
| `Memories` | memory.dfy | MonoLib/System/Memory.cs |
| `ArrayPools` | array_pool.dfy | MonoLib/System.Buffers/ArrayPool.cs, ConfigurableArrayPool.cs |
| `Extensions` | extension_methods.dfy | MonoLib/ExtensionMethods.cs |
| `TypeInfos` | type_info.dfy | MonoLib/System.Reflection/TypeInfo.cs |
| `DataMemberAttributes` | data_member_attribute.dfy | MonoLib/System.Runtime.Serialization/DataMemberAttribute.cs |
| `Decimals` | decimal_ex.dfy | MonoLib/System.IO/DecimalEx.cs |

## Model

| member | source | states |
|---|---|---|
| BufferEx.NativeMemmove | MonoLib/System.IO/UnmanagedMemoryStreamEx.cs:1053-1056 | the native block move: the destination afterwards is the old destination with the source bytes spliced in at the offset |
| BufferEx.MemcpyToArray | MonoLib/System.IO/UnmanagedMemoryStreamEx.cs:826-838 | copying from memory into an array: exactly the `len` bytes at `destIndex` change, and they become the source bytes |
| BufferEx.MemcpyFromArray | MonoLib/System.IO/UnmanagedMemoryStreamEx.cs:842-854 | copying from an array into memory: exactly the `len` bytes at the destination offset change, and they become the array's bytes |
| BufferEx.Copy17To64 | MonoLib/System.IO/UnmanagedMemoryStreamEx.cs:901-954 | the 17-to-64-byte unrolled block copy puts source bytes at every position from `k` to the end and leaves everything else alone |
| BufferEx.CopyUpTo16 | MonoLib/System.IO/UnmanagedMemoryStreamEx.cs:956-986 | the branchy tail copy of at most 16 bytes (the 8/4/2/1 tests on `len`) copies exactly `len` bytes |
| BufferEx.CopyOver64 | MonoLib/System.IO/UnmanagedMemoryStreamEx.cs:988-1047 | the 64-byte block loop, followed by the tail copy, copies exactly `len` bytes |
| BufferEx.Memmove | MonoLib/System.IO/UnmanagedMemoryStreamEx.cs:872-1051 | Memmove has the semantics of a block move for every length and every overlap: the destination ends up as the old destination with the old source bytes spliced in |
| BufferEx.ZeroMemory | MonoLib/System.IO/UnmanagedMemoryStreamEx.cs:1067-1071 | zeroes exactly the `len` bytes from the start position; a length that is not positive changes nothing |
| SafeBuffers.InitializeError | MonoLib/System.Runtime.InteropServices/SafeBuffer.cs:34-46 | Initialize(ulong) accepts exactly the sizes below the "uninitialized" marker, which is 2^64-1 on a 64-bit process and 2^32-1 on a 32-bit one; it refuses everything else with ArgumentOutOfRange, including any size over 4 GB on a 32-bit process |
| SafeBuffers.InitializeElementsSpec | MonoLib/System.Runtime.InteropServices/SafeBuffer.cs:53-68 | Initialize(numElements, size): the result is accepted exactly when the product is below the limit, and is then that product; a product over 2^32-1 overflows |
| SafeBuffers.AddressSpaceTestIsDead | MonoLib/System.Runtime.InteropServices/SafeBuffer.cs:60-61 | the 32-bit address-space test runs on the already-wrapped `uint` product, so it can never fire |
| SafeBuffers.PointerOffset | MonoLib/System.Runtime.InteropServices/SafeBuffer.cs:339 | `(ulong)(ptr - handle)` for `ptr = handle + byteOffset`: byteOffset in a 64-bit process, congruent to it mod 2^32 in a 32-bit one |
| SafeBuffers.PointerOffset32 | MonoLib/System.Runtime.InteropServices/SafeBuffer.cs:335-340 | in a 32-bit process the check passes exactly when the offset's low 32 bits are below 2^31 and the access ends within the buffer from them, and those bits are the offset used |
| SafeBuffers.OffsetWrapsIn32Bit | MonoLib/System.Runtime.InteropServices/SafeBuffer.cs:435-436 | in a 32-bit process a 4-byte access at 2^32 into a 16-byte buffer passes, at byte 0; in a 64-bit one it fails |
| SafeBuffers.SpaceCheck | MonoLib/System.Runtime.InteropServices/SafeBuffer.cs:335-347 | an access of `size` bytes at `off` is allowed exactly when it ends within the buffer; otherwise Argument |
| SafeBuffers.AlignedSizeOf | MonoLib/System.Runtime.InteropServices/SafeBuffer.cs:80-92 | sizes 1 and 2, and 4 on a 64-bit process, are their own aligned size; every other size takes the runtime's aligned size |
| SafeBuffers.Scatter | MonoLib/System.Runtime.InteropServices/SafeBuffer.cs:404-416 | writing elements at a stride keeps the buffer's length |
| SafeBuffers.ScatterAt | MonoLib/System.Runtime.InteropServices/SafeBuffer.cs:409-410 | byte j of element i lands at off + i*stride + j |
| SafeBuffers.ScatterOutside | MonoLib/System.Runtime.InteropServices/SafeBuffer.cs:404-416 | bytes before the offset or past the last slot are untouched |
| SafeBuffers.ScatterPadding | MonoLib/System.Runtime.InteropServices/SafeBuffer.cs:404-416 | the alignment padding between elements is untouched |
| SafeBuffers.Gather | MonoLib/System.Runtime.InteropServices/SafeBuffer.cs:476-489 | reading n elements at a stride gives n elements |
| SafeBuffers.GatherAt | MonoLib/System.Runtime.InteropServices/SafeBuffer.cs:482-483 | element i read back is the `size` bytes at off + i*stride |
| SafeBuffers.GatherScatter | MonoLib/System.Runtime.InteropServices/SafeBuffer.cs:383-490 | ReadArray after WriteArray at the same offset and stride gives the written elements back |
| SafeBuffers.SafeBuffer.constructor | MonoLib/System.Runtime.InteropServices/SafeBuffer.cs:23-26 | a new buffer is uninitialized, with no pointers acquired, over the given handle and memory |
| SafeBuffers.SafeBuffer.ByteLength | MonoLib/System.Runtime.InteropServices/SafeBuffer.cs:319-329 | the byte length is readable exactly when the buffer is initialized; otherwise InvalidOperation |
| SafeBuffers.SafeBuffer.Initialize | MonoLib/System.Runtime.InteropServices/SafeBuffer.cs:34-46 | a size that is accepted becomes the byte length; a refused one leaves the buffer as it was |
| SafeBuffers.SafeBuffer.InitializeElements | MonoLib/System.Runtime.InteropServices/SafeBuffer.cs:53-68 | the element-count form stores the product when it fits, and fails with Overflow or ArgumentOutOfRange, changing nothing, when it does not |
| SafeBuffers.SafeBuffer.AcquirePointer | MonoLib/System.Runtime.InteropServices/SafeBuffer.cs:140-156 | on an initialized buffer it returns the handle and adds one to the reference count; otherwise InvalidOperation with the count unchanged |
| SafeBuffers.SafeBuffer.ReleasePointer | MonoLib/System.Runtime.InteropServices/SafeBuffer.cs:159-165 | on an initialized buffer it takes one off the reference count; otherwise InvalidOperation |
| SafeBuffers.SafeBuffer.ScatterIn | MonoLib/System.Runtime.InteropServices/SafeBuffer.cs:404-416 | the write loop of WriteArray leaves memory equal to Scatter of the elements |
| SafeBuffers.SafeBuffer.GatherIn | MonoLib/System.Runtime.InteropServices/SafeBuffer.cs:476-489 | the read loop of ReadArray fills exactly dest[index..index+n) with Gather of memory |
| SafeBuffers.SafeBuffer.Write | MonoLib/System.Runtime.InteropServices/SafeBuffer.cs:429-451 | Write<T>: InvalidOperation before Initialize and Argument past the end, with memory unchanged in both cases; otherwise the value's bytes are spliced in at PointerOffset(byteOffset), which in a 32-bit process is the offset's low 32 bits (an offset of 2^32 writes at byte 0); the reference count is restored |
| SafeBuffers.SafeBuffer.Read | MonoLib/System.Runtime.InteropServices/SafeBuffer.cs:502-527 | Read<T>: the same errors as Write; on success, the sizeof(T) bytes at PointerOffset(byteOffset), the 32-bit-wrapped offset in a 32-bit process |
| SafeBuffers.SafeBuffer.WriteArray | MonoLib/System.Runtime.InteropServices/SafeBuffer.cs:383-417 | the argument errors first (null, negative index or count, a range past the array), then InvalidOperation, then Argument when count aligned elements do not fit; the bound and the stores use PointerOffset(byteOffset), wrapped to 32 bits in a 32-bit process; on success memory is Scatter of elems[index..index+count) at the aligned stride |
| SafeBuffers.SafeBuffer.ReadArray | MonoLib/System.Runtime.InteropServices/SafeBuffer.cs:455-490 | the same error order as WriteArray; the bound and the loads use PointerOffset(byteOffset); on success exactly elems[index..index+count) is replaced by Gather of memory |
| UnmanagedMemoryStreams.ReadCount | MonoLib/System.IO/UnmanagedMemoryStreamEx.cs:456-466 | Read transfers min(count, length - position) bytes, and none at or past the end |
| UnmanagedMemoryStreams.SeekTarget | MonoLib/System.IO/UnmanagedMemoryStreamEx.cs:573-606 | Seek's target for Begin, Current and End: an IOError when the target would be negative, and an Argument error for an unknown origin |
| UnmanagedMemoryStreams.NoWrapMeansInRange | MonoLib/System.IO/UnmanagedMemoryStreamEx.cs:268-269 | the pointer wrap-around test is exactly "address + capacity stays inside the address space" |
| UnmanagedMemoryStreams.PointerInitError | MonoLib/System.IO/UnmanagedMemoryStreamEx.cs:260-273 | the pointer form of Initialize accepts exactly a present pointer, 0 <= length <= capacity, no wrap-around, a valid access, and a stream not already open |
| UnmanagedMemoryStreams.BufferInitError | MonoLib/System.IO/UnmanagedMemoryStreamEx.cs:164-189 | the SafeBuffer form accepts exactly a present buffer, a non-negative offset and length within its byte length, a valid access, and a stream not already open |
| UnmanagedMemoryStreams.NoGap | MonoLib/System.IO/UnmanagedMemoryStreamEx.cs:671-676 | a write that starts inside the data clears nothing: it is a plain splice |
| UnmanagedMemoryStreams.WriteGap | MonoLib/System.IO/UnmanagedMemoryStreamEx.cs:671-676 | a write that starts past the end zeroes the gap between the old length and the write position |
| UnmanagedMemoryStreams.AfterWrite | MonoLib/System.IO/UnmanagedMemoryStreamEx.cs:667-719 | a write keeps the size of the region |
| UnmanagedMemoryStreams.ReadAfterWrite | MonoLib/System.IO/UnmanagedMemoryStreamEx.cs:640-722 | reading back at the position of a write returns exactly the bytes written |
| UnmanagedMemoryStreams.LoadFromBuffer | MonoLib/System.IO/UnmanagedMemoryStreamEx.cs:469-495 | a read through a SafeBuffer acquires and then releases the pointer, so the reference count is restored, and the bytes are copied out |
| UnmanagedMemoryStreams.StoreToBuffer | MonoLib/System.IO/UnmanagedMemoryStreamEx.cs:686-719 | a write through a SafeBuffer restores the reference count and splices the bytes in |
| UnmanagedMemoryStreams.StoreByteToBuffer | MonoLib/System.IO/UnmanagedMemoryStreamEx.cs:792-818 | a one-byte write through a SafeBuffer restores the reference count and sets that byte |
| UnmanagedMemoryStreams.UnmanagedMemoryStream.constructor | MonoLib/System.IO/UnmanagedMemoryStreamEx.cs:125-132 | a new stream is closed, with no memory, at position 0 |
| UnmanagedMemoryStreams.UnmanagedMemoryStream.CanRead | MonoLib/System.IO/UnmanagedMemoryStreamEx.cs:288-292 | readable exactly when open with Read or ReadWrite access |
| UnmanagedMemoryStreams.UnmanagedMemoryStream.CanWrite | MonoLib/System.IO/UnmanagedMemoryStreamEx.cs:300-304 | writable exactly when open with Write or ReadWrite access |
| UnmanagedMemoryStreams.UnmanagedMemoryStream.Bytes | MonoLib/System.IO/UnmanagedMemoryStreamEx.cs:469-495 | the n stream bytes from a position are the region bytes at offset + position onwards |
| UnmanagedMemoryStreams.UnmanagedMemoryStream.InitializePointer | MonoLib/System.IO/UnmanagedMemoryStreamEx.cs:258-286 | fails exactly with PointerInitError's exception and changes nothing; on success the stream is open at offset 0 with the given address, length, capacity and access; its bytes are the pointer's block, or, when a SafeBuffer set up earlier is still held, that buffer's memory |
| UnmanagedMemoryStreams.UnmanagedMemoryStream.InitializeBuffer | MonoLib/System.IO/UnmanagedMemoryStreamEx.cs:162-225 | BufferInitError's exception, then Argument when the buffer's address range wraps around; on success the stream is open over the buffer at the offset, with capacity equal to the length |
| UnmanagedMemoryStreams.UnmanagedMemoryStream.Dispose | MonoLib/System.IO/UnmanagedMemoryStreamEx.cs:307-316 | afterwards _mem is null, the stream cannot read, write or seek, and Length, Capacity, Position and Flush all throw ObjectDisposed |
| UnmanagedMemoryStreams.UnmanagedMemoryStream.SetPosition | MonoLib/System.IO/UnmanagedMemoryStreamEx.cs:371-386 | ArgumentOutOfRange for a negative value and ObjectDisposed when closed; in a WIN32 build also ArgumentOutOfRange above Int32.MaxValue or when _mem + value wraps the 32-bit address space; the position is unchanged on error and becomes the value otherwise |
| UnmanagedMemoryStreams.UnmanagedMemoryStream.CopyOut | MonoLib/System.IO/UnmanagedMemoryStreamEx.cs:469-495 | copies the n bytes at the position into dest at off |
| UnmanagedMemoryStreams.UnmanagedMemoryStream.StoreIn | MonoLib/System.IO/UnmanagedMemoryStreamEx.cs:686-719 | splices the source bytes into the region at offset + pos |
| UnmanagedMemoryStreams.UnmanagedMemoryStream.StoreByte | MonoLib/System.IO/UnmanagedMemoryStreamEx.cs:792-818 | sets the one byte at offset + pos |
| UnmanagedMemoryStreams.UnmanagedMemoryStream.Read | MonoLib/System.IO/UnmanagedMemoryStreamEx.cs:439-498 | the argument errors, then ObjectDisposed, then NotSupported, each changing nothing; otherwise it returns ReadCount bytes, copies them from the position into dest at off, and advances the position by that many |
| UnmanagedMemoryStreams.UnmanagedMemoryStream.ReadByte | MonoLib/System.IO/UnmanagedMemoryStreamEx.cs:532-571 | -1 at or past the end; otherwise the byte at the position, and the position advances by one |
| UnmanagedMemoryStreams.UnmanagedMemoryStream.Seek | MonoLib/System.IO/UnmanagedMemoryStreamEx.cs:573-607 | ObjectDisposed when closed; otherwise the result is SeekTarget, and the position moves exactly on success |
| UnmanagedMemoryStreams.UnmanagedMemoryStream.Grow | MonoLib/System.IO/UnmanagedMemoryStreamEx.cs:625-632 | growing zeroes the bytes between the old length and the new end, and the length never shrinks |
| UnmanagedMemoryStreams.UnmanagedMemoryStream.SetLength | MonoLib/System.IO/UnmanagedMemoryStreamEx.cs:610-637 | the error order: ArgumentOutOfRange, NotSupported over a buffer, ObjectDisposed, NotSupported when not writable, IOError past the capacity; on success the length is the value, the position is clamped to it, and any growth is zero-filled |
| UnmanagedMemoryStreams.UnmanagedMemoryStream.PlaceBytes | MonoLib/System.IO/UnmanagedMemoryStreamEx.cs:667-719 | the body of Write: the region becomes AfterWrite (gap zeroed, bytes spliced), and the length becomes the furthest byte written |
| UnmanagedMemoryStreams.UnmanagedMemoryStream.PlaceBytesInPointer | MonoLib/System.IO/UnmanagedMemoryStreamEx.cs:667-684 | the pointer branch of Write zeroes the gap, moves the bytes in, and extends the length |
| UnmanagedMemoryStreams.UnmanagedMemoryStream.PlaceByte | MonoLib/System.IO/UnmanagedMemoryStreamEx.cs:777-818 | the body of WriteByte: AfterWrite of one byte |
| UnmanagedMemoryStreams.UnmanagedMemoryStream.PlaceByteInPointer | MonoLib/System.IO/UnmanagedMemoryStreamEx.cs:776-816 | the pointer branch of WriteByte: at or past the end it zeroes the gap and raises Length, then stores the byte; the region is AfterWrite of one byte |
| UnmanagedMemoryStreams.UnmanagedMemoryStream.Write | MonoLib/System.IO/UnmanagedMemoryStreamEx.cs:640-722 | the argument errors, ObjectDisposed, NotSupported when not writable, IOError on 64-bit overflow, NotSupported past the capacity, each changing nothing; on success the position advances by count, the length extends, and the region is AfterWrite |
| UnmanagedMemoryStreams.UnmanagedMemoryStream.WriteByte | MonoLib/System.IO/UnmanagedMemoryStreamEx.cs:757-820 | the same errors for one byte; on success the byte is stored at the position, which then advances |
| Win32Native.TimeZoneInformationOf | MonoLib/Microsoft.Win32/Win32Native.cs:72-81 | the conversion from DYNAMIC_TIME_ZONE_INFORMATION copies every field |
| Win32Native.RegistryTimeZoneInformationOf | MonoLib/Microsoft.Win32/Win32Native.cs:128-135 | the conversion to the registry form keeps the three biases and both dates |
| Win32Native.RegistryFromDynamic | MonoLib/Microsoft.Win32/Win32Native.cs:128-135 | the two conversions composed keep the biases and the dates |
| Win32Native.RegistryTimeZoneInformationFromBytes | MonoLib/Microsoft.Win32/Win32Native.cs:137-163 | the blob decoder accepts exactly a present 44-byte array; anything else is Argument |
| Win32Native.RegistryDecodeEncode | MonoLib/Microsoft.Win32/Win32Native.cs:137-163 | decoding the 44-byte layout of a value gives the value back |
| Win32Native.RegistryEncodeDecode | MonoLib/Microsoft.Win32/Win32Native.cs:137-163 | every 44-byte blob decodes, and re-encoding gives the same bytes |
| Win32Native.SystemTimeRoundTrip | MonoLib/Microsoft.Win32/Win32Native.cs:147-154 | the eight 16-bit SYSTEMTIME fields read back from their 16 bytes |
| Win32Native.SystemTimeBytesOf | MonoLib/Microsoft.Win32/Win32Native.cs:147-154 | every 16-byte window is the encoding of the SYSTEMTIME read from it |
| Win32Native.TicksRoundTrip | MonoLib/Microsoft.Win32/Win32Native.cs:288-297 | splitting a 64-bit value into FILETIME halves and joining them gives it back |
| Win32Native.FileTimeRoundTrip | MonoLib/Microsoft.Win32/Win32Native.cs:288-297 | joining FILETIME halves and splitting them gives them back |
| Win32Native.RecombineIsJoin | MonoLib/Microsoft.Win32/Win32Native.cs:1581 | SetFilePointer's recombination of the halves is the FILETIME join |
| Win32Native.SeekHalvesRecombine | MonoLib/Microsoft.Win32/Win32Native.cs:1573-1581 | the low and high halves passed to the kernel recombine into the requested 64-bit offset |
| Win32Native.SetFilePointer | MonoLib/Microsoft.Win32/Win32Native.cs:1570-1582 | -1 together with the error code when the kernel reports failure (-1 and a nonzero last error); otherwise the joined position and hr 0 |
| Win32Native.SetFilePointerToOffset | MonoLib/Microsoft.Win32/Win32Native.cs:1570-1582 | with a kernel that echoes its arguments, SetFilePointer from the beginning lands exactly on the offset |
| Win32Native.MakeHRIsFailure | MonoLib/Microsoft.Win32/Win32Native.cs:1648-1651 | MakeHRFromErrorCode always gives a failure HRESULT (negative) |
| Win32Native.MakeHRWin32Code | MonoLib/Microsoft.Win32/Win32Native.cs:1648-1651 | for a 16-bit error code the HRESULT is 0x80070000 + code, and the low 16 bits give the code back |
| Win32Native.NulTerminated | MonoLib/Microsoft.Win32/Win32Native.cs:609-618 | the file name is the prefix up to the first NUL, or the whole buffer when there is none |
| Win32Native.RelativeDirectoryNames | MonoLib/Microsoft.Win32/Win32Native.cs:620-643 | IsRelativeDirectory holds exactly for "." and ".." |
| Win32Native.IsFileIsDirectoryBitClear | MonoLib/Microsoft.Win32/Win32Native.cs:645 | IsFile holds exactly when FILE_ATTRIBUTE_DIRECTORY (0x10) is clear |
| Win32Native.NormalDirectoryIsNamedDirectory | MonoLib/Microsoft.Win32/Win32Native.cs:647-658 | a normal directory is a directory that is neither "." nor ".."; nothing is both a file and a normal directory |
| Win32Native.PopulateFrom | MonoLib/Microsoft.Win32/Win32Native.cs:271-279 | copies the attributes and the three times from the find data |
| Win32Native.PopulateFromIgnoresName | MonoLib/Microsoft.Win32/Win32Native.cs:271-279 | the result does not depend on the file name |
| IOErrors.GetFileName | MonoLib/System.IO/__Error.cs:147 | the file name is the longest suffix with no separator, and a separator comes just before it |
| IOErrors.GetDisplayablePath | MonoLib/System.IO/__Error.cs:87-152 | the displayable path is null exactly when the path is |
| IOErrors.DisplayablePathShown | MonoLib/System.IO/__Error.cs:87-152 | a path that is not fully qualified, or that the caller may discover, is shown in full |
| IOErrors.HiddenPathShowsNoDirectory | MonoLib/System.IO/__Error.cs:87-152 | a hidden path shows no separator: the directory placeholder for a trailing separator, else only the file name, which is shorter than a fully qualified path |
| IOErrors.WinIOErrorClass | MonoLib/System.IO/__Error.cs:166-244 | each error code maps to its exception class; an IOException exactly carries the error's HRESULT |
| IOErrors.WinIOErrorNullPath | MonoLib/System.IO/__Error.cs:166-244 | a null path fails with NullReference exactly for the six codes whose message formats the path |
| IOErrors.ExistsWithoutPathIsDefault | MonoLib/System.IO/__Error.cs:205-236 | ALREADY_EXISTS and FILE_EXISTS with an empty path fall through to the default IOException with the system message |
| IOErrors.WinIOErrorHResult | MonoLib/System.IO/__Error.cs:166-244 | every HRESULT WinIOError attaches is a failure whose low 16 bits are the error code |
| IOErrors.WinIOErrorHidesDirectories | MonoLib/System.IO/__Error.cs:166-244 | a path the caller may not discover is never shown with a directory in the message |
| IOErrors.StreamIsClosed | MonoLib/System.IO/__Error.cs:40-43 | throws ObjectDisposed |
| IOErrors.ReadNotSupported | MonoLib/System.IO/__Error.cs:45-48 | throws NotSupported |
| IOErrors.SeekNotSupported | MonoLib/System.IO/__Error.cs:50-53 | throws NotSupported |
| IOErrors.WriteNotSupported | MonoLib/System.IO/__Error.cs:246-249 | throws NotSupported |
| Calendar.DaysInMonth | MonoLib/System/TimeZoneInfo.cs:549 | DateTime.DaysInMonth is between 28 and 31 and is the step between consecutive month starts |
| Calendar.DayOfWeek | MonoLib/System/TimeZoneInfo.cs:550 | DateTime.DayOfWeek is in 0..6 (Sunday..Saturday) |
| Calendar.WeekdayOf | MonoLib/System/TimeZoneInfo.cs:549-550 | the weekday of a calendar date is in 0..6 |
| Calendar.NewDate | MonoLib/System/TimeZoneInfo.cs:569 | new DateTime(y, m, d, h, mi, s, ms, kind) succeeds exactly for a valid date and time of day, with that kind; otherwise ArgumentOutOfRange |
| Calendar.NewDateDay | MonoLib/System/TimeZoneInfo.cs:550 | the constructed date lies on its day number, and its DayOfWeek is the calendar weekday of (y, m, d) |
| Calendar.WeekdayStep | MonoLib/System/TimeZoneInfo.cs:556-566 | k days later the weekday has moved by k mod 7 |
| Calendar.Clamp | MonoLib/System/TimeZoneInfo.cs:1203-1214 | ticks are clamped to [DateTime.MinValue, DateTime.MaxValue] |
| Calendar.TimeSpanTicks | MonoLib/System/TimeZoneInfo.cs:56-61 | new TimeSpan(h, m, s) succeeds exactly when the total seconds fit, and is that many ticks |
| Calendar.MinutesFit | MonoLib/System/TimeZoneInfo.cs:272-274 | new TimeSpan(0, minutes, 0) never fails for an int32 number of minutes |
| Calendar.TimeSpanHours | MonoLib/System/TimeZoneInfo.cs:344 | TimeSpan.Hours lies in -23..23 and has the sign of the span |
| TimeZones.SystemTimeStruct.constructor | MonoLib/System/TimeZoneInfo.cs:89-99 | a default SYSTEMTIME has all eight fields zero |
| TimeZones.SystemTimeStruct.SetInfo | MonoLib/System/TimeZoneInfo.cs:105-117 | Argument, changing nothing, unless the array has exactly 16 bytes; otherwise the eight fields are the little-endian 16-bit words |
| TimeZones.TimeZoneInformationStruct.constructor | MonoLib/System/TimeZoneInfo.cs:141-151 | a default TIME_ZONE_INFORMATION has zero biases, no names, and two distinct all-zero SYSTEMTIMEs |
| TimeZones.CopyWindow | MonoLib/System/TimeZoneInfo.cs:167 | Array.Copy of 16 bytes from `at` fills the helper with exactly that window |
| TimeZones.TimeZoneInformationStruct.SetBytes | MonoLib/System/TimeZoneInfo.cs:160-173 | NullReference for null, Argument unless there are exactly 44 bytes, each changing nothing; otherwise the three biases at 0, 4 and 8 and the two SYSTEMTIMEs at 12 and 28, with the names unchanged |
| TimeZones.TziDecodersAgree | MonoLib/System/TimeZoneInfo.cs:160-173 | TimeZoneInfo's own TZI decoder and Win32Native's decoder read the same fields from the same 44 bytes |
| TimeZones.SetBytesReadsRegistryBlob | MonoLib/System/TimeZoneInfo.cs:160-173 | SetBytes on the registry encoding of a value reads that value back |
| TimeZones.FirstDay | MonoLib/System/TimeZoneInfo.cs:550-560 | the first day of the month that falls on the requested weekday is in 1..7 |
| TimeZones.RuleDay | MonoLib/System/TimeZoneInfo.cs:550-566 | the day the rule picks, as written or corrected, is a day of that month |
| TimeZones.OccurrenceDay | MonoLib/System/TimeZoneInfo.cs:562-566 | the week loop stops on the n-th occurrence, or on the last one in the month when there are fewer than n |
| TimeZones.AdvanceWeeks | MonoLib/System/TimeZoneInfo.cs:562-566 | the while loop computes OccurrenceDay |
| TimeZones.DateRule | MonoLib/System/TimeZoneInfo.cs:542-570 | the corrected rule succeeds exactly for wDay in 1..5, a weekday in 0..6, a valid month and time; otherwise ArgumentOutOfRange |
| TimeZones.DateRuleAsWritten | MonoLib/System/TimeZoneInfo.cs:542-570 | the rule as written has the same domain and errors |
| TimeZones.CreateDateAsWritten | MonoLib/System/TimeZoneInfo.cs:542-570 | CreateDate as written computes DateRuleAsWritten |
| TimeZones.CreateDate | MonoLib/System/TimeZoneInfo.cs:542-570 | CreateDate with the first-day formula corrected computes DateRule |
| TimeZones.DateRuleIsNthWeekday | MonoLib/System/TimeZoneInfo.cs:542-570 | the corrected date is a local date in that month, on the requested weekday, and in week wDay (or in the last week when the month has fewer) |
| TimeZones.AsWrittenMissesWeekday | MonoLib/System/TimeZoneInfo.cs:559-560 | as written, whenever the requested weekday comes before the first day's weekday (and that weekday is not Thursday), the date is on the wrong weekday |
| TimeZones.FirstMondayOfOctober2025 | MonoLib/System/TimeZoneInfo.cs:559-560 | the first Monday of October 2025: as written gives Saturday 4 October; corrected gives Monday 6 October |
| TimeZones.TransitionRuleWeekday | MonoLib/System/TimeZoneInfo.cs:573-605 | as the code reads, a recurring rule (wYear 0) gives a local date within the rule's month; it is on the rule's weekday exactly when that weekday is Sunday, not before the 1st's weekday, or the 1st is a Thursday, and then it equals the corrected transition |
| TimeZones.InMonthAsWritten | MonoLib/System/TimeZoneInfo.cs:542-570 | CreateDate as written gives a local date within the requested month |
| TimeZones.CorrectedTransitionOnWeekday | MonoLib/System/TimeZoneInfo.cs:573-605 | with CreateDate corrected as in the first Findings row, a recurring rule always gives a date on the rule's weekday within its month |
| TimeZones.TransitionDate | MonoLib/System/TimeZoneInfo.cs:573-588 | MinValue when wMonth is 0; the fixed date when wYear is set; otherwise CreateDate as written (DateRuleAsWritten) for the year |
| TimeZones.GetStartDate | MonoLib/System/TimeZoneInfo.cs:573-588 | daylight time starts at the as-written transition of daylightDate |
| TimeZones.GetEndDate | MonoLib/System/TimeZoneInfo.cs:590-605 | daylight time ends at the as-written transition of standardDate |
| TimeZones.TimeZoneInfo.constructor | MonoLib/System/TimeZoneInfo.cs:333-345 | the private constructor stores the id and both names, and takes the bias from baseUtcOffset.Hours; both biases are zero |
| TimeZones.CreateCustomTimeZone | MonoLib/System/TimeZoneInfo.cs:713-726 | a custom zone has the standard name as its daylight name too, so it has no daylight saving |
| TimeZones.BaseUtcOffset | MonoLib/System/TimeZoneInfo.cs:56-70 | the base offset is standardBias hours, or ArgumentOutOfRange when that overflows a TimeSpan |
| TimeZones.CurrentUtcOffset | MonoLib/System/TimeZoneInfo.cs:266-276 | the current offset is a whole number of minutes within the int32 range: -bias outside daylight time |
| TimeZones.ConvertUtcToTimeZone | MonoLib/System/TimeZoneInfo.cs:1182-1218 | ticks + offset, clamped to the DateTime range, of kind Unspecified |
| TimeZones.ConvertTimeZoneToUtc | MonoLib/System/TimeZoneInfo.cs:1220-1256 | ticks - offset, clamped, of kind Unspecified |
| TimeZones.ZoneConversionRoundTrip | MonoLib/System/TimeZoneInfo.cs:1182-1256 | within range, converting to a zone and back, or back and then to the zone, is the identity |
| TimeZones.ConvertUtcToTimeZoneMonotone | MonoLib/System/TimeZoneInfo.cs:1182-1218 | conversion preserves the order of instants |
| TimeZones.CachedData.constructor | MonoLib/System/TimeZoneInfo.cs:729-734 | a new cache has neither a Utc nor a Local zone |
| TimeZones.CachedData.GetCorrespondingKind | MonoLib/System/TimeZoneInfo.cs:807-844 | Utc exactly for the cached Utc object, Local exactly for the cached Local one (reference equality), else Unspecified |
| TimeZones.CachedData.Utc | MonoLib/System/TimeZoneInfo.cs:775-805 | the cached Utc zone, created once as the custom zone "UTC" with zero offset and then kept |
| TimeZones.CachedData.Local | MonoLib/System/TimeZoneInfo.cs:736-773 | the cached Local zone, created once from the system zone's names and then kept |
| TimeZones.ConvertTimeChecks | MonoLib/System/TimeZoneInfo.cs:1020-1095 | ConvertTime's errors in order: ArgumentNull, then Argument for a Kind mismatch unless NoThrowOnInvalidTime, then the base offset's ArgumentOutOfRange |
| TimeZones.ConvertTimeSameZone | MonoLib/System/TimeZoneInfo.cs:1072-1078 | Local to Local and Utc to Utc hand the DateTime back unchanged |
| TimeZones.ConvertTimeShifts | MonoLib/System/TimeZoneInfo.cs:1020-1180 | otherwise the result is the instant moved to UTC by the source offset and then shifted by the destination offset, clamped, with the destination's kind |
| TimeZones.ConvertTimeOffset | MonoLib/System/TimeZoneInfo.cs:909-936 | ArgumentNull for a null destination |
| TimeZones.ConvertTimeOffsetKeepsInstant | MonoLib/System/TimeZoneInfo.cs:909-936 | the DateTimeOffset form saturates at MinValue and MaxValue; in range it keeps the same instant with the destination's offset |
| TimeZones.TimeZoneInfoStatics.constructor | MonoLib/System/TimeZoneInfo.cs:1263 | the static cache starts empty |
| TimeZones.TimeZoneInfoStatics.ClearCachedData | MonoLib/System/TimeZoneInfo.cs:852-856 | a fresh, empty cache replaces the old one |
| TimeZones.TimeZoneInfoStatics.ConvertToZone | MonoLib/System/TimeZoneInfo.cs:938-984 | ArgumentNull for a null destination; a DateTime of ticks 0 first clears the cache; the source is the cached Utc or Local zone by Kind, and the rest is ConvertTime |
| TimeZones.FindSystemTimeZoneById | MonoLib/System/TimeZoneInfo.cs:1304-1325 | "UTC" in any case gives Utc; null is ArgumentNull; an empty, over-255-character or NUL-containing id is TimeZoneNotFound; any other id goes to the registry |
| TimeZones.UtcIdIgnoresCase | MonoLib/System/TimeZoneInfo.cs:1309-1312 | "utc" and "Utc" find Utc; "UTC " does not |
| TimeZones.OrdinalAntisymmetric | MonoLib/System/TimeZoneInfo.cs:1431 | the display-name comparison is antisymmetric |
| TimeZones.OrdinalZeroIsEqual | MonoLib/System/TimeZoneInfo.cs:1431 | it is zero exactly for equal names |
| TimeZones.OrdinalTransitive | MonoLib/System/TimeZoneInfo.cs:1431 | it is transitive |
| TimeZones.Compare | MonoLib/System/TimeZoneInfo.cs:1428-1437 | NullReference when either zone is null; otherwise the key comparison on (bias, display name) |
| TimeZones.CompareKeysIsOrder | MonoLib/System/TimeZoneInfo.cs:1428-1437 | larger bias sorts first, ties go by display name, the comparison is antisymmetric, and it is zero only for equal keys |
| TimeZones.CompareKeysTransitive | MonoLib/System/TimeZoneInfo.cs:1428-1437 | the comparer is transitive, so Sort gets a total order |
| TimeZones.OrdinalCompare | MonoLib/System/TimeZoneInfo.cs:1431 | the display-name comparison returns -1, 0 or 1 |
| MemoryMappedFiles.GetPageAccess | MonoLib/System.IO/MemoryMappedFile.cs:320-346 | the PAGE_* protection for each access; Write has none and is ArgumentOutOfRange |
| MemoryMappedFiles.GetFileMapAccess | MonoLib/System.IO/MemoryMappedFile.cs:490-521 | the FILE_MAP_* rights for each of the six accesses |
| MemoryMappedFiles.GetFileAccess | MonoLib/System.IO/MemoryMappedFile.cs:526-556 | the FileAccess for each access |
| MemoryMappedFiles.GetFileStreamFileSystemRights | MonoLib/System.IO/MemoryMappedFile.cs:700-724 | the FileSystemRights for each access |
| MemoryMappedFiles.AccessTablesAgree | MonoLib/System.IO/MemoryMappedFile.cs:490-556 | the four tables agree: write, execute and read rights line up, and so do page protection and file access |
| MemoryMappedFiles.CapacityHalvesRecombine | MonoLib/System.IO/MemoryMappedFile.cs:253-254 | the two int32 halves of the capacity passed to the kernel recombine into the capacity |
| MemoryMappedFiles.SameHalvesAsSeek | MonoLib/System.IO/MemoryMappedFile.cs:253-254 | the capacity split is the same as SetFilePointer's split |
| MemoryMappedFiles.OnlyDelayBit | MonoLib/System.IO/MemoryMappedFile.cs:129 | the options mask test accepts exactly 0 and DelayAllocatePages |
| MemoryMappedFiles.OptionsAllowedValues | MonoLib/System.IO/MemoryMappedFile.cs:129 | the options test on an int32 accepts exactly 0 and DelayAllocatePages |
| MemoryMappedFiles.RightsMaskIsUnion | MonoLib/System.IO/MemoryMappedFile.cs:791 | FullControl with AccessSystemSecurity is the rights mask |
| MemoryMappedFiles.RightsAllowedWithinMask | MonoLib/System.IO/MemoryMappedFile.cs:791 | desired rights are accepted exactly when they lie within that mask |
| MemoryMappedFiles.CreateNewArgsError | MonoLib/System.IO/MemoryMappedFile.cs:98-137 | CreateNew accepts exactly a null or non-empty name, a positive capacity that fits a 32-bit process, a valid access other than Write, allowed options and a valid inheritability |
| MemoryMappedFiles.CreateOrOpenArgsError | MonoLib/System.IO/MemoryMappedFile.cs:180-220 | CreateOrOpen adds that the name must be present, and allows Write; otherwise its checks are CreateNew's |
| MemoryMappedFiles.OpenExistingArgsError | MonoLib/System.IO/MemoryMappedFile.cs:772-794 | OpenExisting accepts exactly a non-empty name, a valid inheritability, and rights within the mask |
| MemoryMappedFiles.MappingRequestFor | MonoLib/System.IO/MemoryMappedFile.cs:241-263 | the CreateFileMapping request carries the capacity halves, the name, the backing file and the inherit flag |
| MemoryMappedFiles.CreateCore | MonoLib/System.IO/MemoryMappedFile.cs:241-285 | success exactly for a valid handle whose last error is not ERROR_ALREADY_EXISTS; otherwise the WinIOError of the last error |
| MemoryMappedFiles.OpenCore | MonoLib/System.IO/MemoryMappedFile.cs:352-377 | success exactly for a valid handle; FILE_NOT_FOUND from CreateOrOpen is Argument; anything else is the WinIOError |
| MemoryMappedFiles.CreateNew | MonoLib/System.IO/MemoryMappedFile.cs:98-145 | the argument errors first; otherwise CreateCore on the kernel's answer to the request |
| MemoryMappedFiles.OpenExisting | MonoLib/System.IO/MemoryMappedFile.cs:772-798 | the argument errors first; otherwise OpenCore with the desired rights |
| MemoryMappedFiles.TryRound | MonoLib/System.IO/MemoryMappedFile.cs:411-459 | one round of the loop: it asks for a retry exactly when CreateFileMapping was denied and OpenFileMapping found nothing; otherwise its result is the outcome of the rounds from this one |
| MemoryMappedFiles.RoundsFrom | MonoLib/System.IO/MemoryMappedFile.cs:390-478 | a handle returned by the retry loop was valid in the round it names, which lies within the 14 rounds |
| MemoryMappedFiles.RetriedRounds | MonoLib/System.IO/MemoryMappedFile.cs:411-470 | the loop retries at most as many times as rounds remain |
| MemoryMappedFiles.RoundOutcome | MonoLib/System.IO/MemoryMappedFile.cs:411-470 | one round: create; stop on success or on an error other than ACCESS_DENIED; then open; stop on success or on an error other than FILE_NOT_FOUND; else retry |
| MemoryMappedFiles.Backoff | MonoLib/System.IO/MemoryMappedFile.cs:461-468 | after n rounds the loop has slept n-1 times (the first round does not sleep) |
| MemoryMappedFiles.BackoffTotal | MonoLib/System.IO/MemoryMappedFile.cs:461-468 | the sleeps are 10, 20, 40, … ms, totalling 10·(2^(n-1) - 1) |
| MemoryMappedFiles.BackoffSleeps | MonoLib/System.IO/MemoryMappedFile.cs:461-468 | the j-th sleep is 10·2^j ms: each sleep doubles the one before it |
| MemoryMappedFiles.BackoffSum | MonoLib/System.IO/MemoryMappedFile.cs:461-468 | the sleeps of n rounds add up to 10·(2^(n-1) - 1) ms |
| MemoryMappedFiles.WaitBound | MonoLib/System.IO/MemoryMappedFile.cs:410 | the total wait is at most 10·(2^13 - 1) ms, as the comment promises ("approximately 1.4 mins") |
| MemoryMappedFiles.CreateOrOpenCore | MonoLib/System.IO/MemoryMappedFile.cs:390-489 | the while loop returns RoundsFrom's outcome, and its sleeps are the Backoff of the retried rounds |
| MemoryMappedFiles.CreateOrOpen | MonoLib/System.IO/MemoryMappedFile.cs:180-234 | the argument errors; Write access only opens (OpenCore with createOrOpen); other access runs the retry loop |
| MemoryMappedFiles.CreateFromFileArgsError | MonoLib/System.IO/MemoryMappedFile.cs:614-645 | CreateFromFile accepts exactly a present path, a null or non-empty name, a non-negative capacity, a valid access other than Write, and a mode other than Append |
| MemoryMappedFiles.FileLengthError | MonoLib/System.IO/MemoryMappedFile.cs:648-672 | the file-length checks: not both empty, Read access no larger than the file, and a capacity not below the file length |
| MemoryMappedFiles.CreateFromFile | MonoLib/System.IO/MemoryMappedFile.cs:614-688 | argument errors open nothing; then the FileStream constructor's exception propagates with nothing opened or deleted; once the stream is open, FileLengthError's exception is thrown with a created file deleted, and otherwise the result is CreateCore on the kernel's answer to the request sized by the capacity, or by the file length when the capacity is 0, a created file being deleted exactly when that fails; a success was made from a file whose length fits the capacity |
| MemoryMappedFiles.MemoryMappedFile.FromHandle | MonoLib/System.IO/MemoryMappedFile.cs:72-75 | a file made from a handle alone has no file stream |
| MemoryMappedFiles.MemoryMappedFile.WithFileStream | MonoLib/System.IO/MemoryMappedFile.cs:78-86 | a file made with a stream remembers leaveOpen |
| MemoryMappedFiles.MemoryMappedFile.Dispose | MonoLib/System.IO/MemoryMappedFile.cs:729-750 | Dispose closes the handle, and closes the stream exactly when there is one and leaveOpen is false |
| ArraySegments.NewSegment | MonoLib/System/ArraySegment.cs:37-45 | ArgumentNull for null; otherwise the whole array |
| ArraySegments.NewSegmentRange | MonoLib/System/ArraySegment.cs:47-62 | ArgumentNull, ArgumentOutOfRange for a negative offset or count, Argument for a window past the end; otherwise that window |
| ArraySegments.WholeArraySegment | MonoLib/System/ArraySegment.cs:37-62 | the one-argument constructor is the ranged one over the whole array |
| ArraySegments.EqualsIsIdentity | MonoLib/System/ArraySegment.cs:121-142 | Equals and == hold exactly for the same array (by reference), offset and count; != is the negation |
| ArraySegments.IndexError | MonoLib/System/ArraySegment.cs:145-167 | InvalidOperation on the default segment, ArgumentOutOfRange for an index outside 0..count-1, else none |
| ArraySegments.Get | MonoLib/System/ArraySegment.cs:145-167 | the element at offset + index, or the index error |
| ArraySegments.Set | MonoLib/System/ArraySegment.cs:145-167 | writes exactly the slot offset + index of the shared array |
| ArraySegments.FirstIndex | MonoLib/System/ArraySegment.cs:169-180 | Array.IndexOf over [lo, hi): -1 when no element equals the item; otherwise an index holding it, with no earlier one |
| ArraySegments.SetThenGet | MonoLib/System/ArraySegment.cs:145-167 | a value set reads back at the same index |
| ArraySegments.IndexOf | MonoLib/System/ArraySegment.cs:169-180 | -1 when the window does not hold the item; otherwise the first position within the window that does |
| ArraySegments.Contains | MonoLib/System/ArraySegment.cs:229-240 | true exactly when some element of the window equals the item |
| ArraySegments.ContainsIsIndexOf | MonoLib/System/ArraySegment.cs:169-240 | Contains is IndexOf >= 0, and the found index reads back as the item |
| ArraySegments.CopyTo | MonoLib/System/ArraySegment.cs:242-248 | Array.Copy's errors (null, negative index, too little room); otherwise exactly the window lands at arrayIndex |
| ArraySegments.ChangeShape | MonoLib/System/ArraySegment.cs:182-253 | Insert, RemoveAt, Add, Clear and Remove are all NotSupported |
| ArraySegments.IsReadOnly | MonoLib/System/ArraySegment.cs:209-217 | always true |
| ArraySegments.AfterMovesClosedForm | MonoLib/System/ArraySegment.cs:292-300 | after k MoveNext calls the cursor is at start - 1 + k, or at the end; the k-th succeeds exactly for k <= count |
| ArraySegments.SegmentEnumerator.constructor | MonoLib/System/ArraySegment.cs:284-290 | a new enumerator stands before the first element |
| ArraySegments.SegmentEnumerator.MoveNext | MonoLib/System/ArraySegment.cs:292-300 | one step of the cursor, true while it is on an element |
| ArraySegments.SegmentEnumerator.Current | MonoLib/System/ArraySegment.cs:302-310 | InvalidOperation before the start and past the end; otherwise the element under the cursor |
| ArraySegments.SegmentEnumerator.Reset | MonoLib/System/ArraySegment.cs:320-323 | back before the first element |
| ArraySegments.GetEnumerator | MonoLib/System/ArraySegment.cs:257-273 | InvalidOperation on the default segment; otherwise a fresh enumerator over the window |
| ArraySegments.Enumerate | MonoLib/System/ArraySegment.cs:277-328 | enumerating yields exactly the window's elements in order, and then MoveNext fails |
| Spans.NewSpan | MonoLib/System/Span.cs:15-20 | NullReference for null; otherwise offset 0 and count data.Length |
| Spans.NewSpanAt | MonoLib/System/Span.cs:22-27 | NullReference for null; the count is data.Length - offSet, wrapped to 32 bits |
| Spans.NewSpanRange | MonoLib/System/Span.cs:29-34 | stores everything as given, checking nothing |
| Spans.Length | MonoLib/System/Span.cs:66-72 | Length is OffSet - len |
| Spans.WholeSpanLength | MonoLib/System/Span.cs:15-72 | a span over a whole array has Length -data.Length, never positive |
| Spans.RangeSpanLength | MonoLib/System/Span.cs:29-72 | Span(data, offSet, length) has Length offSet - length |
| Spans.Get | MonoLib/System/Span.cs:128-133 | NullReference, IndexOutOfRange off the array, else the element at i + OffSet |
| Spans.Set | MonoLib/System/Span.cs:134-137 | writes exactly the slot i + OffSet |
| Spans.Slice | MonoLib/System/Span.cs:74-77 | Span(_data, offset + OffSet), whose count is recomputed from the whole array |
| Spans.SliceRange | MonoLib/System/Span.cs:79-82 | Span(_data, offset + OffSet, len) |
| Spans.SliceRangeShiftsIndex | MonoLib/System/Span.cs:79-138 | indexing a slice is indexing the span shifted by the slice's offset |
| Spans.SliceShiftsIndex | MonoLib/System/Span.cs:74-138 | the same for the one-argument Slice |
| Spans.SameSlotSameElement | MonoLib/System/Span.cs:128-133 | the getter depends only on the array and the slot |
| Spans.ToArray | MonoLib/System/Span.cs:123-126 | Skip(OffSet).Take(len): the elements from OffSet on, at most len of them; a null array is refused |
| Spans.Contents | MonoLib/System/Span.cs:140-146 | a span's array is present exactly when it is not null, and then is its elements |
| Spans.FindFrom | MonoLib/System/Span.cs:84-97 | the first counter whose element equals the value, -1 at the end, or the indexer's error |
| Spans.IndexOf | MonoLib/System/Span.cs:84-97 | the loop computes FindFrom from 0 to Length |
| Spans.WholeSpanFindsNothing | MonoLib/System/Span.cs:66-97 | with Length as written, IndexOf on a whole-array span returns -1 without reading |
| Spans.CountMatches | MonoLib/System/Span.cs:104-114 | the inner count never exceeds the number of pattern elements examined |
| Spans.SearchFrom | MonoLib/System/Span.cs:99-121 | the outer search returns -1 or a counter within [i, end) |
| Spans.FullCountIsMatch | MonoLib/System/Span.cs:104-114 | the inner count is full exactly when every pattern element matches |
| Spans.CountErrorPersists | MonoLib/System/Span.cs:106-113 | a failed read in the inner loop fails the whole count |
| Spans.SearchCounts | MonoLib/System/Span.cs:99-121 | a non-negative result of the search has a full inner count, and every earlier counter has a count that succeeds but is not full |
| Spans.SearchFindsFirstMatch | MonoLib/System/Span.cs:99-121 | a non-negative result is a full match, and no earlier counter is one |
| Spans.SearchStep | MonoLib/System/Span.cs:99-121 | one round of the search either returns or moves on |
| Spans.CountAt | MonoLib/System/Span.cs:104-113 | the inner loop computes CountMatches |
| Spans.IndexOfSpan | MonoLib/System/Span.cs:99-121 | the outer loop computes SearchFrom |
| Spans.CopyFrom | MonoLib/System/Span.cs:140-146 | CopyTo's loop: each round reads this[i] and writes span[i], including when both spans share an array |
| Spans.CopyStep | MonoLib/System/Span.cs:144 | one round writes exactly one destination slot |
| Spans.CopyTo | MonoLib/System/Span.cs:140-146 | the loop computes CopyFrom from OffSet to Length |
| Spans.CopyFromCopiesWindow | MonoLib/System/Span.cs:140-146 | between distinct arrays, the loop copies the source slots to the destination slots and nothing else |
| Spans.WholeSpanCopiesNothing | MonoLib/System/Span.cs:140-146 | with Length as written, CopyTo from a whole-array span writes nothing |
| Memories.Default | MonoLib/System/Memory.cs:24 | default(Memory<T>): no array, all numbers zero |
| Memories.NewMemory | MonoLib/System/Memory.cs:20-35 | null gives the default; otherwise _length is the array length, and OffSet and len are 0 |
| Memories.NewMemoryAt | MonoLib/System/Memory.cs:36-51 | as NewMemory, with OffSet stored |
| Memories.NewMemoryRange | MonoLib/System/Memory.cs:52-67 | as NewMemory, with OffSet and len stored |
| Memories.Length | MonoLib/System/Memory.cs:89-95 | _length - OffSet - len, in 32 bits |
| Memories.ConstructedLengths | MonoLib/System/Memory.cs:20-95 | the three constructors give Length array.Length, minus offSet, and minus offSet and length |
| Memories.NullGivesDefault | MonoLib/System/Memory.cs:20-67 | every constructor given null is the default |
| Memories.Get | MonoLib/System/Memory.cs:77-82 | NullReference on the default, IndexOutOfRange off the array, else the element at index + OffSet |
| Memories.Set | MonoLib/System/Memory.cs:83-86 | writes exactly the slot index + OffSet |
| Memories.SliceRange | MonoLib/System/Memory.cs:133-137 | Memory(_object, offset, length): the current offset plays no part |
| Memories.Slice | MonoLib/System/Memory.cs:139-143 | Memory(_object, offset) |
| Memories.SliceForgetsOffset | MonoLib/System/Memory.cs:133-143 | a slice of a slice is a slice of the original |
| Memories.SpanOf | MonoLib/System/Memory.cs:68-75 | a span over the whole array; the default fails with NullReference |
| Memories.ToArray | MonoLib/System/Memory.cs:102 | a copy of the entire array whatever the offset and count |
| Memories.CopyTo | MonoLib/System/Memory.cs:114 | NullReference when either side is default; otherwise nothing is written (the whole-array span's Length is never positive) |
| ArrayPools.ArrayPool.constructor | MonoLib/System.Buffers/ArrayPool.cs:12-15 | the default pool has no buckets |
| ArrayPools.ArrayPool.Sized | MonoLib/System.Buffers/ArrayPool.cs:17-32 | an empty bucket for each length 1..maxArraysPerBucket |
| ArrayPools.ArrayPool.Rent | MonoLib/System.Buffers/ArrayPool.cs:50-68 | null for a capacity below 1; otherwise an array of that length, taken from its bucket when there is one, else new and zeroed |
| ArrayPools.ArrayPool.Return | MonoLib/System.Buffers/ArrayPool.cs:70-80 | null and empty arrays are ignored; otherwise the array is cleared and joins the bucket for its length |
| ArrayPools.Create | MonoLib/System.Buffers/ConfigurableArrayPool.cs:16 | ArgumentOutOfRange for a non-positive length or per-bucket count; otherwise a sized pool |
| ArrayPools.ReturnThenRent | MonoLib/System.Buffers/ArrayPool.cs:50-80 | a returned array is the next one rented at its length when its bucket held nothing else, cleared |
| Extensions.ToUInt64 | MonoLib/ExtensionMethods.cs:48-49 | Convert.ToUInt64 of an enum value: Overflow for a negative value, else the value |
| Extensions.HasFlag | MonoLib/ExtensionMethods.cs:40-52 | Argument for different enum types; otherwise (variable & value) == value, with the value converted first |
| Extensions.HasFlagLaws | MonoLib/ExtensionMethods.cs:40-52 | a zero flag is always set, a value has itself as a flag, and a flag of a flag is a flag |
| Extensions.CoversTransitive | MonoLib/ExtensionMethods.cs:51 | the bit test is transitive |
| Extensions.CoversUnion | MonoLib/ExtensionMethods.cs:51 | two set flags are set together |
| Extensions.GroupsAreBigEndian | MonoLib/ExtensionMethods.cs:407-418 | group i is byte 2i high and byte 2i+1 low, and gives them back |
| Extensions.IPAddressNumbers | MonoLib/ExtensionMethods.cs:407-418 | eight groups for an address of at least 16 bytes; IndexOutOfRange for fewer (an IPv4 address) |
| Extensions.Groups | MonoLib/ExtensionMethods.cs:407-418 | an address of at least 16 bytes has eight groups |
| Extensions.MappedAddress | MonoLib/ExtensionMethods.cs:397-398 | the byte-swapped groups 6 and 7 are bytes 12..15 read little-endian, within 32 bits |
| Extensions.IPv4Of | MonoLib/ExtensionMethods.cs:400 | new IPAddress(long) stores the value's four bytes, low first |
| Extensions.MapToIPv4 | MonoLib/ExtensionMethods.cs:389-405 | an IPv4 address is returned unchanged; an IPv6 address becomes the IPv4 address of its last four bytes |
| Extensions.IPv4OfBytes | MonoLib/ExtensionMethods.cs:397-400 | the address built from four bytes holds those bytes |
| Extensions.MapToIPv4Idempotent | MonoLib/ExtensionMethods.cs:389-405 | mapping twice is mapping once |
| Extensions.DecimalString | MonoLib/ExtensionMethods.cs:337 | long.ToString of a non-negative value is a non-empty string of digits |
| Extensions.DecimalStringValue | MonoLib/ExtensionMethods.cs:337 | the digits read back as the number |
| Extensions.AddRange | MonoLib/ExtensionMethods.cs:331-341 | ArgumentNull without a request, then ArgumentOutOfRange for a negative start; otherwise a Range header "bytes=start-end", with end empty when it is before the start |
| Extensions.AddRangeFrom | MonoLib/ExtensionMethods.cs:325 | the two-argument form is AddRange(start, -1): open at the end |
| Extensions.AddRangeReadsBack | MonoLib/ExtensionMethods.cs:331-357 | the header parses back, per section 2.1 of RFC 7233, as the requested start and end (or open) |
| Extensions.DashOfDigits | MonoLib/ExtensionMethods.cs:337 | the dash in the header is found just after the start's digits |
| Extensions.DashAt | MonoLib/ExtensionMethods.cs:337 | the first dash of a header value: no dash before it, and a dash at it unless it is the end |
| Extensions.FirstNameMatch | MonoLib/ExtensionMethods.cs:170-177 | the first name equal to the string ignoring case, or -1 |
| Extensions.TryParse | MonoLib/ExtensionMethods.cs:166-179 | true exactly when some name matches ignoring case; the value of the first match, else the default 0 |
| Extensions.TrimStart | MonoLib/ExtensionMethods.cs:155 | a suffix that drops only white space and starts with a non-white character (or is empty) |
| Extensions.TrimEnd | MonoLib/ExtensionMethods.cs:155 | a prefix that drops only white space and ends with a non-white character (or is empty) |
| Extensions.Trim | MonoLib/ExtensionMethods.cs:155 | string.Trim is empty exactly when every character is white space, and otherwise starts and ends with a non-white character |
| Extensions.IsNullOrWhiteSpace | MonoLib/ExtensionMethods.cs:153-156 | true exactly for null and for strings all of whose characters are white space |
| Extensions.ListedFromIsSearch | MonoLib/ExtensionMethods.cs:124-133 | the interface loop searches the rest of the list for the target or a recursive implementer |
| Extensions.ImplementsLaws | MonoLib/ExtensionMethods.cs:115-137 | a type implements what it lists, what those implement, and what its base implements, and never itself or a later type |
| Extensions.ImplementInterface | MonoLib/ExtensionMethods.cs:115-137 | the base-chain loop with its interface loop computes Implements |
| Extensions.SegmentToArray | MonoLib/ExtensionMethods.cs:158-161 | ToArray(segment) is the segment's whole underlying array; the segment is the project's ArraySegmentList, whose constructor checks match those of System.ArraySegment<T> |
| Extensions.SegmentToArrayIgnoresWindow | MonoLib/ExtensionMethods.cs:158-161 | its length is the segment's count exactly when the segment is the whole array |
| TypeInfos.GetRankString | MonoLib/System.Reflection/TypeInfo.cs:50-58 | IndexOutOfRange exactly for rank <= 0; otherwise a bracketed string of at least 3 characters |
| TypeInfos.RankStringReadsBack | MonoLib/System.Reflection/TypeInfo.cs:50-58 | "[*]" reads back as rank 1 and rank - 1 commas as rank, so different ranks give different strings |
| TypeInfos.IsAssignableFrom | MonoLib/System.Reflection/TypeInfo.cs:79-106 | false for null, true for the type and its subclasses, Implements for an interface, every constraint for a generic parameter |
| TypeInfos.DerivesFromIsBelow | MonoLib/System.Reflection/TypeInfo.cs:88-90 | no type is its own subclass |
| TypeInfos.DerivesFromTransitive | MonoLib/System.Reflection/TypeInfo.cs:88-90 | the subclass relation is transitive |
| TypeInfos.AssignableCases | MonoLib/System.Reflection/TypeInfo.cs:79-106 | never from null, always from itself, from every subclass and implementer; for a plain class, exactly itself and its subclasses |
| TypeInfos.ClassAssignableTransitive | MonoLib/System.Reflection/TypeInfo.cs:79-106 | among plain classes, assignability is transitive |
| DataMemberAttributes.DataMemberAttribute.constructor | MonoLib/System.Runtime.Serialization/DataMemberAttribute.cs:10-18 | no name, not set explicitly, order -1, not required, defaults not emitted |
| DataMemberAttributes.DataMemberAttribute.Order | MonoLib/System.Runtime.Serialization/DataMemberAttribute.cs:31-40 | Order is -1 or non-negative |
| DataMemberAttributes.DataMemberAttribute.SetName | MonoLib/System.Runtime.Serialization/DataMemberAttribute.cs:20-24 | stores the name and marks it set explicitly; nothing else changes |
| DataMemberAttributes.DataMemberAttribute.SetOrder | MonoLib/System.Runtime.Serialization/DataMemberAttribute.cs:31-40 | InvalidDataContract for a negative value, changing nothing; otherwise the order |
| DataMemberAttributes.DataMemberAttribute.SetIsRequired | MonoLib/System.Runtime.Serialization/DataMemberAttribute.cs:42-46 | sets IsRequired only |
| DataMemberAttributes.DataMemberAttribute.SetEmitDefaultValue | MonoLib/System.Runtime.Serialization/DataMemberAttribute.cs:48-52 | sets EmitDefaultValue only |
| DataMemberAttributes.Configure | MonoLib/System.Runtime.Serialization/DataMemberAttribute.cs:20-40 | after any run of setters, IsNameSetExplicitly holds exactly when Name was set, and Order is the last accepted value or -1 |
| Decimals.GetBits | MonoLib/System.IO/DecimalEx.cs:13 | decimal.GetBits gives four parts |
| Decimals.LowByte | MonoLib/System.IO/DecimalEx.cs:17 | the (byte) cast keeps the value modulo 256 |
| Decimals.TruncatedBytes | MonoLib/System.IO/DecimalEx.cs:15-18 | as written GetBytes produces four bytes |
| Decimals.GetBytes | MonoLib/System.IO/DecimalEx.cs:11-38 | as written: buffer[0..4) holds the low byte of each part, and the rest is unchanged |
| Decimals.TruncatedBytesCollide | MonoLib/System.IO/DecimalEx.cs:15-18 | as written, decimals 256 and 0 give the same bytes |
| Decimals.Encode | MonoLib/System.IO/DecimalEx.cs:11-38 | the intended layout is 16 bytes |
| Decimals.DecodeEncode | MonoLib/System.IO/DecimalEx.cs:11-38 | the intended 16-byte layout decodes to the decimal |
| Decimals.EncodeDecode | MonoLib/System.IO/DecimalEx.cs:11-38 | every 16 bytes are the layout of the four parts they decode to (the parts are unconstrained int32 values; a real decimal's flags word is restricted) |
| Decimals.GetBytesCorrected | MonoLib/System.IO/DecimalEx.cs:11-38 | corrected: buffer[0..16) is Encode(d), and the rest is unchanged |

## Left out

- Registry access, `TimeZone.CurrentTimeZone`, `DateTime.Now`/`UtcNow`:
  the registry and the clock are inputs. `FindSystemTimeZoneById` stops
  at the registry lookup. `GetTimeZones`, `FromId`, `FromStandardName`,
  `GetDaylightChanges`, `IsDaylightSavingTime`, `Refresh`/`SetValues` and
  `TryGetTimeZone` read the registry and are not modelled.
  `CurrentUtcOffset` takes "is daylight time" as a parameter.
- Code-access security demands, ACLs and `GetSecAttrs`: they have no
  effect on the values computed.
- Concurrency: `lock`, `volatile` and `Interlocked` operations are
  modelled as plain single-threaded reads and writes.
- Native `memmove`, `CreateFileMapping`, `OpenFileMapping` and
  `SetFilePointer`: specified by their documented effect or taken as
  parameters, not implemented.
- `MemoryMappedFile.CreateViewAccessor`/`CreateViewStream` and the
  `MemoryMappedView` types: they forward to native views.
- `Path.GetFileName`'s invalid-character check in `__Error`: paths are
  assumed to contain only valid characters.
- Culture-sensitive comparison:
  - The zone comparer's `string.CompareTo` is modelled as ordinal.
  - `string.Compare(…, ignoreCase: true)` in `EnumEx.TryParse` and
    `FindSystemTimeZoneById` is modelled as ASCII case folding.
  - Extensions.TryParse: names differing only in non-ASCII case are not
    equated, because culture data is not available.
- `Span(byte[])` and `Span(byte*, int)`: they convert through
  `Cast<T>()` or raw pointers, which are runtime type casts and pointer
  reads.
- The null-subpool branch of `ArrayPool.Rent` (ArrayPool.cs:61-64) is
  unreachable and is not modelled: every bag ever stored in the
  dictionary, by the sized constructor (line 30) or by `Rent` itself
  (line 66), is a new non-null `ConcurrentBag`.
- `TypeExtension.TryParse` (ExtensionMethods.cs:64-77) and the reflection
  helpers around it (`IsDefined`, `GetTypeInfo`) are not modelled: they
  need the runtime's type metadata.
- TypeInfos.IsAssignableFrom: a type universe with ordered identifiers
  stands in for reflection. The framework's `Type.IsAssignableFrom` on a
  constraint is taken to be the same rule, and interface and constraint
  lists are never null.
- Extensions.AddRangeFrom: `request.AddRange(start, -1L)` is modelled as
  the extension method. On runtimes where `HttpWebRequest` has its own
  instance `AddRange(long, long)`, that method is called instead. The
  header is returned rather than written through the reflected
  `Headers.AddWithoutValidate`.
- UnmanagedMemoryStreams.UnmanagedMemoryStream.InitializePointer: when a
  disposed stream that was set up over a SafeBuffer is initialized again
  over a pointer, the kept `_buffer` is modelled only for `length` equal
  to `capacity` within the buffer's memory. With a shorter length the
  SafeBuffer write path, which never extends the length, would leave the
  length behind the data written; that state is not modelled.
- Aliasing of a caller's array with the stream's memory: `Read`, `Write`
  and the copy helpers take the caller's array to be distinct from the
  memory the stream covers (a pinned managed array passed as the
  stream's own block is not modelled).
- `ReadAsync`, `WriteAsync`, `FlushAsync` and the stream's
  `PositionPointer`/`Pointer` properties: tasks and raw pointers.
- `BufferEx.Memmove`'s copy threshold per platform: only the result of
  the move is specified, not which of the native or managed paths runs.
- Of the throw helpers of `__Error`, `StreamIsClosed`, `ReadNotSupported`,
  `SeekNotSupported` and `WriteNotSupported` are modelled as functions
  returning the exception kind; the stream's ObjectDisposed and
  NotSupported results are those kinds.
  `EndOfFile`, `FileNotOpen`, `PipeNotOpen`, `WrongAsyncResult`,
  `EndReadCalledTwice`, `EndWriteCalledTwice`,
  `EndWaitForConnectionCalledTwice` and `OperationAborted` are not
  modelled: nothing in the modelled core calls them. Message text and
  resource lookup are not modelled.
- `Memory<T>.Equals(object)`: its call `Equals(memory)` resolves back to
  itself, so it recurses without end on a `Memory<T>` argument.
  Non-termination is not modelled.
- `SYSTEMTIME.Equals` and `TimeZoneInformation.Equals`: structural
  equality is Dafny's equality on the modelled values.
- Floating point, `SafeHandle` reference counting beyond
  `AcquirePointer`/`ReleasePointer`, and finalizers are not modelled.
- Spans.Length: modelled exactly as `OffSet - len`. The consequences of
  that (IndexOf and CopyTo over a whole array do nothing) are stated as
  lemmas rather than corrected.

## Findings

| source | as written | input that shows it | evidently intended | confidence | as-written member | corrected member |
|---|---|---|---|---|---|---|
| MonoLib/System/TimeZoneInfo.cs:559-560 | when the requested weekday comes before the weekday of the 1st, `day = wDayOfWeek + fDayOfWeek` | first Monday (wDay 1, wDayOfWeek 1) of October 2025, whose 1st is a Wednesday (3): as written it gives the 4th, a Saturday | `day += 7 - (fDayOfWeek - wDayOfWeek)`, the first day on the requested weekday: the 6th, a Monday | high; not executed | TimeZones.FirstMondayOfOctober2025 | TimeZones.DateRuleIsNthWeekday |
| MonoLib/System.IO/DecimalEx.cs:15-18 | `buffer[i] = (byte)intArr[i]` stores only the low byte of each of the four 32-bit parts, in bytes 0..3 | the decimals 256 and 0 leave identical buffers | each part's four bytes, low byte first, at 4·i: sixteen bytes, as the 16-byte precondition and the commented-out layout call for | high; not executed | Decimals.TruncatedBytesCollide | Decimals.DecodeEncode |
