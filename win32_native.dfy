/*******************************************************************************
 *  Win32Native: the structures the library exchanges with Win32 and the bit
 *  arithmetic around them: the time-zone records and the registry's 44-byte
 *  TZI value, FILE_TIME, WIN32_FIND_DATA, SetFilePointer's 64-bit offset and
 *  the HRESULT built from a Win32 error code.
 *
 *  The native calls themselves are parameters: SetFilePointer receives the
 *  kernel's answer as a function of the arguments it passes.
 *******************************************************************************/

module Win32Native {
  import opened Common

  /** SYSTEMTIME as the library declares it: eight Int16 fields. */
  datatype SystemTime = SystemTime(
    year: int16, month: int16, dayOfWeek: int16, day: int16,
    hour: int16, minute: int16, second: int16, milliseconds: int16)

  /** TIME_ZONE_INFORMATION. */
  datatype TimeZoneInformation = TimeZoneInformation(
    bias: int32,
    standardName: string, standardDate: SystemTime, standardBias: int32,
    daylightName: string, daylightDate: SystemTime, daylightBias: int32)

  /** DYNAMIC_TIME_ZONE_INFORMATION: TIME_ZONE_INFORMATION plus the key name and a flag. */
  datatype DynamicTimeZoneInformation = DynamicTimeZoneInformation(
    bias: int32,
    standardName: string, standardDate: SystemTime, standardBias: int32,
    daylightName: string, daylightDate: SystemTime, daylightBias: int32,
    timeZoneKeyName: string, dynamicDaylightTimeDisabled: bool)

  /** REG_TZI_FORMAT, the binary "TZI" value of a zone's registry key. */
  datatype RegistryTimeZoneInformation = RegistryTimeZoneInformation(
    bias: int32, standardBias: int32, daylightBias: int32,
    standardDate: SystemTime, daylightDate: SystemTime)

  /** TimeZoneInformation(dtzi): keeps everything but the key name and the flag. */
  function TimeZoneInformationOf(dtzi: DynamicTimeZoneInformation): (tzi: TimeZoneInformation)
    ensures tzi.bias == dtzi.bias && tzi.standardBias == dtzi.standardBias && tzi.daylightBias == dtzi.daylightBias
    ensures tzi.standardName == dtzi.standardName && tzi.daylightName == dtzi.daylightName
    ensures tzi.standardDate == dtzi.standardDate && tzi.daylightDate == dtzi.daylightDate
  {
    TimeZoneInformation(dtzi.bias, dtzi.standardName, dtzi.standardDate, dtzi.standardBias,
                        dtzi.daylightName, dtzi.daylightDate, dtzi.daylightBias)
  }

  /** RegistryTimeZoneInformation(tzi): keeps the biases and the two transition dates. */
  function RegistryTimeZoneInformationOf(tzi: TimeZoneInformation): (r: RegistryTimeZoneInformation)
    ensures r.bias == tzi.bias && r.standardBias == tzi.standardBias && r.daylightBias == tzi.daylightBias
    ensures r.standardDate == tzi.standardDate && r.daylightDate == tzi.daylightDate
  {
    RegistryTimeZoneInformation(tzi.bias, tzi.standardBias, tzi.daylightBias, tzi.standardDate, tzi.daylightDate)
  }

  /** The two constructors in a row carry the dynamic record's biases and dates unchanged. */
  lemma RegistryFromDynamic(dtzi: DynamicTimeZoneInformation)
    ensures var r := RegistryTimeZoneInformationOf(TimeZoneInformationOf(dtzi));
      r.bias == dtzi.bias && r.standardBias == dtzi.standardBias && r.daylightBias == dtzi.daylightBias &&
      r.standardDate == dtzi.standardDate && r.daylightDate == dtzi.daylightDate
  {
  }

  /** The size of a REG_TZI_FORMAT value. */
  const RegTziSize: nat := 44

  /** Eight little-endian Int16 at `i`, `i` + 2, ..., `i` + 14. */
  function SystemTimeAt(b: seq<byte>, i: nat): (t: SystemTime)
    requires i + 16 <= |b|
  {
    SystemTime(LeInt16(b, i), LeInt16(b, i + 2), LeInt16(b, i + 4), LeInt16(b, i + 6),
               LeInt16(b, i + 8), LeInt16(b, i + 10), LeInt16(b, i + 12), LeInt16(b, i + 14))
  }

  /**
   * RegistryTimeZoneInformation(bytes): a missing value or one that is not
   * exactly 44 bytes long is an ArgumentException; otherwise three Int32 at
   * 0, 4 and 8, then the standard date at 12 and the daylight date at 28.
   */
  function RegistryTimeZoneInformationFromBytes(bytes: Option<seq<byte>>): (r: Result<RegistryTimeZoneInformation>)
    ensures r.Ok? <==> bytes.Some? && |bytes.value| == RegTziSize
    ensures r.Err? ==> r.error == Argument
  {
    if bytes.None? || |bytes.value| != RegTziSize then Err(Argument)
    else
      var b := bytes.value;
      Ok(RegistryTimeZoneInformation(LeInt32(b, 0), LeInt32(b, 4), LeInt32(b, 8),
                                     SystemTimeAt(b, 12), SystemTimeAt(b, 28)))
  }

  /** The 16 bytes of a SYSTEMTIME: its fields in declaration order, each low byte first. */
  function SystemTimeBytes(t: SystemTime): (b: seq<byte>)
    ensures |b| == 16
  {
    LeBytes16(t.year) + LeBytes16(t.month) + LeBytes16(t.dayOfWeek) + LeBytes16(t.day) +
    LeBytes16(t.hour) + LeBytes16(t.minute) + LeBytes16(t.second) + LeBytes16(t.milliseconds)
  }

  /** The REG_TZI_FORMAT value that holds `info`: the layout the decoder reads. */
  function RegistryBlob(info: RegistryTimeZoneInformation): (b: seq<byte>)
    ensures |b| == RegTziSize
  {
    LeBytes32(info.bias) + LeBytes32(info.standardBias) + LeBytes32(info.daylightBias) +
    SystemTimeBytes(info.standardDate) + SystemTimeBytes(info.daylightDate)
  }

  /** Where eight 2-byte pieces lie in their concatenation. */
  lemma Layout16(p0: seq<byte>, p1: seq<byte>, p2: seq<byte>, p3: seq<byte>,
                 p4: seq<byte>, p5: seq<byte>, p6: seq<byte>, p7: seq<byte>)
    requires |p0| == |p1| == |p2| == |p3| == |p4| == |p5| == |p6| == |p7| == 2
    ensures var s := p0 + p1 + p2 + p3 + p4 + p5 + p6 + p7;
      s[0 .. 2] == p0 && s[2 .. 4] == p1 && s[4 .. 6] == p2 && s[6 .. 8] == p3 &&
      s[8 .. 10] == p4 && s[10 .. 12] == p5 && s[12 .. 14] == p6 && s[14 .. 16] == p7
  {
    var s := p0 + p1 + p2 + p3 + p4 + p5 + p6 + p7;
    assert s[0 .. 2] == p0 && s[2 .. 4] == p1 && s[4 .. 6] == p2 && s[6 .. 8] == p3;
    assert s[8 .. 10] == p4 && s[10 .. 12] == p5 && s[12 .. 14] == p6 && s[14 .. 16] == p7;
  }

  /** Where the five fields of a REG_TZI_FORMAT value lie in their concatenation. */
  lemma Layout44(a: seq<byte>, b: seq<byte>, c: seq<byte>, d: seq<byte>, e: seq<byte>)
    requires |a| == |b| == |c| == 4 && |d| == |e| == 16
    ensures var s := a + b + c + d + e;
      s[0 .. 4] == a && s[4 .. 8] == b && s[8 .. 12] == c && s[12 .. 28] == d && s[28 .. 44] == e
  {
    var s := a + b + c + d + e;
    assert s[0 .. 4] == a && s[4 .. 8] == b && s[8 .. 12] == c && s[12 .. 28] == d && s[28 .. 44] == e;
  }

  /** A sequence of 16 bytes is the concatenation of its eight 2-byte slices. */
  lemma Split16Bytes(s: seq<byte>)
    requires |s| == 16
    ensures s == s[0 .. 2] + s[2 .. 4] + s[4 .. 6] + s[6 .. 8] + s[8 .. 10] + s[10 .. 12] + s[12 .. 14] + s[14 .. 16]
  {
  }

  /** A sequence of 44 bytes is the concatenation of its five field slices. */
  lemma Split44Bytes(s: seq<byte>)
    requires |s| == RegTziSize
    ensures s == s[0 .. 4] + s[4 .. 8] + s[8 .. 12] + s[12 .. 28] + s[28 .. 44]
  {
  }

  /** A 2-byte slice of a window of `s` at `i` is a slice of `s`. */
  lemma PairOfWindow(s: seq<byte>, i: nat, w: seq<byte>, a: nat)
    requires i + 16 <= |s| && w == s[i .. i + 16] && a + 2 <= 16
    ensures s[i + a .. i + a + 2] == w[a .. a + 2]
  {
    assert s[i + a] == w[a] && s[i + a + 1] == w[a + 1];
  }

  lemma PairsOfWindow(s: seq<byte>, i: nat, w: seq<byte>)
    requires i + 16 <= |s| && w == s[i .. i + 16]
    ensures s[i .. i + 2] == w[0 .. 2] && s[i + 2 .. i + 4] == w[2 .. 4]
    ensures s[i + 4 .. i + 6] == w[4 .. 6] && s[i + 6 .. i + 8] == w[6 .. 8]
    ensures s[i + 8 .. i + 10] == w[8 .. 10] && s[i + 10 .. i + 12] == w[10 .. 12]
    ensures s[i + 12 .. i + 14] == w[12 .. 14] && s[i + 14 .. i + 16] == w[14 .. 16]
  {
    PairOfWindow(s, i, w, 0);
    PairOfWindow(s, i, w, 2);
    PairOfWindow(s, i, w, 4);
    PairOfWindow(s, i, w, 6);
    PairOfWindow(s, i, w, 8);
    PairOfWindow(s, i, w, 10);
    PairOfWindow(s, i, w, 12);
    PairOfWindow(s, i, w, 14);
  }

  /** A value read at `i` depends only on the bytes it covers. */
  lemma LeInt16Within(s: seq<byte>, i: nat, piece: seq<byte>)
    requires i + 2 <= |s| && s[i .. i + 2] == piece
    ensures LeInt16(s, i) == LeInt16(piece, 0)
  {
    assert s[i] == piece[0] && s[i + 1] == piece[1];
  }

  lemma LeInt32Within(s: seq<byte>, i: nat, piece: seq<byte>)
    requires i + 4 <= |s| && s[i .. i + 4] == piece
    ensures LeInt32(s, i) == LeInt32(piece, 0)
  {
    assert s[i] == piece[0] && s[i + 1] == piece[1] && s[i + 2] == piece[2] && s[i + 3] == piece[3];
  }

  /** Decoding the bytes written for a SYSTEMTIME gives it back. */
  lemma {:induction false} SystemTimeRoundTrip(s: seq<byte>, i: nat, t: SystemTime)
    requires i + 16 <= |s| && s[i .. i + 16] == SystemTimeBytes(t)
    ensures SystemTimeAt(s, i) == t
  {
    Layout16(LeBytes16(t.year), LeBytes16(t.month), LeBytes16(t.dayOfWeek), LeBytes16(t.day),
             LeBytes16(t.hour), LeBytes16(t.minute), LeBytes16(t.second), LeBytes16(t.milliseconds));
    var w := s[i .. i + 16];
    PairsOfWindow(s, i, w);
    LeInt16Within(s, i, LeBytes16(t.year));
    LeInt16OfBytes(t.year);
    LeInt16Within(s, i + 2, LeBytes16(t.month));
    LeInt16OfBytes(t.month);
    LeInt16Within(s, i + 4, LeBytes16(t.dayOfWeek));
    LeInt16OfBytes(t.dayOfWeek);
    LeInt16Within(s, i + 6, LeBytes16(t.day));
    LeInt16OfBytes(t.day);
    LeInt16Within(s, i + 8, LeBytes16(t.hour));
    LeInt16OfBytes(t.hour);
    LeInt16Within(s, i + 10, LeBytes16(t.minute));
    LeInt16OfBytes(t.minute);
    LeInt16Within(s, i + 12, LeBytes16(t.second));
    LeInt16OfBytes(t.second);
    LeInt16Within(s, i + 14, LeBytes16(t.milliseconds));
    LeInt16OfBytes(t.milliseconds);
  }

  /** Decoding the value written for a record gives the record back. */
  lemma {:induction false} RegistryDecodeEncode(info: RegistryTimeZoneInformation)
    ensures RegistryTimeZoneInformationFromBytes(Some(RegistryBlob(info))) == Ok(info)
  {
    var b := RegistryBlob(info);
    Layout44(LeBytes32(info.bias), LeBytes32(info.standardBias), LeBytes32(info.daylightBias),
             SystemTimeBytes(info.standardDate), SystemTimeBytes(info.daylightDate));
    LeInt32Within(b, 0, LeBytes32(info.bias));
    LeInt32OfBytes(info.bias);
    LeInt32Within(b, 4, LeBytes32(info.standardBias));
    LeInt32OfBytes(info.standardBias);
    LeInt32Within(b, 8, LeBytes32(info.daylightBias));
    LeInt32OfBytes(info.daylightBias);
    SystemTimeRoundTrip(b, 12, info.standardDate);
    SystemTimeRoundTrip(b, 28, info.daylightDate);
  }

  /** The bytes written for the SYSTEMTIME read at `i` are the bytes it was read from. */
  lemma {:induction false} SystemTimeBytesOf(s: seq<byte>, i: nat)
    requires i + 16 <= |s|
    ensures SystemTimeBytes(SystemTimeAt(s, i)) == s[i .. i + 16]
  {
    LeBytes16Of(s, i);
    LeBytes16Of(s, i + 2);
    LeBytes16Of(s, i + 4);
    LeBytes16Of(s, i + 6);
    LeBytes16Of(s, i + 8);
    LeBytes16Of(s, i + 10);
    LeBytes16Of(s, i + 12);
    LeBytes16Of(s, i + 14);
    var w := s[i .. i + 16];
    Split16Bytes(w);
    PairsOfWindow(s, i, w);
  }

  /** Every 44-byte value is the one written for the record decoded from it. */
  lemma {:induction false} RegistryEncodeDecode(b: seq<byte>)
    requires |b| == RegTziSize
    ensures RegistryTimeZoneInformationFromBytes(Some(b)).Ok?
    ensures RegistryBlob(RegistryTimeZoneInformationFromBytes(Some(b)).value) == b
  {
    var info := RegistryTimeZoneInformationFromBytes(Some(b)).value;
    LeBytes32Of(b, 0);
    LeBytes32Of(b, 4);
    LeBytes32Of(b, 8);
    SystemTimeBytesOf(b, 12);
    SystemTimeBytesOf(b, 28);
    assert LeBytes32(info.bias) == b[0 .. 4] && LeBytes32(info.standardBias) == b[4 .. 8];
    assert LeBytes32(info.daylightBias) == b[8 .. 12];
    assert SystemTimeBytes(info.standardDate) == b[12 .. 28] && SystemTimeBytes(info.daylightDate) == b[28 .. 44];
    Split44Bytes(b);
  }

  /*****************************************************************************
   *  FILE_TIME and SetFilePointer: a 64-bit value as two 32-bit halves.
   *****************************************************************************/

  const TwoTo32: nat := 0x1_0000_0000

  /** FILE_TIME: two UInt32 halves of a 64-bit tick count. */
  datatype FileTime = FileTime(low: uint32, high: uint32)

  /** new FILE_TIME(fileTime): low = (uint)fileTime, high = (uint)(fileTime >> 32). */
  function FileTimeOf(fileTime: int64): (ft: FileTime)
  {
    FileTime(fileTime % TwoTo32, (fileTime / TwoTo32) % TwoTo32)
  }

  /** FILE_TIME.ToTicks: (long)(((ulong)high << 32) + low). */
  function ToTicks(ft: FileTime): (t: int64)
  {
    Wrap64(ft.high * TwoTo32 + ft.low)
  }

  /** Splitting a tick count and joining it again gives it back, for every 64-bit value. */
  lemma {:induction false} TicksRoundTrip(t: int64)
    ensures ToTicks(FileTimeOf(t)) == t
  {
    var q, r := t / TwoTo32, t % TwoTo32;
    assert t == q * TwoTo32 + r;
    assert -0x8000_0000 <= q < 0x8000_0000;
    var ft := FileTimeOf(t);
    if q >= 0 {
      assert ft.high == q;
      assert ft.high * TwoTo32 + ft.low == t;
    } else {
      assert ft.high == q + TwoTo32;
      assert ft.high * TwoTo32 + ft.low == t + 0x1_0000_0000_0000_0000;
    }
  }

  /** Joining two halves and splitting the result gives them back. */
  lemma {:induction false} FileTimeRoundTrip(ft: FileTime)
    ensures FileTimeOf(ToTicks(ft)) == ft
  {
    var v := ft.high * TwoTo32 + ft.low;
    assert v / TwoTo32 == ft.high && v % TwoTo32 == ft.low;
    var t := ToTicks(ft);
    if v <= Int64Max {
      assert t == v;
    } else {
      assert t == (ft.high - TwoTo32) * TwoTo32 + ft.low;
      assert t / TwoTo32 == ft.high - TwoTo32;
      assert t % TwoTo32 == ft.low;
    }
  }

  /** The halves SetFilePointer passes to the kernel: (int)offset and (int)(offset >> 32). */
  function SeekHalves(offset: int64): (halves: (int32, int32))
  {
    (Wrap32(offset), Wrap32(offset / TwoTo32))
  }

  /**
   * (long)(((ulong)(uint)hi << 32) | (uint)lo): the 64-bit value whose halves
   * are `hi` and `lo`, read as signed.
   */
  function Recombine(lo: int32, hi: int32): (t: int64)
  {
    Wrap64(BitOr(Unsigned32(hi) * TwoTo32, Unsigned32(lo)))
  }

  /** Recombining is joining a FILE_TIME: the shifted high half and the low half share no bit. */
  lemma RecombineIsJoin(lo: int32, hi: int32)
    ensures Recombine(lo, hi) == ToTicks(FileTime(Unsigned32(lo), Unsigned32(hi)))
  {
    Pow2Values();
    OrDisjoint32(Unsigned32(hi), Unsigned32(lo));
  }

  /** The halves passed to the kernel recombine to the offset, for every 64-bit offset. */
  lemma {:induction false} SeekHalvesRecombine(offset: int64)
    ensures Recombine(SeekHalves(offset).0, SeekHalves(offset).1) == offset
  {
    var (lo, hi) := SeekHalves(offset);
    Pow2Values();
    assert offset / TwoTo32 == Wrap32(offset / TwoTo32);
    assert Unsigned32(lo) == offset % TwoTo32;
    assert FileTime(Unsigned32(lo), Unsigned32(hi)) == FileTimeOf(offset);
    RecombineIsJoin(lo, hi);
    TicksRoundTrip(offset);
  }

  /** What the kernel's SetFilePointer leaves behind: its return value, the high half and the last error. */
  datatype NativeSeek = NativeSeek(lo: int32, hi: int32, lastError: int32)

  /** SetFilePointer's result: the new position and the HRESULT out-parameter. */
  datatype SeekResult = SeekResult(position: int64, hr: int32)

  /**
   * SetFilePointer(handle, offset, origin, out hr): `kernel` answers the call
   * made with the two halves of `offset` and the origin. A low half of -1 with
   * a non-zero last error is a failure: -1 and that error; anything else is the
   * position recombined from the returned halves, with hr 0.
   */
  function SetFilePointer(offset: int64, origin: int32, kernel: (int32, int32, int32) -> NativeSeek): (r: SeekResult)
    ensures var n := kernel(SeekHalves(offset).0, SeekHalves(offset).1, origin);
      if n.lo == -1 && n.lastError != 0 then r == SeekResult(-1, n.lastError)
      else r.hr == 0 && r.position == ToTicks(FileTime(Unsigned32(n.lo), Unsigned32(n.hi)))
  {
    var (lo, hi) := SeekHalves(offset);
    var n := kernel(lo, hi, origin);
    RecombineIsJoin(n.lo, n.hi);
    if n.lo == -1 && n.lastError != 0 then SeekResult(-1, n.lastError)
    else SeekResult(Recombine(n.lo, n.hi), 0)
  }

  /** A kernel that moves the pointer to the offset it is given yields that offset. */
  lemma SetFilePointerToOffset(offset: int64, kernel: (int32, int32, int32) -> NativeSeek)
    requires forall lo: int32, hi: int32, origin: int32 :: kernel(lo, hi, origin) == NativeSeek(lo, hi, 0)
    ensures SetFilePointer(offset, 0, kernel) == SeekResult(offset, 0)
  {
    var (lo, hi) := SeekHalves(offset);
    assert kernel(lo, hi, 0) == NativeSeek(lo, hi, 0);
    SeekHalvesRecombine(offset);
    RecombineIsJoin(lo, hi);
  }

  /** The 32-bit image of -2147024896: SEVERITY_ERROR with FACILITY_WIN32. */
  const HResultWin32Base: nat := 0x8007_0000

  /** MakeHRFromErrorCode: -2147024896 | errorCode, on the 32-bit images. */
  function MakeHRFromErrorCode(errorCode: int32): (hr: int32)
  {
    Wrap32(BitOr(HResultWin32Base, Unsigned32(errorCode)))
  }

  /** Every HRESULT built from an error code has the severity bit set, so it is negative. */
  lemma MakeHRIsFailure(errorCode: int32)
    ensures MakeHRFromErrorCode(errorCode) < 0
  {
    Pow2Values();
    var v := BitOr(HResultWin32Base, Unsigned32(errorCode));
    OrAbove(HResultWin32Base, Unsigned32(errorCode));
    OrBelow(HResultWin32Base, Unsigned32(errorCode), 32);
    assert HResultWin32Base <= v < 0x1_0000_0000;
    ModOfSmall(v, 0x1_0000_0000);
  }

  /**
   * For a code that fits in 16 bits the HRESULT is FACILITY_WIN32 with that
   * code in the low 16 bits: its low half is the code.
   */
  lemma MakeHRWin32Code(errorCode: int32)
    requires 0 <= errorCode < 0x1_0000
    ensures MakeHRFromErrorCode(errorCode) == -0x7FF9_0000 + errorCode
    ensures MakeHRFromErrorCode(errorCode) % 0x1_0000 == errorCode
  {
    OrDisjoint16(0x8007, errorCode);
    assert Unsigned32(errorCode) == errorCode;
    var v := BitOr(HResultWin32Base, errorCode);
    assert v == HResultWin32Base + errorCode;
    assert v % 0x1_0000_0000 == v;
    assert Wrap32(v) == v as int - 0x1_0000_0000;
  }

  /*****************************************************************************
   *  WIN32_FIND_DATA.
   *****************************************************************************/

  /** The fixed 260-character file-name buffer of WIN32_FIND_DATA. */
  type NameBuffer = s: seq<char> | |s| == 260 witness seq(260, _ => '\0')

  datatype FindData = FindData(
    fileAttributes: int32,
    creationTime: FileTime, lastAccessTime: FileTime, lastWriteTime: FileTime,
    fileSizeHigh: int32, fileSizeLow: int32,
    reserved0: int32, reserved1: int32,
    fileName: NameBuffer, alternateFileName: seq<char>)

  /** FILE_ATTRIBUTE_DIRECTORY. */
  const FileAttributeDirectory: nat := 0x10

  /** The characters before the first NUL: what new string(char*) reads. */
  function NulTerminated(s: seq<char>): (r: seq<char>)
    ensures |r| <= |s| && r == s[..|r|]
    ensures forall i :: 0 <= i < |r| ==> r[i] != '\0'
    ensures |r| < |s| ==> s[|r|] == '\0'
  {
    if |s| == 0 || s[0] == '\0' then []
    else [s[0]] + NulTerminated(s[1..])
  }

  /** cFileName. */
  function FileName(fd: FindData): string
  {
    NulTerminated(fd.fileName)
  }

  /** IsRelativeDirectory: '.' followed by NUL, or ".." followed by NUL. */
  predicate IsRelativeDirectory(fd: FindData)
  {
    var p := fd.fileName;
    if p[0] != '.' then false
    else match p[1]
      case '.' => p[2] == '\0'
      case '\0' => true
      case _ => false
  }

  /** IsFile: (dwFileAttributes & 0x10) == 0. */
  predicate IsFile(fd: FindData)
  {
    BitAnd(Unsigned32(fd.fileAttributes), FileAttributeDirectory) == 0
  }

  /** IsNormalDirectory: the directory bit set and not "." or "..". */
  predicate IsNormalDirectory(fd: FindData)
  {
    if BitAnd(Unsigned32(fd.fileAttributes), FileAttributeDirectory) != 0 then !IsRelativeDirectory(fd)
    else false
  }

  /** The relative directories are exactly the entries named "." and "..". */
  lemma RelativeDirectoryNames(fd: FindData)
    ensures IsRelativeDirectory(fd) <==> FileName(fd) == "." || FileName(fd) == ".."
  {
    var p, n := fd.fileName, FileName(fd);
    if p[0] == '.' {
      assert |n| >= 1 && n[0] == '.';
      if p[1] == '\0' {
        assert |n| == 1;
        assert n == ".";
      } else {
        assert |n| >= 2 && n[1] == p[1];
        if p[1] == '.' && p[2] == '\0' {
          assert |n| == 2;
          assert n == "..";
        } else if p[1] == '.' {
          assert |n| >= 3;
        }
      }
    } else if |n| > 0 {
      assert n[0] == p[0];
    }
  }

  /** IsFile tests bit 4 of the attributes, FILE_ATTRIBUTE_DIRECTORY. */
  lemma IsFileIsDirectoryBitClear(fd: FindData)
    ensures IsFile(fd) <==> (Unsigned32(fd.fileAttributes) / 0x10) % 2 == 0
  {
    var u := Unsigned32(fd.fileAttributes);
    var q, r := u / 0x10, u % 0x10;
    assert Pow2(4) == 0x10;
    assert u == Pow2(4) * q + r;
    AndHighMask(q, r, 1, 4);
    assert BitAnd(q, 1) == q % 2;
  }

  /**
   * A normal directory is an entry with the directory bit whose name is not
   * "." or ".."; so no entry is both a file and a normal directory.
   */
  lemma NormalDirectoryIsNamedDirectory(fd: FindData)
    ensures IsNormalDirectory(fd) <==> !IsFile(fd) && FileName(fd) != "." && FileName(fd) != ".."
    ensures !(IsFile(fd) && IsNormalDirectory(fd))
  {
    RelativeDirectoryNames(fd);
  }

  /** WIN32_FILE_ATTRIBUTE_DATA. */
  datatype FileAttributeData = FileAttributeData(
    fileAttributes: int32,
    creationTime: FileTime, lastAccessTime: FileTime, lastWriteTime: FileTime,
    fileSizeHigh: int32, fileSizeLow: int32)

  /** PopulateFrom(ref findData): every field is overwritten from the find data. */
  function PopulateFrom(findData: FindData): (d: FileAttributeData)
    ensures d.fileAttributes == findData.fileAttributes
    ensures d.creationTime == findData.creationTime && d.lastAccessTime == findData.lastAccessTime
    ensures d.lastWriteTime == findData.lastWriteTime
    ensures d.fileSizeHigh == findData.fileSizeHigh && d.fileSizeLow == findData.fileSizeLow
  {
    FileAttributeData(findData.fileAttributes, findData.creationTime, findData.lastAccessTime,
                      findData.lastWriteTime, findData.fileSizeHigh, findData.fileSizeLow)
  }

  /** Entries that differ only in their names and reserved words populate the same attribute data. */
  lemma PopulateFromIgnoresName(a: FindData, b: FindData)
    requires a.fileAttributes == b.fileAttributes && a.fileSizeHigh == b.fileSizeHigh && a.fileSizeLow == b.fileSizeLow
    requires a.creationTime == b.creationTime && a.lastAccessTime == b.lastAccessTime && a.lastWriteTime == b.lastWriteTime
    ensures PopulateFrom(a) == PopulateFrom(b)
  {
  }
}
