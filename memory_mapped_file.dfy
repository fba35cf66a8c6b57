/*******************************************************************************
 *  MemoryMappedFiles: the managed front end of a named or file-backed
 *  memory-mapped file.  Each factory checks its arguments in a fixed order,
 *  turns the requested MemoryMappedFileAccess into the native page
 *  protection and FILE_MAP rights, splits the 64-bit capacity into the two
 *  halves CreateFileMapping takes, and reads the kernel's answer.
 *
 *  The kernel calls CreateFileMapping and OpenFileMapping, and the FileStream
 *  a file-backed map opens, are parameters: functions from the request
 *  (and, inside the retry loop, the round) to what the kernel returns.
 *******************************************************************************/

module MemoryMappedFiles {
  import opened Common
  import Win32Native
  import IOErrors

  /** MemoryMappedFileAccess. */
  const AccessReadWrite: int := 0
  const AccessRead: int := 1
  const AccessWrite: int := 2
  const AccessCopyOnWrite: int := 3
  const AccessReadExecute: int := 4
  const AccessReadWriteExecute: int := 5

  /** The page protections CreateFileMapping takes. */
  const PageReadOnly: int := 0x02
  const PageReadWrite: int := 0x04
  const PageWriteCopy: int := 0x08
  const PageExecuteRead: int := 0x20
  const PageExecuteReadWrite: int := 0x40

  /** The FILE_MAP rights OpenFileMapping takes. */
  const FileMapCopy: nat := 0x0001
  const FileMapWrite: nat := 0x0002
  const FileMapRead: nat := 0x0004
  const FileMapExecute: nat := 0x0020

  /** FileAccess. */
  const FileAccessRead: nat := 1
  const FileAccessWrite: nat := 2
  const FileAccessReadWrite: nat := 3

  /** FileSystemRights. */
  const ReadData: nat := 0x0001
  const WriteData: nat := 0x0002
  const ExecuteFile: nat := 0x0020

  /** MemoryMappedFileOptions.DelayAllocatePages, the only option; 2^26. */
  const DelayAllocatePages: nat := 0x400_0000

  /** MemoryMappedFileRights.FullControl and AccessSystemSecurity, and the rights OpenExisting accepts. */
  const RightsFullControl: nat := 0xF_000F
  const RightsAccessSystemSecurity: nat := 0x100_0000
  const RightsMask: nat := 0x10F_000F

  /** HandleInheritability. */
  const InheritNone: int := 0
  const Inheritable: int := 1

  /** FileMode.Append. */
  const FileModeAppend: int := 6

  /** The rounds of create-then-open CreateOrOpen tries before it gives up. */
  const RetryRounds: nat := 14

  /** Whether bit `bit` is set in `x`. */
  predicate HasBit(x: nat, bit: nat)
  {
    BitAnd(x, bit) != 0
  }

  /*****************************************************************************
   *  The access tables.
   *****************************************************************************/

  /** The accesses a mapping can be asked for: ReadWrite .. ReadWriteExecute. */
  predicate ValidAccess(access: int)
  {
    AccessReadWrite <= access <= AccessReadWriteExecute
  }

  /** GetPageAccess: Write has no page protection and, like any unknown value, is ArgumentOutOfRange. */
  function GetPageAccess(access: int): (r: Result<int>)
    ensures r.Ok? <==> ValidAccess(access) && access != AccessWrite
    ensures r.Err? ==> r.error == ArgumentOutOfRange
    ensures access == AccessRead ==> r == Ok(PageReadOnly)
    ensures access == AccessReadWrite ==> r == Ok(PageReadWrite)
    ensures access == AccessCopyOnWrite ==> r == Ok(PageWriteCopy)
    ensures access == AccessReadExecute ==> r == Ok(PageExecuteRead)
    ensures access == AccessReadWriteExecute ==> r == Ok(PageExecuteReadWrite)
  {
    if access == AccessRead then Ok(PageReadOnly)
    else if access == AccessReadWrite then Ok(PageReadWrite)
    else if access == AccessCopyOnWrite then Ok(PageWriteCopy)
    else if access == AccessReadExecute then Ok(PageExecuteRead)
    else if access == AccessReadWriteExecute then Ok(PageExecuteReadWrite)
    else Err(ArgumentOutOfRange)
  }

  /** GetFileMapAccess: the FILE_MAP rights that match an access. */
  function GetFileMapAccess(access: int): (r: Result<nat>)
    ensures r.Ok? <==> ValidAccess(access)
    ensures r.Err? ==> r.error == ArgumentOutOfRange
    ensures access == AccessRead ==> r == Ok(0x4)
    ensures access == AccessWrite ==> r == Ok(0x2)
    ensures access == AccessReadWrite ==> r == Ok(0x6)
    ensures access == AccessCopyOnWrite ==> r == Ok(0x1)
    ensures access == AccessReadExecute ==> r == Ok(0x24)
    ensures access == AccessReadWriteExecute ==> r == Ok(0x26)
  {
    FileMapRightsCombined();
    if access == AccessRead then Ok(FileMapRead)
    else if access == AccessWrite then Ok(FileMapWrite)
    else if access == AccessReadWrite then Ok(BitOr(FileMapRead, FileMapWrite))
    else if access == AccessCopyOnWrite then Ok(FileMapCopy)
    else if access == AccessReadExecute then Ok(BitOr(FileMapExecute, FileMapRead))
    else if access == AccessReadWriteExecute then Ok(BitOr(BitOr(FileMapExecute, FileMapRead), FileMapWrite))
    else Err(ArgumentOutOfRange)
  }

  /** The FILE_MAP rights combined by GetFileMapAccess, as numbers. */
  lemma FileMapRightsCombined()
    ensures BitOr(FileMapRead, FileMapWrite) == 0x6
    ensures BitOr(FileMapExecute, FileMapRead) == 0x24
    ensures BitOr(BitOr(FileMapExecute, FileMapRead), FileMapWrite) == 0x26
  {
    assert Pow2(2) == 4 && Pow2(3) == 8;
    OrDisjoint(1, FileMapWrite, 2);
    OrDisjoint(4, FileMapRead, 3);
    OrDisjoint(9, FileMapWrite, 2);
  }

  /** GetFileAccess: the FileAccess a view of the mapping is opened with. */
  function GetFileAccess(access: int): (r: Result<nat>)
    ensures r.Ok? <==> ValidAccess(access)
    ensures r.Err? ==> r.error == ArgumentOutOfRange
    ensures access in {AccessRead, AccessReadExecute} ==> r == Ok(FileAccessRead)
    ensures access == AccessWrite ==> r == Ok(FileAccessWrite)
    ensures access in {AccessReadWrite, AccessCopyOnWrite, AccessReadWriteExecute} ==> r == Ok(FileAccessReadWrite)
  {
    if access == AccessRead then Ok(FileAccessRead)
    else if access == AccessWrite then Ok(FileAccessWrite)
    else if access == AccessReadWrite then Ok(FileAccessReadWrite)
    else if access == AccessCopyOnWrite then Ok(FileAccessReadWrite)
    else if access == AccessReadExecute then Ok(FileAccessRead)
    else if access == AccessReadWriteExecute then Ok(FileAccessReadWrite)
    else Err(ArgumentOutOfRange)
  }

  /** GetFileStreamFileSystemRights: the rights the backing FileStream is opened with. */
  function GetFileStreamFileSystemRights(access: int): (r: Result<nat>)
    ensures r.Ok? <==> ValidAccess(access)
    ensures r.Err? ==> r.error == ArgumentOutOfRange
    ensures access in {AccessRead, AccessCopyOnWrite} ==> r == Ok(ReadData)
    ensures access == AccessReadWrite ==> r == Ok(0x3)
    ensures access == AccessWrite ==> r == Ok(WriteData)
    ensures access == AccessReadExecute ==> r == Ok(0x21)
    ensures access == AccessReadWriteExecute ==> r == Ok(0x23)
  {
    if access == AccessRead || access == AccessCopyOnWrite then Ok(ReadData)
    else if access == AccessReadWrite then Ok(BitOr(ReadData, WriteData))
    else if access == AccessWrite then Ok(WriteData)
    else if access == AccessReadExecute then Ok(BitOr(ReadData, ExecuteFile))
    else if access == AccessReadWriteExecute then Ok(BitOr(BitOr(ReadData, WriteData), ExecuteFile))
    else Err(ArgumentOutOfRange)
  }

  /**
   * The four tables describe the same access: the file stream may write or
   * execute exactly when the mapping rights include FILE_MAP_WRITE or
   * FILE_MAP_EXECUTE, and reads whenever the rights read or copy; a view is
   * writable exactly when the pages are (copy-on-write pages count as
   * writable), and readable for every access but Write, the one access with
   * no page protection.
   */
  lemma AccessTablesAgree(access: int)
    requires ValidAccess(access)
    ensures var map_ := GetFileMapAccess(access).value;
      var rights := GetFileStreamFileSystemRights(access).value;
      (HasBit(rights, WriteData) <==> HasBit(map_, FileMapWrite)) &&
      (HasBit(rights, ExecuteFile) <==> HasBit(map_, FileMapExecute)) &&
      (HasBit(rights, ReadData) <==> HasBit(map_, FileMapRead) || HasBit(map_, FileMapCopy))
    ensures HasBit(GetFileAccess(access).value, FileAccessRead) <==> access != AccessWrite
    ensures GetPageAccess(access).Err? <==> access == AccessWrite
    ensures access != AccessWrite ==>
      (HasBit(GetFileAccess(access).value, FileAccessWrite) <==>
        GetPageAccess(access).value in {PageReadWrite, PageWriteCopy, PageExecuteReadWrite})
  {
    if access == AccessRead {
    } else if access == AccessWrite {
    } else if access == AccessReadWrite {
    } else if access == AccessCopyOnWrite {
    } else if access == AccessReadExecute {
    } else {
    }
  }

  /*****************************************************************************
   *  The capacity split and the argument checks.
   *****************************************************************************/

  /**
   * The halves of the capacity CreateFileMapping takes:
   * (Int32)(capacity & 0xFFFFFFFF) and (Int32)(capacity >> 32).
   */
  function CapacityHalves(capacity: int64): (halves: (int32, int32))
  {
    (Wrap32(BitAnd(Unsigned64(capacity), 0xFFFF_FFFF)), Wrap32(capacity / Win32Native.TwoTo32))
  }

  /** Masking with 0xFFFFFFFF keeps the value modulo 2^32. */
  lemma MaskLow32(u: nat)
    ensures BitAnd(u, 0xFFFF_FFFF) == u % Win32Native.TwoTo32
  {
    Pow2Values();
    AndLowMask(u / Win32Native.TwoTo32, u % Win32Native.TwoTo32, 32);
  }

  /** Reading a long as unsigned does not change its low 32 bits. */
  lemma UnsignedLow32(x: int64)
    ensures Unsigned64(x) % Win32Native.TwoTo32 == x % Win32Native.TwoTo32
  {
    var t := Win32Native.TwoTo32;
    if x < 0 {
      assert Unsigned64(x) == t * (x / t + t) + x % t;
    }
  }

  /** The masked low half is the capacity modulo 2^32. */
  lemma LowHalf(capacity: int64)
    ensures BitAnd(Unsigned64(capacity), 0xFFFF_FFFF) == capacity % Win32Native.TwoTo32
  {
    MaskLow32(Unsigned64(capacity));
    UnsignedLow32(capacity);
  }

  /** The kernel reading the two halves back as one 64-bit size sees the capacity, for every capacity. */
  lemma CapacityHalvesRecombine(capacity: int64)
    ensures Win32Native.Recombine(CapacityHalves(capacity).0, CapacityHalves(capacity).1) == capacity
  {
    SameHalvesAsSeek(capacity);
    Win32Native.SeekHalvesRecombine(capacity);
  }

  /** The capacity is split exactly as SetFilePointer splits an offset. */
  lemma SameHalvesAsSeek(capacity: int64)
    ensures CapacityHalves(capacity) == Win32Native.SeekHalves(capacity)
  {
    LowHalf(capacity);
    var m := capacity % Win32Native.TwoTo32;
    assert CapacityHalves(capacity).0 == Wrap32(m);
    ModIdempotent32(capacity);
    assert Wrap32(m) == Wrap32(capacity);
  }

  /** Reducing modulo 2^32 twice is reducing once. */
  lemma ModIdempotent32(x: int)
    ensures (x % Win32Native.TwoTo32) % 0x1_0000_0000 == x % 0x1_0000_0000
  {
  }

  /**
   * `options & ~DelayAllocatePages` is zero: no option bit other than
   * DelayAllocatePages is set, on the 32-bit image of the enum.
   */
  predicate OptionsAllowed(options: int32)
  {
    BitAnd(Unsigned32(options), UInt32Max - DelayAllocatePages) == 0
  }

  /** A 32-bit value with no bit outside DelayAllocatePages is 0 or DelayAllocatePages. */
  lemma OnlyDelayBit(u: uint32)
    ensures BitAnd(u, UInt32Max - DelayAllocatePages) == 0 <==> u == 0 || u == DelayAllocatePages
  {
    Pow2Values();
    AndComplement(u, Pow2(26), 32);
    AndSingleBit(u, 26);
  }

  /** The only options that pass are None and DelayAllocatePages. */
  lemma OptionsAllowedValues(options: int32)
    ensures OptionsAllowed(options) <==> options == 0 || options == DelayAllocatePages
  {
    OnlyDelayBit(Unsigned32(options));
  }

  /** FullControl | AccessSystemSecurity: the two masks share no bit. */
  lemma RightsMaskIsUnion()
    ensures BitOr(RightsFullControl, RightsAccessSystemSecurity) == RightsMask
  {
    Pow2Values();
    OrDisjoint(1, RightsFullControl, 24);
    OrCommutes(RightsFullControl, RightsAccessSystemSecurity);
  }

  /** `rights & ~(FullControl | AccessSystemSecurity)` is zero. */
  predicate RightsAllowed(rights: uint32)
  {
    BitAnd(rights, UInt32Max - RightsMask) == 0
  }

  /** The rights that pass are exactly those inside FullControl | AccessSystemSecurity. */
  lemma RightsAllowedWithinMask(rights: uint32)
    ensures RightsAllowed(rights) <==> BitAnd(rights, BitOr(RightsFullControl, RightsAccessSystemSecurity)) == rights
  {
    Pow2Values();
    RightsMaskIsUnion();
    AndComplement(rights, RightsMask, 32);
  }

  predicate ValidInheritability(inheritability: int)
  {
    InheritNone <= inheritability <= Inheritable
  }

  /**
   * CreateNew's checks, in order: an empty name, a capacity that is not
   * positive or (in a 32-bit process) beyond the address space, an unknown
   * access, Write access, an unknown option, an unknown inheritability.
   */
  function CreateNewArgsError(mapName: Option<string>, capacity: int64, access: int, options: int32,
                              inheritability: int, is32Bit: bool): (e: Option<Exc>)
    ensures e.None? <==>
      (mapName.None? || |mapName.value| > 0) && capacity > 0 && !(is32Bit && capacity > UInt32Max) &&
      ValidAccess(access) && access != AccessWrite && OptionsAllowed(options) && ValidInheritability(inheritability)
  {
    if mapName.Some? && |mapName.value| == 0 then Some(Argument)
    else if capacity <= 0 then Some(ArgumentOutOfRange)
    else if is32Bit && capacity > UInt32Max then Some(ArgumentOutOfRange)
    else if !ValidAccess(access) then Some(ArgumentOutOfRange)
    else if access == AccessWrite then Some(Argument)
    else if !OptionsAllowed(options) then Some(ArgumentOutOfRange)
    else if !ValidInheritability(inheritability) then Some(ArgumentOutOfRange)
    else None
  }

  /**
   * CreateOrOpen's checks: a null or empty name, then those of CreateNew
   * except that Write access passes (it goes to OpenFileMapping alone).
   */
  function CreateOrOpenArgsError(mapName: Option<string>, capacity: int64, access: int, options: int32,
                                 inheritability: int, is32Bit: bool): (e: Option<Exc>)
    ensures e.None? <==>
      mapName.Some? && |mapName.value| > 0 && capacity > 0 && !(is32Bit && capacity > UInt32Max) &&
      ValidAccess(access) && OptionsAllowed(options) && ValidInheritability(inheritability)
    ensures mapName.Some? && access != AccessWrite ==> e == CreateNewArgsError(mapName, capacity, access, options, inheritability, is32Bit)
  {
    if mapName.None? then Some(ArgumentNull)
    else if |mapName.value| == 0 then Some(Argument)
    else if capacity <= 0 then Some(ArgumentOutOfRange)
    else if is32Bit && capacity > UInt32Max then Some(ArgumentOutOfRange)
    else if !ValidAccess(access) then Some(ArgumentOutOfRange)
    else if !OptionsAllowed(options) then Some(ArgumentOutOfRange)
    else if !ValidInheritability(inheritability) then Some(ArgumentOutOfRange)
    else None
  }

  /** OpenExisting's checks: a null or empty name, an unknown inheritability, a right outside the mask. */
  function OpenExistingArgsError(mapName: Option<string>, rights: uint32, inheritability: int): (e: Option<Exc>)
    ensures e.None? <==>
      mapName.Some? && |mapName.value| > 0 && ValidInheritability(inheritability) && RightsAllowed(rights)
  {
    if mapName.None? then Some(ArgumentNull)
    else if |mapName.value| == 0 then Some(Argument)
    else if !ValidInheritability(inheritability) then Some(ArgumentOutOfRange)
    else if !RightsAllowed(rights) then Some(ArgumentOutOfRange)
    else None
  }

  /*****************************************************************************
   *  The native calls.
   *****************************************************************************/

  /** What a kernel call leaves: whether the handle is valid, and the last Win32 error. */
  datatype NativeResult = NativeResult(valid: bool, lastError: int32)

  /** The arguments CreateFileMapping receives. */
  datatype MappingRequest = MappingRequest(
    backingFile: Option<string>, inheritHandle: bool, protection: nat,
    sizeHigh: int32, sizeLow: int32, name: Option<string>)

  /** The arguments OpenFileMapping receives. */
  datatype OpenRequest = OpenRequest(desiredAccess: nat, inheritHandle: bool, name: string)

  /** Where a valid handle came from: CreateFileMapping or OpenFileMapping, in which round. */
  datatype MapHandle = Created(round: nat) | Opened(round: nat)

  /** The exception WinIOError raises for a code, with an empty path. */
  function NativeError(code: int32): Exc
  {
    IOErrors.WinIOError(code, Some(""), true).kind
  }

  /**
   * The CreateFileMapping request for a capacity: the page protection OR the
   * options, the capacity in two halves, and the inheritance flag of the
   * security attributes.
   */
  function MappingRequestFor(backingFile: Option<string>, mapName: Option<string>, inheritability: int,
                             access: int, options: int32, capacity: int64): (req: Result<MappingRequest>)
    ensures req.Ok? <==> GetPageAccess(access).Ok?
    ensures req.Ok? ==>
      Win32Native.Recombine(req.value.sizeLow, req.value.sizeHigh) == capacity &&
      req.value.name == mapName && req.value.backingFile == backingFile &&
      (req.value.inheritHandle <==> inheritability == Inheritable)
  {
    var page :- GetPageAccess(access);
    var (low, high) := CapacityHalves(capacity);
    CapacityHalvesRecombine(capacity);
    Ok(MappingRequest(backingFile, inheritability == Inheritable, BitOr(page, Unsigned32(options)), high, low, mapName))
  }

  /**
   * CreateCore: the kernel's answer to CreateFileMapping.  An invalid handle
   * raises the error it reports; so does a valid handle whose last error is
   * ERROR_ALREADY_EXISTS (the handle is closed first).
   */
  function CreateCore(native: NativeResult): (r: Result<MapHandle>)
    ensures r.Ok? <==> native.valid && native.lastError != IOErrors.ErrorAlreadyExists
    ensures r.Ok? ==> r.value == Created(0)
    ensures r.Err? ==> r.error == NativeError(native.lastError)
  {
    if native.valid && native.lastError == IOErrors.ErrorAlreadyExists then Err(NativeError(native.lastError))
    else if !native.valid then Err(NativeError(native.lastError))
    else Ok(Created(0))
  }

  /**
   * OpenCore: the kernel's answer to OpenFileMapping.  On behalf of
   * CreateOrOpen a missing map is an ArgumentException (Write access cannot
   * create one); any other failure raises the error the kernel reports.
   */
  function OpenCore(native: NativeResult, createOrOpen: bool): (r: Result<MapHandle>)
    ensures r.Ok? <==> native.valid
    ensures r.Ok? ==> r.value == Opened(0)
    ensures !native.valid && createOrOpen && native.lastError == IOErrors.ErrorFileNotFound ==> r == Err(Argument)
    ensures !native.valid && !(createOrOpen && native.lastError == IOErrors.ErrorFileNotFound) ==>
      r == Err(NativeError(native.lastError))
  {
    if !native.valid then
      if createOrOpen && native.lastError == IOErrors.ErrorFileNotFound then Err(Argument)
      else Err(NativeError(native.lastError))
    else Ok(Opened(0))
  }

  /** MemoryMappedFile.CreateNew, with `createFileMapping` the kernel. */
  function CreateNew(mapName: Option<string>, capacity: int64, access: int, options: int32, inheritability: int,
                     is32Bit: bool, createFileMapping: MappingRequest -> NativeResult): (r: Result<MapHandle>)
    ensures CreateNewArgsError(mapName, capacity, access, options, inheritability, is32Bit).Some? ==>
      r == Err(CreateNewArgsError(mapName, capacity, access, options, inheritability, is32Bit).value)
    ensures CreateNewArgsError(mapName, capacity, access, options, inheritability, is32Bit).None? ==>
      var req := MappingRequestFor(None, mapName, inheritability, access, options, capacity);
      req.Ok? && r == CreateCore(createFileMapping(req.value))
  {
    var e := CreateNewArgsError(mapName, capacity, access, options, inheritability, is32Bit);
    if e.Some? then Err(e.value)
    else
      var req := MappingRequestFor(None, mapName, inheritability, access, options, capacity).value;
      CreateCore(createFileMapping(req))
  }

  /** MemoryMappedFile.OpenExisting, with `openFileMapping` the kernel. */
  function OpenExisting(mapName: Option<string>, rights: uint32, inheritability: int,
                        openFileMapping: OpenRequest -> NativeResult): (r: Result<MapHandle>)
    ensures OpenExistingArgsError(mapName, rights, inheritability).Some? ==>
      r == Err(OpenExistingArgsError(mapName, rights, inheritability).value)
    ensures OpenExistingArgsError(mapName, rights, inheritability).None? ==>
      r == OpenCore(openFileMapping(OpenRequest(rights, inheritability == Inheritable, mapName.value)), false)
  {
    var e := OpenExistingArgsError(mapName, rights, inheritability);
    if e.Some? then Err(e.value)
    else OpenCore(openFileMapping(OpenRequest(rights, inheritability == Inheritable, mapName.value)), false)
  }

  /*****************************************************************************
   *  CreateOrOpen: create, else open, with back-off between rounds.
   *****************************************************************************/

  /** Whether round `round` got neither handle and asks for another round. */
  predicate RoundRetries(created: NativeResult, found: NativeResult)
  {
    !created.valid && created.lastError == IOErrors.ErrorAccessDenied &&
    !found.valid && found.lastError == IOErrors.ErrorFileNotFound
  }

  /**
   * The outcome of the rounds from `round` on: a valid created handle, or
   * else (when creation was denied) a valid opened one; a create error other
   * than ERROR_ACCESS_DENIED or an open error other than ERROR_FILE_NOT_FOUND
   * is raised; after the last round, InvalidOperation.
   */
  function RoundsFrom(req: MappingRequest, openReq: OpenRequest,
                      createFileMapping: (MappingRequest, nat) -> NativeResult,
                      openFileMapping: (OpenRequest, nat) -> NativeResult, round: nat): (r: Result<MapHandle>)
    requires round <= RetryRounds
    ensures r.Ok? ==> round <= r.value.round < RetryRounds
    ensures r.Ok? && r.value.Created? ==> createFileMapping(req, r.value.round).valid
    ensures r.Ok? && r.value.Opened? ==> openFileMapping(openReq, r.value.round).valid
    decreases RetryRounds - round
  {
    if round == RetryRounds then Err(InvalidOperation)
    else
      var created := createFileMapping(req, round);
      if created.valid then Ok(Created(round))
      else if created.lastError != IOErrors.ErrorAccessDenied then Err(NativeError(created.lastError))
      else
        var found := openFileMapping(openReq, round);
        if found.valid then Ok(Opened(round))
        else if found.lastError != IOErrors.ErrorFileNotFound then Err(NativeError(found.lastError))
        else RoundsFrom(req, openReq, createFileMapping, openFileMapping, round + 1)
  }

  /** How many rounds from `round` on end in a retry. */
  function RetriedRounds(req: MappingRequest, openReq: OpenRequest,
                         createFileMapping: (MappingRequest, nat) -> NativeResult,
                         openFileMapping: (OpenRequest, nat) -> NativeResult, round: nat): (n: nat)
    requires round <= RetryRounds
    ensures n <= RetryRounds - round
    decreases RetryRounds - round
  {
    if round == RetryRounds then 0
    else if RoundRetries(createFileMapping(req, round), openFileMapping(openReq, round)) then
      1 + RetriedRounds(req, openReq, createFileMapping, openFileMapping, round + 1)
    else 0
  }

  /** One round: its outcome, and whether it counts as retried. */
  lemma RoundOutcome(req: MappingRequest, openReq: OpenRequest,
                     createFileMapping: (MappingRequest, nat) -> NativeResult,
                     openFileMapping: (OpenRequest, nat) -> NativeResult, round: nat)
    requires round < RetryRounds
    ensures var created := createFileMapping(req, round);
      var found := openFileMapping(openReq, round);
      var rest := RoundsFrom(req, openReq, createFileMapping, openFileMapping, round + 1);
      RoundsFrom(req, openReq, createFileMapping, openFileMapping, round) ==
        if created.valid then Ok(Created(round))
        else if created.lastError != IOErrors.ErrorAccessDenied then Err(NativeError(created.lastError))
        else if found.valid then Ok(Opened(round))
        else if found.lastError != IOErrors.ErrorFileNotFound then Err(NativeError(found.lastError))
        else rest
    ensures RetriedRounds(req, openReq, createFileMapping, openFileMapping, round) ==
      if RoundRetries(createFileMapping(req, round), openFileMapping(openReq, round))
      then 1 + RetriedRounds(req, openReq, createFileMapping, openFileMapping, round + 1)
      else 0
  {
  }

  /**
   * The sleeps after `n` retried rounds: none after the first, then 10 ms,
   * doubling each time.
   */
  function Backoff(n: nat): (sleeps: seq<nat>)
    ensures |sleeps| == if n == 0 then 0 else n - 1
  {
    if n <= 1 then [] else Backoff(n - 1) + [10 * Pow2(n - 2)]
  }

  function Sum(s: seq<nat>): nat
  {
    if |s| == 0 then 0 else Sum(s[..|s| - 1]) + s[|s| - 1]
  }

  /** The j-th sleep is 10 * 2^j ms, and after n rounds they add up to 10 * (2^(n-1) - 1) ms. */
  lemma BackoffTotal(n: nat)
    requires n >= 1
    ensures forall j :: 0 <= j < |Backoff(n)| ==> Backoff(n)[j] == 10 * Pow2(j)
    ensures Sum(Backoff(n)) == 10 * (Pow2(n - 1) - 1)
  {
    BackoffSleeps(n);
    BackoffSum(n);
  }

  /** Each sleep doubles the one before it, starting from 10 ms. */
  lemma {:induction false} BackoffSleeps(n: nat)
    ensures forall j :: 0 <= j < |Backoff(n)| ==> Backoff(n)[j] == 10 * Pow2(j)
  {
    if n > 1 {
      BackoffSleeps(n - 1);
      var s, before := Backoff(n), Backoff(n - 1);
      assert s == before + [10 * Pow2(n - 2)];
      forall j | 0 <= j < |s|
        ensures s[j] == 10 * Pow2(j)
      {
        if j < |before| {
          assert s[j] == before[j];
        }
      }
    }
  }

  /** One more retried round adds the sleep that doubles the last one, except after the first round. */
  lemma BackoffNext(n: nat)
    ensures Backoff(n + 1) == if n == 0 then [] else Backoff(n) + [10 * Pow2(n - 1)]
    ensures n >= 1 ==> 10 * Pow2(n) == 2 * (10 * Pow2(n - 1))
  {
  }

  /** The sleeps of n rounds add up to 10 * (2^(n-1) - 1) ms. */
  lemma {:induction false} BackoffSum(n: nat)
    requires n >= 1
    ensures Sum(Backoff(n)) == 10 * (Pow2(n - 1) - 1)
  {
    if n > 1 {
      BackoffSum(n - 1);
      var s, before := Backoff(n), Backoff(n - 1);
      var last := 10 * Pow2(n - 2);
      assert s == before + [last];
      assert s[..|s| - 1] == before;
      assert Sum(s) == Sum(before) + last;
      assert Pow2(n - 1) == 2 * Pow2(n - 2);
    }
  }

  lemma {:induction false} Pow2Monotone(m: nat, n: nat)
    requires m <= n
    ensures Pow2(m) <= Pow2(n)
    decreases n
  {
    if m < n {
      Pow2Monotone(m, n - 1);
    }
  }

  /**
   * CreateOrOpenCore never waits longer in total than 10 * (2^13 - 1) ms, the
   * "approximately 1.4 minutes" it is built for.
   */
  lemma WaitBound(req: MappingRequest, openReq: OpenRequest,
                  createFileMapping: (MappingRequest, nat) -> NativeResult,
                  openFileMapping: (OpenRequest, nat) -> NativeResult)
    ensures Sum(Backoff(RetriedRounds(req, openReq, createFileMapping, openFileMapping, 0))) <= 10 * (Pow2(13) - 1)
  {
    var n := RetriedRounds(req, openReq, createFileMapping, openFileMapping, 0);
    if n >= 1 {
      BackoffTotal(n);
      Pow2Monotone(n - 1, 13);
    }
  }

  /**
   * CreateOrOpenCore: up to fourteen rounds, each trying CreateFileMapping
   * and, when creation is denied, OpenFileMapping; a round in which the map
   * was denied and then not found sleeps and retries.  Returns the handle,
   * or the error, and the sleeps it made, in milliseconds.
   */
  method CreateOrOpenCore(req: MappingRequest, openReq: OpenRequest,
                          createFileMapping: (MappingRequest, nat) -> NativeResult,
                          openFileMapping: (OpenRequest, nat) -> NativeResult)
    returns (r: Result<MapHandle>, sleeps: seq<nat>)
    ensures r == RoundsFrom(req, openReq, createFileMapping, openFileMapping, 0)
    ensures sleeps == Backoff(RetriedRounds(req, openReq, createFileMapping, openFileMapping, 0))
  {
    var waitRetries := RetryRounds;
    var waitSleep := 0;
    var round := 0;
    sleeps := [];
    while waitRetries > 0
      invariant 0 <= waitRetries <= RetryRounds && round == RetryRounds - waitRetries
      invariant RoundsFrom(req, openReq, createFileMapping, openFileMapping, 0) ==
                RoundsFrom(req, openReq, createFileMapping, openFileMapping, round)
      invariant RetriedRounds(req, openReq, createFileMapping, openFileMapping, 0) ==
                round + RetriedRounds(req, openReq, createFileMapping, openFileMapping, round)
      invariant sleeps == Backoff(round)
      invariant waitSleep == if round == 0 then 0 else 10 * Pow2(round - 1)
    {
      RoundOutcome(req, openReq, createFileMapping, openFileMapping, round);
      var retry, outcome := TryRound(req, openReq, createFileMapping, openFileMapping, round);
      if !retry {
        return outcome, sleeps;
      }
      waitRetries := waitRetries - 1;
      BackoffNext(round);
      if waitSleep == 0 {
        waitSleep := 10;
      } else {
        sleeps := sleeps + [waitSleep];
        waitSleep := waitSleep * 2;
      }
      round := round + 1;
    }
    assert RetriedRounds(req, openReq, createFileMapping, openFileMapping, round) == 0;
    assert RetriedRounds(req, openReq, createFileMapping, openFileMapping, 0) == round;
    r := Err(InvalidOperation);
  }

  /**
   * One round of the CreateOrOpenCore loop: CreateFileMapping, and on
   * ERROR_ACCESS_DENIED OpenFileMapping; `retry` when the map was not found.
   */
  method TryRound(req: MappingRequest, openReq: OpenRequest,
                  createFileMapping: (MappingRequest, nat) -> NativeResult,
                  openFileMapping: (OpenRequest, nat) -> NativeResult, round: nat)
    returns (retry: bool, r: Result<MapHandle>)
    requires round < RetryRounds
    ensures retry == RoundRetries(createFileMapping(req, round), openFileMapping(openReq, round))
    ensures !retry ==> r == RoundsFrom(req, openReq, createFileMapping, openFileMapping, round)
  {
    RoundOutcome(req, openReq, createFileMapping, openFileMapping, round);
    var created := createFileMapping(req, round);
    if created.valid {
      return false, Ok(Created(round));
    }
    if created.lastError != IOErrors.ErrorAccessDenied {
      return false, Err(NativeError(created.lastError));
    }
    var found := openFileMapping(openReq, round);
    if found.valid {
      return false, Ok(Opened(round));
    }
    if found.lastError != IOErrors.ErrorFileNotFound {
      return false, Err(NativeError(found.lastError));
    }
    return true, Err(InvalidOperation);
  }

  /**
   * MemoryMappedFile.CreateOrOpen: after the checks, Write access only opens
   * (a missing map is an ArgumentException); any other access runs the
   * create-or-open rounds with the CreateFileMapping request for the capacity.
   */
  method CreateOrOpen(mapName: Option<string>, capacity: int64, access: int, options: int32, inheritability: int,
                      is32Bit: bool, createFileMapping: (MappingRequest, nat) -> NativeResult,
                      openFileMapping: (OpenRequest, nat) -> NativeResult)
    returns (r: Result<MapHandle>, sleeps: seq<nat>)
    ensures CreateOrOpenArgsError(mapName, capacity, access, options, inheritability, is32Bit).Some? ==>
      r == Err(CreateOrOpenArgsError(mapName, capacity, access, options, inheritability, is32Bit).value) && sleeps == []
    ensures CreateOrOpenArgsError(mapName, capacity, access, options, inheritability, is32Bit).None? && access == AccessWrite ==>
      r == OpenCore(openFileMapping(OpenRequest(FileMapWrite, inheritability == Inheritable, mapName.value), 0), true) &&
      sleeps == []
    ensures CreateOrOpenArgsError(mapName, capacity, access, options, inheritability, is32Bit).None? && access != AccessWrite ==>
      var req := MappingRequestFor(None, mapName, inheritability, access, options, capacity);
      var openReq := OpenRequest(GetFileMapAccess(access).value, inheritability == Inheritable, mapName.value);
      req.Ok? &&
      r == RoundsFrom(req.value, openReq, createFileMapping, openFileMapping, 0) &&
      sleeps == Backoff(RetriedRounds(req.value, openReq, createFileMapping, openFileMapping, 0))
  {
    var e := CreateOrOpenArgsError(mapName, capacity, access, options, inheritability, is32Bit);
    if e.Some? {
      return Err(e.value), [];
    }
    var name := mapName.value;
    var inherit := inheritability == Inheritable;
    if access == AccessWrite {
      r := OpenCore(openFileMapping(OpenRequest(GetFileMapAccess(access).value, inherit, name), 0), true);
      sleeps := [];
    } else {
      var req := MappingRequestFor(None, mapName, inheritability, access, options, capacity).value;
      r, sleeps := CreateOrOpenCore(req, OpenRequest(GetFileMapAccess(access).value, inherit, name),
                                    createFileMapping, openFileMapping);
    }
  }

  /*****************************************************************************
   *  CreateFromFile and Dispose.
   *****************************************************************************/

  /** The FileStream a file-backed map opens: path, mode and rights. */
  datatype FileStreamRequest = FileStreamRequest(path: string, mode: int, rights: nat)

  /** What CreateFromFile leaves behind: the handle or error, and whether the file was deleted. */
  datatype FileMapping = FileMapping(result: Result<MapHandle>, streamOpened: bool, fileDeleted: bool)

  /** CreateFromFile's checks before the file is found. */
  function CreateFromFileArgsError(path: Option<string>, mode: int, mapName: Option<string>, capacity: int64,
                                   access: int): (e: Option<Exc>)
    ensures e.None? <==>
      path.Some? && (mapName.None? || |mapName.value| > 0) && capacity >= 0 && ValidAccess(access) &&
      mode != FileModeAppend && access != AccessWrite
  {
    if path.None? then Some(ArgumentNull)
    else if mapName.Some? && |mapName.value| == 0 then Some(Argument)
    else if capacity < 0 then Some(ArgumentOutOfRange)
    else if !ValidAccess(access) then Some(ArgumentOutOfRange)
    else if mode == FileModeAppend then Some(Argument)
    else if access == AccessWrite then Some(Argument)
    else None
  }

  /**
   * The checks against the found file, with capacity 0 standing for the
   * file's length: an empty file with no capacity, a read-only map larger
   * than the file, a file larger than the capacity.
   */
  function FileLengthError(fileLength: int64, capacity: int64, access: int): (e: Option<Exc>)
    requires capacity >= 0 && fileLength >= 0
    ensures e.None? <==>
      !(capacity == 0 && fileLength == 0) && !(access == AccessRead && capacity > fileLength) &&
      (capacity == 0 || fileLength <= capacity)
  {
    if capacity == 0 && fileLength == 0 then Some(Argument)
    else if access == AccessRead && capacity > fileLength then Some(Argument)
    else if fileLength > (if capacity == 0 then fileLength else capacity) then Some(ArgumentOutOfRange)
    else None
  }

  /** The FileStream CreateFromFile opens: the path and mode, with the rights the access calls for. */
  function StreamRequest(path: string, mode: int, access: int): FileStreamRequest
    requires ValidAccess(access)
  {
    FileStreamRequest(path, mode, GetFileStreamFileSystemRights(access).value)
  }

  /** FileStream.Length: never negative. */
  type FileLength = n: int | 0 <= n <= Int64Max

  /**
   * MemoryMappedFile.CreateFromFile: `existed` is File.Exists(path) before
   * the call; `openStream` is the FileStream constructor, giving the
   * stream's length or the exception it throws.  That exception propagates
   * with nothing to clean up; every failure after the stream is open closes
   * it and deletes the file unless it existed before.
   */
  function CreateFromFile(path: Option<string>, mode: int, mapName: Option<string>, capacity: int64, access: int,
                          existed: bool, openStream: FileStreamRequest -> Result<FileLength>,
                          createFileMapping: MappingRequest -> NativeResult): (m: FileMapping)
    ensures m.fileDeleted ==> m.result.Err? && !existed && m.streamOpened
    ensures var e := CreateFromFileArgsError(path, mode, mapName, capacity, access);
      && (e.Some? ==> m == FileMapping(Err(e.value), false, false))
      && (e.None? ==>
            var stream := openStream(StreamRequest(path.value, mode, access));
            && (m.streamOpened <==> stream.Ok?)
            && (stream.Err? ==> m == FileMapping(Err(stream.error), false, false))
            && (stream.Ok? ==>
                  var lengthError := FileLengthError(stream.value, capacity, access);
                  && (lengthError.Some? ==> m == FileMapping(Err(lengthError.value), true, !existed))
                  && (lengthError.None? ==>
                        var size := if capacity == 0 then stream.value else capacity;
                        var req := MappingRequestFor(path, mapName, InheritNone, access, 0, size);
                        && req.Ok? && m.streamOpened
                        && m.result == CreateCore(createFileMapping(req.value))
                        && m.fileDeleted == (m.result.Err? && !existed)))
            && (m.result.Ok? ==>
                  var length := stream.value;
                  (if capacity == 0 then 0 < length else length <= capacity) && (access == AccessRead ==> capacity <= length)))
    ensures m.result.Err? && m.streamOpened ==> m.fileDeleted == !existed
    ensures m.result.Ok? ==> m.result.value == Created(0) && path.Some? && ValidAccess(access)
  {
    var e := CreateFromFileArgsError(path, mode, mapName, capacity, access);
    if e.Some? then FileMapping(Err(e.value), false, false)
    else
      var stream := openStream(StreamRequest(path.value, mode, access));
      if stream.Err? then FileMapping(Err(stream.error), false, false)
      else
        var length := stream.value;
        var lengthError := FileLengthError(length, capacity, access);
        if lengthError.Some? then FileMapping(Err(lengthError.value), true, !existed)
        else
          var size := if capacity == 0 then length else capacity;
          var req := MappingRequestFor(path, mapName, InheritNone, access, 0, size);
          var handle := CreateCore(createFileMapping(req.value));
          if handle.Err? then FileMapping(handle, true, !existed)
          else FileMapping(handle, true, false)
  }

  /** A map's handle and, for a file-backed map, its FileStream. */
  class MemoryMappedFile {
    var handleClosed: bool
    const hasFileStream: bool
    var fileStreamClosed: bool
    const leaveOpen: bool

    /** A map over a fresh handle, with no stream (CreateNew, CreateOrOpen, OpenExisting). */
    constructor FromHandle()
      ensures !handleClosed && !hasFileStream && !fileStreamClosed
    {
      handleClosed := false;
      hasFileStream := false;
      fileStreamClosed := false;
      leaveOpen := false;
    }

    /** A map over a file's stream (CreateFromFile passes leaveOpen false). */
    constructor WithFileStream(leaveOpen: bool)
      ensures !handleClosed && hasFileStream && !fileStreamClosed && this.leaveOpen == leaveOpen
    {
      handleClosed := false;
      hasFileStream := true;
      fileStreamClosed := false;
      this.leaveOpen := leaveOpen;
    }

    /** Dispose: closes the handle, and the stream unless it is to be left open. */
    method Dispose()
      modifies this
      ensures handleClosed
      ensures fileStreamClosed == (old(fileStreamClosed) || (hasFileStream && !leaveOpen))
    {
      if !handleClosed {
        handleClosed := true;
      }
      if hasFileStream && !leaveOpen {
        fileStreamClosed := true;
      }
    }
  }
}
