/*******************************************************************************
 *  IOErrors: the exception the I/O code raises for a Win32 error code, and the
 *  rule that decides how much of a path the exception's message may show.
 *
 *  The FileIOPermission PathDiscovery demand is an input: `demandGranted`
 *  says whether it succeeds.  A demand that throws ArgumentException or
 *  NotSupportedException counts as not granted, as the source catches those.
 *******************************************************************************/

module IOErrors {
  import opened Common
  import Win32Native

  /** Win32 error codes that WinIOError distinguishes. */
  const ErrorFileNotFound: int32 := 2
  const ErrorPathNotFound: int32 := 3
  const ErrorAccessDenied: int32 := 5
  const ErrorInvalidDrive: int32 := 15
  const ErrorSharingViolation: int32 := 32
  const ErrorFileExists: int32 := 80
  const ErrorInvalidParameter: int32 := 87
  const ErrorInvalidName: int32 := 123
  const ErrorBadPathname: int32 := 161
  const ErrorAlreadyExists: int32 := 183
  const ErrorFilenameExcedRange: int32 := 206
  const ErrorOperationAborted: int32 := 995

  /** Path.DirectorySeparatorChar, AltDirectorySeparatorChar and VolumeSeparatorChar on Windows. */
  const DirectorySeparatorChar: char := '\\'
  const AltDirectorySeparatorChar: char := '/'
  const VolumeSeparatorChar: char := ':'

  /** What a message shows in place of a directory the caller may not discover. */
  const NoPermissionToDirectoryName: string := "IO_IO_NoPermissionToDirectoryName"

  predicate IsSeparator(c: char)
  {
    c == DirectorySeparatorChar || c == AltDirectorySeparatorChar || c == VolumeSeparatorChar
  }

  /** Path.GetFileName: the characters after the last separator. */
  function GetFileName(path: string): (r: string)
    ensures |r| <= |path| && r == path[|path| - |r|..]
    ensures forall i :: 0 <= i < |r| ==> !IsSeparator(r[i])
    ensures |r| < |path| ==> IsSeparator(path[|path| - |r| - 1])
  {
    if |path| == 0 then ""
    else if IsSeparator(path[|path| - 1]) then ""
    else GetFileName(path[..|path| - 1]) + [path[|path| - 1]]
  }

  /** A path that begins with two directory separators (UNC) or has a drive letter. */
  predicate IsFullyQualified(path: string)
    requires |path| >= 2
  {
    (path[0] == DirectorySeparatorChar && path[1] == DirectorySeparatorChar) || path[1] == VolumeSeparatorChar
  }

  /**
   * GetDisplayablePath: a null, empty or one-character path is returned as is,
   * and so is a path that is neither fully qualified nor known to be invalid.
   * Otherwise the path is shown only if it is valid and the caller may
   * discover it; if not, a path ending in the directory separator becomes a
   * fixed message and any other path its file name.
   */
  function GetDisplayablePath(path: Option<string>, isInvalidPath: bool, demandGranted: bool): (r: Option<string>)
    ensures path.None? ==> r.None?
    ensures r.None? ==> path.None?
  {
    if path.None? || |path.value| == 0 then path
    else if |path.value| < 2 then path
    else if !IsFullyQualified(path.value) && !isInvalidPath then path
    else
      var safeToReturn := !isInvalidPath && demandGranted;
      if safeToReturn then path
      else if path.value[|path.value| - 1] == DirectorySeparatorChar then Some(NoPermissionToDirectoryName)
      else Some(GetFileName(path.value))
  }

  /** Whether the path is one GetDisplayablePath may have to hide. */
  predicate MayHide(path: string, isInvalidPath: bool)
  {
    |path| >= 2 && (IsFullyQualified(path) || isInvalidPath)
  }

  /** A path that need not be hidden, or that the caller may discover, is shown whole. */
  lemma DisplayablePathShown(path: Option<string>, isInvalidPath: bool, demandGranted: bool)
    requires path.None? || !MayHide(path.value, isInvalidPath) || (!isInvalidPath && demandGranted)
    ensures GetDisplayablePath(path, isInvalidPath, demandGranted) == path
  {
  }

  /**
   * A hidden path shows no directory: a path ending in the directory
   * separator becomes the fixed message, and any other path the part after its
   * last separator; either way the text shown contains no separator, and the
   * file name of a fully qualified path is always shorter than the path.
   */
  lemma {:induction false} HiddenPathShowsNoDirectory(path: string, isInvalidPath: bool, demandGranted: bool)
    requires MayHide(path, isInvalidPath) && !(!isInvalidPath && demandGranted)
    ensures var r := GetDisplayablePath(Some(path), isInvalidPath, demandGranted);
      r.Some? && (forall i :: 0 <= i < |r.value| ==> !IsSeparator(r.value[i])) &&
      (path[|path| - 1] == DirectorySeparatorChar ==> r.value == NoPermissionToDirectoryName) &&
      (path[|path| - 1] != DirectorySeparatorChar ==>
        |r.value| <= |path| && r.value == path[|path| - |r.value|..] &&
        (|r.value| < |path| ==> IsSeparator(path[|path| - |r.value| - 1])))
    ensures path[|path| - 1] != DirectorySeparatorChar && IsFullyQualified(path) ==>
      |GetDisplayablePath(Some(path), isInvalidPath, demandGranted).value| < |path|
  {
    var m := NoPermissionToDirectoryName;
    assert forall i :: 0 <= i < |m| ==> !IsSeparator(m[i]);
    if path[|path| - 1] != DirectorySeparatorChar && IsFullyQualified(path) {
      var f := GetFileName(path);
      if |f| == |path| {
        assert f == path;
        assert IsSeparator(f[1]);
      }
    }
  }

  /** How an exception's message is built: a resource string, or the system text for the code. */
  datatype Message = Resource(key: string) | SystemMessage(code: int32)

  /**
   * An exception WinIOError throws: its class, the HResult it is given (only
   * IOException gets one), its message and the path text inserted into it.
   */
  datatype IOFailure = IOFailure(kind: Exc, hresult: Option<int32>, message: Message, shownPath: Option<string>)

  /**
   * WinIOError(errorCode, maybeFullPath): never returns; the exception depends
   * on the code and on the path text GetDisplayablePath allows. Codes 2, 3, 5,
   * 183, 32 and 80 read the length of that text, so a null path makes them
   * fail with a NullReferenceException.
   */
  function WinIOError(errorCode: int32, maybeFullPath: Option<string>, demandGranted: bool): (e: IOFailure)
  {
    var isInvalidPath := errorCode == ErrorInvalidName || errorCode == ErrorBadPathname;
    var str := GetDisplayablePath(maybeFullPath, isInvalidPath, demandGranted);
    var hr := Some(Win32Native.MakeHRFromErrorCode(errorCode));
    var default := IOFailure(IOError, hr, SystemMessage(errorCode), None);
    var readsLength := errorCode in {ErrorFileNotFound, ErrorPathNotFound, ErrorAccessDenied,
                                     ErrorAlreadyExists, ErrorSharingViolation, ErrorFileExists};
    if readsLength && str.None? then IOFailure(NullReference, None, Resource(""), None)
    else if errorCode == ErrorFileNotFound then
      if |str.value| == 0 then IOFailure(FileNotFound, None, Resource("IO_FileNotFound"), None)
      else IOFailure(FileNotFound, None, Resource("IO_FileNotFound_FileName"), str)
    else if errorCode == ErrorPathNotFound then
      if |str.value| == 0 then IOFailure(DirectoryNotFound, None, Resource("IO_PathNotFound_NoPathName"), None)
      else IOFailure(DirectoryNotFound, None, Resource("IO_PathNotFound_Path"), str)
    else if errorCode == ErrorAccessDenied then
      if |str.value| == 0 then IOFailure(UnauthorizedAccess, None, Resource("UnauthorizedAccess_IODenied_NoPathName"), None)
      else IOFailure(UnauthorizedAccess, None, Resource("UnauthorizedAccess_IODenied_Path"), str)
    else if errorCode == ErrorAlreadyExists then
      if |str.value| == 0 then default
      else IOFailure(IOError, hr, Resource("IO_IO_AlreadyExists_Name"), str)
    else if errorCode == ErrorFilenameExcedRange then
      IOFailure(PathTooLong, None, Resource("IO_PathTooLong"), None)
    else if errorCode == ErrorInvalidDrive then
      IOFailure(DriveNotFound, None, Resource("IO_DriveNotFound_Drive"), str)
    else if errorCode == ErrorInvalidParameter then
      IOFailure(IOError, hr, SystemMessage(errorCode), None)
    else if errorCode == ErrorSharingViolation then
      if |str.value| == 0 then IOFailure(IOError, hr, Resource("IO_IO_SharingViolation_NoFileName"), None)
      else IOFailure(IOError, hr, Resource("IO_IO_SharingViolation_File"), str)
    else if errorCode == ErrorFileExists then
      if |str.value| == 0 then default
      else IOFailure(IOError, hr, Resource("IO_IO_FileExists_Name"), str)
    else if errorCode == ErrorOperationAborted then
      IOFailure(OperationCanceled, None, Resource(""), None)
    else default
  }

  /** The exception class for each code, for a path that is present. */
  function ExceptionFor(errorCode: int32): Exc
  {
    if errorCode == ErrorFileNotFound then FileNotFound
    else if errorCode == ErrorPathNotFound then DirectoryNotFound
    else if errorCode == ErrorAccessDenied then UnauthorizedAccess
    else if errorCode == ErrorFilenameExcedRange then PathTooLong
    else if errorCode == ErrorInvalidDrive then DriveNotFound
    else if errorCode == ErrorOperationAborted then OperationCanceled
    else IOError
  }

  /**
   * With a path present, the class of the exception depends on the code alone,
   * and every IOException carries the HRESULT built from the code.
   */
  lemma WinIOErrorClass(errorCode: int32, path: string, demandGranted: bool)
    ensures WinIOError(errorCode, Some(path), demandGranted).kind == ExceptionFor(errorCode)
    ensures var e := WinIOError(errorCode, Some(path), demandGranted);
      e.kind == IOError <==> e.hresult == Some(Win32Native.MakeHRFromErrorCode(errorCode))
  {
  }

  /**
   * A null path fails with NullReferenceException exactly for the codes whose
   * branch reads the length of the displayable path.
   */
  lemma WinIOErrorNullPath(errorCode: int32, demandGranted: bool)
    ensures WinIOError(errorCode, None, demandGranted).kind == NullReference <==>
      errorCode in {ErrorFileNotFound, ErrorPathNotFound, ErrorAccessDenied,
                    ErrorAlreadyExists, ErrorSharingViolation, ErrorFileExists}
  {
  }

  /**
   * ERROR_ALREADY_EXISTS and ERROR_FILE_EXISTS with nothing to show fall
   * through to the default: the system message with the code's HRESULT.
   */
  lemma ExistsWithoutPathIsDefault(errorCode: int32, demandGranted: bool)
    requires errorCode == ErrorAlreadyExists || errorCode == ErrorFileExists
    ensures WinIOError(errorCode, Some(""), demandGranted) ==
      WinIOError(ErrorOperationAborted + 1, Some(""), demandGranted).(hresult := Some(Win32Native.MakeHRFromErrorCode(errorCode)), message := SystemMessage(errorCode))
  {
  }

  /** An IOException's HRESULT is negative and holds the Win32 code in its low 16 bits. */
  lemma WinIOErrorHResult(errorCode: int32, path: Option<string>, demandGranted: bool)
    requires 0 <= errorCode < 0x1_0000
    ensures var e := WinIOError(errorCode, path, demandGranted);
      e.hresult.Some? ==> e.hresult.value < 0 && e.hresult.value % 0x1_0000 == errorCode
  {
    Win32Native.MakeHRWin32Code(errorCode);
  }

  /**
   * The path text a message shows never names a directory the caller could
   * not discover: for an invalid name, or a fully qualified path whose demand
   * fails, it holds no separator.
   */
  lemma WinIOErrorHidesDirectories(errorCode: int32, path: string, demandGranted: bool)
    requires MayHide(path, errorCode == ErrorInvalidName || errorCode == ErrorBadPathname)
    requires errorCode == ErrorInvalidName || errorCode == ErrorBadPathname || !demandGranted
    ensures var e := WinIOError(errorCode, Some(path), demandGranted);
      e.shownPath.Some? ==> forall i :: 0 <= i < |e.shownPath.value| ==> !IsSeparator(e.shownPath.value[i])
  {
    HiddenPathShowsNoDirectory(path, errorCode == ErrorInvalidName || errorCode == ErrorBadPathname, demandGranted);
  }

  /** The stream helpers: each throws unconditionally, with the class it names. */
  function StreamIsClosed(): (e: Exc)
    ensures e == ObjectDisposed
  {
    ObjectDisposed
  }

  function ReadNotSupported(): (e: Exc)
    ensures e == NotSupported
  {
    NotSupported
  }

  function SeekNotSupported(): (e: Exc)
    ensures e == NotSupported
  {
    NotSupported
  }

  function WriteNotSupported(): (e: Exc)
    ensures e == NotSupported
  {
    NotSupported
  }
}
