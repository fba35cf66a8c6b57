/*******************************************************************************
 *  Extensions: the back-port's extension methods with logic of their own:
 *  Enum.HasFlag, IPAddress.IPAddressNumbers and MapToIPv4, the Range
 *  header HttpWebRequest.AddRange writes, EnumEx.TryParse,
 *  string.IsNullOrWhiteSpace, Type.ImplementInterface and
 *  ArraySegment.ToArray.
 *******************************************************************************/

module Extensions {
  import opened Common
  import ArraySegments

  /*****************************************************************************
   *  HasFlag
   *****************************************************************************/

  /** The values an enum can hold, over all its possible underlying types. */
  type EnumBits = x: int | Int64Min <= x <= UInt64Max

  /** A boxed enum value: the enum type it belongs to and its numeric value. */
  datatype EnumValue = EnumValue(enumType: string, value: EnumBits)

  /** Convert.ToUInt64 of an enum: a negative value does not fit. */
  function ToUInt64(e: EnumValue): (r: Result<uint64>)
    ensures r.Ok? <==> e.value >= 0
    ensures r.Ok? ==> r.value == e.value
    ensures r.Err? ==> r.error == Overflow
  {
    if e.value < 0 then Err(Overflow) else Ok(e.value)
  }

  /**
   * HasFlag(variable, value): Argument for enums of different types;
   * otherwise (variable & value) == value on the unsigned images, which are
   * taken flag first.
   */
  function HasFlag(variable: EnumValue, value: EnumValue): (r: Result<bool>)
    ensures variable.enumType != value.enumType ==> r == Err(Argument)
    ensures variable.enumType == value.enumType && (value.value < 0 || variable.value < 0) ==> r == Err(Overflow)
    ensures r.Ok? <==> variable.enumType == value.enumType && value.value >= 0 && variable.value >= 0
  {
    if variable.enumType != value.enumType then Err(Argument)
    else
      var num :- ToUInt64(value);
      var num2 :- ToUInt64(variable);
      Ok(BitAnd(num2, num) == num)
  }

  /** Whether every bit of `f` is set in `v`: the test HasFlag makes. */
  predicate Covers(v: nat, f: nat)
  {
    BitAnd(v, f) == f
  }

  /**
   * The flag tests HasFlag answers: a zero flag is always set, a value has
   * itself as a flag, and a flag of a flag is a flag.
   */
  lemma HasFlagLaws(variable: EnumValue, value: EnumValue, other: EnumValue)
    requires variable.enumType == value.enumType == other.enumType
    requires variable.value >= 0 && value.value >= 0 && other.value >= 0
    ensures HasFlag(variable, value) == Ok(Covers(variable.value, value.value))
    ensures value.value == 0 ==> HasFlag(variable, value) == Ok(true)
    ensures HasFlag(variable, variable) == Ok(true)
    ensures HasFlag(variable, value) == Ok(true) && HasFlag(value, other) == Ok(true) ==> HasFlag(variable, other) == Ok(true)
  {
    AndSelf(variable.value);
    if Covers(variable.value, value.value) && Covers(value.value, other.value) {
      CoversTransitive(variable.value, value.value, other.value);
    }
  }

  /** Bits of bits: if v covers f and f covers g, then v covers g. */
  lemma {:induction false} CoversTransitive(v: nat, f: nat, g: nat)
    requires Covers(v, f) && Covers(f, g)
    ensures Covers(v, g)
    decreases g
  {
    if g != 0 {
      BitAndStep(v, g);
      BitAndStep(v, f);
      BitAndStep(f, g);
      CoversTransitive(v / 2, f / 2, g / 2);
    }
  }

  /** Two flags both set in v are set together: v covers their union. */
  lemma {:induction false} CoversUnion(v: nat, f: nat, g: nat)
    requires Covers(v, f) && Covers(v, g)
    ensures Covers(v, BitOr(f, g))
    decreases f + g
  {
    if f != 0 && g != 0 {
      BitAndStep(v, f);
      BitAndStep(v, g);
      CoversUnion(v / 2, f / 2, g / 2);
      BitAndStep(v, BitOr(f, g));
    }
  }

  /*****************************************************************************
   *  IPAddressNumbers and MapToIPv4
   *****************************************************************************/

  /** The number of 16-bit groups of an IPv6 address. */
  const NumberOfLabels: nat := 8

  datatype AddressFamily = InterNetwork | InterNetworkV6

  /** An IPAddress by its family and GetAddressBytes(): 4 bytes for IPv4, 16 for IPv6. */
  datatype IPAddress = IPAddress(family: AddressFamily, bytes: seq<byte>)
  {
    predicate Valid()
    {
      |bytes| == if family == InterNetwork then 4 else 16
    }
  }

  /** Group i of an address: bytes 2i and 2i + 1 read big-endian. */
  function Group(bytes: seq<byte>, i: nat): (n: uint16)
    requires 2 * i + 1 < |bytes|
  {
    bytes[2 * i] as int * 256 + bytes[2 * i + 1] as int
  }

  /** The eight groups IPAddressNumbers returns for an address of at least 16 bytes. */
  function Groups(bytes: seq<byte>): (r: seq<uint16>)
    requires |bytes| >= 16
    ensures |r| == NumberOfLabels
  {
    seq(NumberOfLabels, i requires 0 <= i < NumberOfLabels => Group(bytes, i))
  }

  /** The groups give the bytes back: group i holds byte 2i high and byte 2i + 1 low. */
  lemma GroupsAreBigEndian(bytes: seq<byte>)
    requires |bytes| >= 16
    ensures forall i :: 0 <= i < NumberOfLabels ==>
      Groups(bytes)[i] / 256 == bytes[2 * i] && Groups(bytes)[i] % 256 == bytes[2 * i + 1]
  {
  }

  /**
   * IPAddressNumbers: fill eight 16-bit groups from the address bytes.  An
   * IPv4 address has only four bytes, and the loop runs off their end.
   */
  method IPAddressNumbers(addr: IPAddress) returns (r: Result<seq<uint16>>)
    ensures |addr.bytes| >= 16 ==> r == Ok(Groups(addr.bytes))
    ensures |addr.bytes| < 16 ==> r == Err(IndexOutOfRange)
  {
    var addressBytes := addr.bytes;
    var numbers := new uint16[NumberOfLabels];
    var i := 0;
    while i < NumberOfLabels
      invariant 0 <= i <= NumberOfLabels
      invariant 2 * i <= |addressBytes|
      invariant forall j :: 0 <= j < i ==> numbers[j] == Group(addressBytes, j)
    {
      if i * 2 + 1 >= |addressBytes| {
        return Err(IndexOutOfRange);
      }
      numbers[i] := addressBytes[i * 2] as int * 256 + addressBytes[i * 2 + 1] as int;
      i := i + 1;
    }
    assert numbers[..] == Groups(addressBytes);
    r := Ok(numbers[..]);
  }

  /** One group with its two bytes swapped: ((n & 0xFF00) >> 8) | ((n & 0xFF) << 8). */
  function SwapBytes(n: uint16): (r: uint16)
  {
    n / 256 + (n % 256) * 256
  }

  /**
   * The IPv4 address MapToIPv4 builds from an IPv6 address: groups 6 and 7
   * byte-swapped, group 7 in the high half, so the bytes 12 to 15 of the
   * address read little-endian, the embedded IPv4 address of section
   * 2.5.5.2 of RFC 4291 in the layout IPAddress(long) takes.
   */
  function MappedAddress(bytes: seq<byte>): (address: int)
    requires |bytes| >= 16
    ensures address == LeUInt32(bytes, 12)
    ensures 0 <= address <= UInt32Max
  {
    var numbers := Groups(bytes);
    SwapGroup(bytes, 6);
    SwapGroup(bytes, 7);
    SwapBytes(numbers[6]) + SwapBytes(numbers[7]) * 0x1_0000
  }

  /** Swapping the bytes of group i reads bytes 2i and 2i + 1 little-endian. */
  lemma SwapGroup(bytes: seq<byte>, i: nat)
    requires 2 * i + 1 < |bytes|
    ensures SwapBytes(Group(bytes, i)) == LeUInt16(bytes, 2 * i)
  {
    var hi, lo := bytes[2 * i] as int, bytes[2 * i + 1] as int;
    assert Group(bytes, i) == hi * 256 + lo;
    assert (hi * 256 + lo) / 256 == hi;
    assert (hi * 256 + lo) % 256 == lo;
  }

  /** new IPAddress(long) for a value in range: the four bytes of the value, low byte first. */
  function IPv4Of(address: uint32): (r: IPAddress)
    ensures r.Valid() && r.family == InterNetwork
    ensures LeUInt32(r.bytes, 0) == address
  {
    Split32(address);
    IPAddress(InterNetwork, [address % 0x100, address / 0x100 % 0x100, address / 0x1_0000 % 0x100, address / 0x100_0000])
  }

  /** MapToIPv4: an IPv4 address unchanged; an IPv6 address becomes its last four bytes. */
  function MapToIPv4(addr: IPAddress): (r: IPAddress)
    requires addr.Valid()
    ensures r.Valid() && r.family == InterNetwork
    ensures addr.family == InterNetwork ==> r == addr
    ensures addr.family == InterNetworkV6 ==> r.bytes == addr.bytes[12..16]
  {
    if addr.family == InterNetwork then addr
    else
      IPv4OfBytes(addr.bytes, 12);
      IPv4Of(MappedAddress(addr.bytes))
  }

  /** The address read little-endian from four bytes gives those bytes back. */
  lemma IPv4OfBytes(b: seq<byte>, i: nat)
    requires i + 4 <= |b|
    ensures IPv4Of(LeUInt32(b, i)).bytes == b[i..i + 4]
  {
    LeBytes32Of(b, i);
    assert LeInt32(b, i) % 0x1_0000_0000 == LeUInt32(b, i);
  }

  /** Mapping twice is mapping once. */
  lemma MapToIPv4Idempotent(addr: IPAddress)
    requires addr.Valid()
    ensures MapToIPv4(MapToIPv4(addr)) == MapToIPv4(addr)
  {
  }

  /*****************************************************************************
   *  AddRange
   *****************************************************************************/

  function DigitChar(d: nat): (c: char)
    requires d < 10
    ensures '0' <= c <= '9'
  {
    ('0' as int + d) as char
  }

  /** long.ToString() of a value that is not negative: its decimal digits. */
  function DecimalString(n: nat): (s: string)
    ensures |s| >= 1
    ensures forall i :: 0 <= i < |s| ==> '0' <= s[i] <= '9'
  {
    if n < 10 then [DigitChar(n)] else DecimalString(n / 10) + [DigitChar(n % 10)]
  }

  /** The value of a string of decimal digits. */
  function DigitsValue(s: string): nat
    requires forall i :: 0 <= i < |s| ==> '0' <= s[i] <= '9'
  {
    if |s| == 0 then 0 else 10 * DigitsValue(s[..|s| - 1]) + (s[|s| - 1] as int - '0' as int)
  }

  /** Reading the digits back gives the number. */
  lemma {:induction false} DecimalStringValue(n: nat)
    ensures DigitsValue(DecimalString(n)) == n
  {
    if n >= 10 {
      var s := DecimalString(n);
      assert s[..|s| - 1] == DecimalString(n / 10);
      DecimalStringValue(n / 10);
    }
  }

  /** The Range header AddRange writes: its name and its value. */
  datatype Header = Header(key: string, value: string)

  /**
   * AddRange(request, start, end): ArgumentNull without a request,
   * ArgumentOutOfRange for a negative start; an end before the start means
   * "to the end", written "bytes=start-", and otherwise "bytes=start-end".
   */
  function AddRange(hasRequest: bool, start: int64, end: int64): (r: Result<Header>)
    ensures !hasRequest ==> r == Err(ArgumentNull)
    ensures hasRequest && start < 0 ==> r == Err(ArgumentOutOfRange)
    ensures r.Ok? <==> hasRequest && start >= 0
    ensures r.Ok? ==> r.value.key == "Range" && |r.value.value| >= 6 && r.value.value[..6] == "bytes="
  {
    if !hasRequest then Err(ArgumentNull)
    else if start < 0 then Err(ArgumentOutOfRange)
    else
      var last := if end < start then -1 else end;
      Ok(Header("Range", "bytes=" + DecimalString(start) + "-" + (if last == -1 then "" else DecimalString(last))))
  }

  /** AddRange(request, rangeSpecifier, start): request.AddRange(start, -1L), a range open at the end. */
  function AddRangeFrom(hasRequest: bool, start: int64): (r: Result<Header>)
    ensures r == AddRange(hasRequest, start, -1)
    ensures r.Ok? ==> r.value.value == "bytes=" + DecimalString(start) + "-"
  {
    AddRange(hasRequest, start, -1)
  }

  /** The position of the first '-' in `s`, or |s|. */
  function DashAt(s: string): (k: nat)
    ensures k <= |s|
    ensures forall i :: 0 <= i < k ==> s[i] != '-'
    ensures k < |s| ==> s[k] == '-'
  {
    if |s| == 0 || s[0] == '-' then 0 else 1 + DashAt(s[1..])
  }

  predicate AllDigits(s: string)
  {
    forall i :: 0 <= i < |s| ==> '0' <= s[i] <= '9'
  }

  /**
   * A reader of a single byte-range-spec, section 2.1 of RFC 7233: "bytes="
   * then first-byte-pos "-" and an optional last-byte-pos.
   */
  function ParseRange(value: string): Option<(nat, Option<nat>)>
  {
    if |value| < 6 || value[..6] != "bytes=" then None
    else ParseByteRange(value[6..])
  }

  /** The byte-range-spec after "bytes=": first-byte-pos, "-", and an optional last-byte-pos. */
  function ParseByteRange(spec: string): Option<(nat, Option<nat>)>
  {
    var dash := DashAt(spec);
    var first := spec[..dash];
    if dash == |spec| || |first| == 0 || !AllDigits(first) then None
    else
      var last := spec[dash + 1..];
      if |last| == 0 then Some((DigitsValue(first), None))
      else if AllDigits(last) then Some((DigitsValue(first), Some(DigitsValue(last))))
      else None
  }

  /**
   * The header reads back as the range asked for: the start, and the end
   * unless it came before the start; a spec with a last-byte-pos always has
   * it no smaller than the first.
   */
  lemma AddRangeReadsBack(start: int64, end: int64)
    requires start >= 0
    ensures var v := AddRange(true, start, end).value.value;
      ParseRange(v) == Some((start as nat, if end < start then None else Some(end as nat)))
  {
    var first := DecimalString(start);
    var rest := if end < start then "" else DecimalString(end);
    assert AddRange(true, start, end).value.value == "bytes=" + first + "-" + rest;
    ParseSpec(first, rest);
    DecimalStringValue(start);
    if end >= start {
      DecimalStringValue(end);
    }
  }

  /** A header "bytes=" + digits + "-" + digits parses as those two numbers, the second absent when empty. */
  lemma ParseSpec(first: string, rest: string)
    requires |first| > 0 && AllDigits(first) && AllDigits(rest)
    ensures ParseRange("bytes=" + first + "-" + rest) ==
      Some((DigitsValue(first), if |rest| == 0 then None else Some(DigitsValue(rest))))
  {
    assert "bytes=" + first + "-" + rest == "bytes=" + (first + "-" + rest);
    ParsePrefix(first + "-" + rest);
    ParseDigitsDash(first, rest);
  }

  /** After the "bytes=" prefix, ParseRange reads the rest as a byte-range-spec. */
  lemma ParsePrefix(spec: string)
    ensures ParseRange("bytes=" + spec) == ParseByteRange(spec)
  {
    var v := "bytes=" + spec;
    assert v[..6] == "bytes=" && v[6..] == spec;
  }

  /** Digits, a dash and digits read as those two numbers, the second absent when empty. */
  lemma ParseDigitsDash(first: string, rest: string)
    requires |first| > 0 && AllDigits(first) && AllDigits(rest)
    ensures ParseByteRange(first + "-" + rest) ==
      Some((DigitsValue(first), if |rest| == 0 then None else Some(DigitsValue(rest))))
  {
    var spec := first + "-" + rest;
    DashOfDigits(first, rest);
    assert spec[..|first|] == first;
    assert spec[|first| + 1..] == rest;
  }

  /** In digits, a dash, and more, the dash is found just after the digits. */
  lemma {:induction false} DashOfDigits(digits: string, rest: string)
    requires AllDigits(digits)
    ensures DashAt(digits + "-" + rest) == |digits|
  {
    if |digits| > 0 {
      assert (digits + "-" + rest)[1..] == digits[1..] + "-" + rest;
      DashOfDigits(digits[1..], rest);
    }
  }

  /*****************************************************************************
   *  EnumEx.TryParse
   *****************************************************************************/

  /** A declared member of an enum: its name and its value. */
  datatype EnumMember = EnumMember(name: string, value: int)

  /** The position of the first name in members[from..] equal to `str` ignoring case, or -1. */
  function FirstNameMatch(members: seq<EnumMember>, str: string, from: nat): (k: int)
    requires from <= |members|
    ensures k == -1 || from <= k < |members|
    ensures k != -1 ==> EqualsIgnoreCase(members[k].name, str)
    ensures forall i :: from <= i < |members| && (k == -1 || i < k) ==> !EqualsIgnoreCase(members[i].name, str)
    decreases |members| - from
  {
    if from == |members| then -1
    else if EqualsIgnoreCase(members[from].name, str) then from
    else FirstNameMatch(members, str, from + 1)
  }

  /**
   * EnumEx.TryParse(str, out val): walk Enum.GetNames in order and take the
   * first name equal to `str` ignoring case; without one, false and
   * default(T).  A null string matches no name.
   */
  method TryParse(members: seq<EnumMember>, str: Option<string>) returns (found: bool, val: int)
    ensures found <==> str.Some? && exists i :: 0 <= i < |members| && EqualsIgnoreCase(members[i].name, str.value)
    ensures found ==> val == members[FirstNameMatch(members, str.value, 0)].value
    ensures !found ==> val == 0
  {
    var i := 0;
    while i < |members|
      invariant 0 <= i <= |members|
      invariant str.Some? ==> FirstNameMatch(members, str.value, 0) == FirstNameMatch(members, str.value, i)
    {
      if str.Some? && EqualsIgnoreCase(members[i].name, str.value) {
        return true, members[i].value;
      }
      i := i + 1;
    }
    return false, 0;
  }

  /*****************************************************************************
   *  IsNullOrWhiteSpace
   *****************************************************************************/

  /**
   * char.IsWhiteSpace: the space, line and paragraph separators of Unicode,
   * the controls U+0009 to U+000D, and U+0085.
   */
  predicate IsWhiteSpace(c: char)
  {
    ('\U{0009}' <= c <= '\U{000D}') || c == '\U{0020}' || c == '\U{0085}' || c == '\U{00A0}' ||
    c == '\U{1680}' || ('\U{2000}' <= c <= '\U{200A}') || c == '\U{2028}' || c == '\U{2029}' ||
    c == '\U{202F}' || c == '\U{205F}' || c == '\U{3000}'
  }

  /** TrimStart: drop the leading white space. */
  function TrimStart(s: string): (r: string)
    ensures |r| <= |s| && r == s[|s| - |r|..]
    ensures forall i :: 0 <= i < |s| - |r| ==> IsWhiteSpace(s[i])
    ensures |r| > 0 ==> !IsWhiteSpace(r[0])
  {
    if |s| > 0 && IsWhiteSpace(s[0]) then TrimStart(s[1..]) else s
  }

  /** TrimEnd: drop the trailing white space. */
  function TrimEnd(s: string): (r: string)
    ensures |r| <= |s| && r == s[..|r|]
    ensures forall i :: |r| <= i < |s| ==> IsWhiteSpace(s[i])
    ensures |r| > 0 ==> !IsWhiteSpace(r[|r| - 1])
  {
    if |s| > 0 && IsWhiteSpace(s[|s| - 1]) then TrimEnd(s[..|s| - 1]) else s
  }

  /**
   * string.Trim: empty exactly when every character is white space, and
   * otherwise starting and ending with a character that is not.
   */
  function Trim(s: string): (r: string)
    ensures |r| == 0 <==> forall i :: 0 <= i < |s| ==> IsWhiteSpace(s[i])
    ensures |r| > 0 ==> !IsWhiteSpace(r[0]) && !IsWhiteSpace(r[|r| - 1])
  {
    TrimEnd(TrimStart(s))
  }

  /** IsNullOrWhiteSpace(str): string.IsNullOrEmpty(str?.Trim()), true exactly for null and all-white-space strings. */
  predicate IsNullOrWhiteSpace(str: Option<string>)
    ensures IsNullOrWhiteSpace(str) <==> str.None? || forall i :: 0 <= i < |str.value| ==> IsWhiteSpace(str.value[i])
  {
    str.None? || |Trim(str.value)| == 0
  }

  /*****************************************************************************
   *  ImplementInterface
   *****************************************************************************/

  /**
   * A type by its base type, the interfaces GetInterfaces lists for it,
   * whether it is an interface, and, for a generic parameter, the
   * constraints GetGenericParameterConstraints lists.
   */
  datatype TypeDesc = TypeDesc(baseType: Option<nat>, interfaces: seq<nat>, isInterface: bool,
                               isGenericParameter: bool, constraints: seq<nat>)

  /**
   * A closed set of types, numbered so that a type's base type, its
   * interfaces and its constraints come before it; every acyclic type
   * hierarchy can be numbered so.
   */
  predicate Ordered(u: map<nat, TypeDesc>)
  {
    forall t | t in u ::
      (u[t].baseType.Some? ==> u[t].baseType.value < t && u[t].baseType.value in u) &&
      (forall k | 0 <= k < |u[t].interfaces| :: u[t].interfaces[k] < t && u[t].interfaces[k] in u) &&
      forall k | 0 <= k < |u[t].constraints| :: u[t].constraints[k] < t && u[t].constraints[k] in u
  }

  /**
   * Whether type t implements `iface`: some type on t's base chain lists
   * `iface` among its interfaces, or lists an interface that implements it.
   */
  predicate Implements(u: map<nat, TypeDesc>, t: nat, iface: nat)
    requires Ordered(u) && t in u
    decreases t, 2
  {
    ListedFrom(u, t, iface, 0) ||
    (u[t].baseType.Some? && Implements(u, u[t].baseType.value, iface))
  }

  /** Whether one of the interfaces of t from position k on is `iface` or implements it. */
  predicate ListedFrom(u: map<nat, TypeDesc>, t: nat, iface: nat, k: nat)
    requires Ordered(u) && t in u
    decreases t, 1, |u[t].interfaces| - k
  {
    k < |u[t].interfaces| &&
    (u[t].interfaces[k] == iface || Implements(u, u[t].interfaces[k], iface) || ListedFrom(u, t, iface, k + 1))
  }

  /** ListedFrom is the search over the rest of the interface list. */
  lemma {:induction false} ListedFromIsSearch(u: map<nat, TypeDesc>, t: nat, iface: nat, k: nat)
    requires Ordered(u) && t in u
    ensures ListedFrom(u, t, iface, k) <==>
      exists m :: k <= m < |u[t].interfaces| &&
        (u[t].interfaces[m] == iface || Implements(u, u[t].interfaces[m], iface))
    decreases |u[t].interfaces| - k
  {
    var ifs := u[t].interfaces;
    if k < |ifs| {
      ListedFromIsSearch(u, t, iface, k + 1);
      if ifs[k] == iface || Implements(u, ifs[k], iface) {
        assert k <= k < |ifs| && (ifs[k] == iface || Implements(u, ifs[k], iface));
      } else {
        assert ListedFrom(u, t, iface, k) == ListedFrom(u, t, iface, k + 1);
        forall m | k <= m < |ifs| && (ifs[m] == iface || Implements(u, ifs[m], iface))
          ensures k + 1 <= m
        {
        }
      }
    }
  }

  /**
   * A type implements what it lists, what its listed interfaces implement,
   * and what its base type implements; and it never implements itself or a
   * type that comes after it.
   */
  lemma {:induction false} ImplementsLaws(u: map<nat, TypeDesc>, t: nat, iface: nat)
    requires Ordered(u) && t in u
    ensures (exists m :: 0 <= m < |u[t].interfaces| && u[t].interfaces[m] == iface) ==> Implements(u, t, iface)
    ensures (exists m :: 0 <= m < |u[t].interfaces| && Implements(u, u[t].interfaces[m], iface)) ==> Implements(u, t, iface)
    ensures u[t].baseType.Some? && Implements(u, u[t].baseType.value, iface) ==> Implements(u, t, iface)
    ensures Implements(u, t, iface) ==> iface < t
    decreases t
  {
    ListedFromIsSearch(u, t, iface, 0);
    if u[t].baseType.Some? {
      ImplementsLaws(u, u[t].baseType.value, iface);
    }
    forall m | 0 <= m < |u[t].interfaces|
      ensures Implements(u, u[t].interfaces[m], iface) ==> iface < t
    {
      ImplementsLaws(u, u[t].interfaces[m], iface);
    }
  }

  /**
   * ImplementInterface(thisType, ifaceType): walk the base chain and, at
   * each type, its interfaces, each either the target or, recursively, one
   * that implements it.
   */
  method ImplementInterface(u: map<nat, TypeDesc>, thisType: nat, ifaceType: nat) returns (b: bool)
    requires Ordered(u) && thisType in u
    ensures b == Implements(u, thisType, ifaceType)
    decreases thisType
  {
    var t: Option<nat> := Some(thisType);
    while t.Some?
      invariant t.Some? ==> t.value in u && t.value <= thisType
      invariant Implements(u, thisType, ifaceType) == (t.Some? && Implements(u, t.value, ifaceType))
      decreases if t.Some? then t.value + 1 else 0
    {
      var interfaces := u[t.value].interfaces;
      var i := 0;
      while i < |interfaces|
        invariant 0 <= i <= |interfaces|
        invariant ListedFrom(u, t.value, ifaceType, 0) == ListedFrom(u, t.value, ifaceType, i)
      {
        if interfaces[i] == ifaceType {
          assert ListedFrom(u, t.value, ifaceType, i);
          return true;
        }
        var inherited := ImplementInterface(u, interfaces[i], ifaceType);
        if inherited {
          assert ListedFrom(u, t.value, ifaceType, i);
          return true;
        }
        assert ListedFrom(u, t.value, ifaceType, i) == ListedFrom(u, t.value, ifaceType, i + 1);
        i := i + 1;
      }
      assert !ListedFrom(u, t.value, ifaceType, 0);
      t := u[t.value].baseType;
    }
    return false;
  }

  /*****************************************************************************
   *  ToArray(ArraySegment)
   *****************************************************************************/

  /** ToArray(segment): the segment's Array property, the whole underlying array. */
  function SegmentToArray<T>(s: ArraySegments.Segment<T>): (r: array?<T>)
    ensures r == s.arr
  {
    s.arr
  }

  /**
   * The window is dropped: the array handed back has the segment's count
   * of elements only when the segment is the whole array.
   */
  lemma SegmentToArrayIgnoresWindow<T>(a: array<T>, offset: int32, count: int32)
    requires ArraySegments.NewSegmentRange(a, offset, count).Ok?
    ensures SegmentToArray(ArraySegments.NewSegmentRange(a, offset, count).value) == a
    ensures SegmentToArray(ArraySegments.NewSegmentRange(a, offset, count).value).Length == count <==>
      offset == 0 && count == a.Length
  {
  }
}
