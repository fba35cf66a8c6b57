/*******************************************************************************
 *  Spans: the back-ported Span<T>, a struct holding an array, an offset
 *  `OffSet` and a count `len`.
 *
 *  Its arithmetic is the back-port's own, in unchecked 32-bit C# integers:
 *  Length is OffSet - len (so a span over a whole array has a negative
 *  Length), the indexer adds OffSet to its index, and CopyTo runs its
 *  counter from OffSet up to Length.  The span is a value; the array is
 *  shared, and the indexer's setter and CopyTo write it in place.
 *******************************************************************************/

module Spans {
  import opened Common

  datatype Span<T> = Span(data: array?<T>, offset: int32, len: int32)

  /** Span(data): the whole array; a null array fails at data.Length. */
  function NewSpan<T>(data: array?<T>): (r: Result<Span<T>>)
    requires data != null ==> data.Length <= Int32Max  // no .NET array is longer
    ensures r.Ok? <==> data != null
    ensures r.Err? ==> r.error == NullReference
    ensures r.Ok? ==> r.value.data == data && r.value.offset == 0 && r.value.len == data.Length
  {
    if data == null then Err(NullReference) else Ok(Span(data, 0, data.Length))
  }

  /** Span(data, offSet): the count is what the array holds past the offset. */
  function NewSpanAt<T>(data: array?<T>, offSet: int32): (r: Result<Span<T>>)
    ensures r.Ok? <==> data != null
    ensures r.Err? ==> r.error == NullReference
    ensures r.Ok? ==> r.value.data == data && r.value.offset == offSet
    ensures r.Ok? && data.Length <= Int32Max ==> r.value.len == Wrap32(data.Length - offSet)
  {
    if data == null then Err(NullReference) else Ok(Span(data, offSet, Wrap32(data.Length - offSet)))
  }

  /** Span(data, offSet, length): both stored as given, and nothing is checked. */
  function NewSpanRange<T>(data: array?<T>, offSet: int32, length: int32): (r: Span<T>)
    ensures r.data == data && r.offset == offSet && r.len == length
  {
    Span(data, offSet, length)
  }

  /** Span.Length as the back-port computes it: OffSet - len. */
  function Length<T>(s: Span<T>): (n: int32)
    ensures Int32Min <= s.offset - s.len <= Int32Max ==> n == s.offset - s.len
  {
    Wrap32(s.offset - s.len)
  }

  /** For a span over a whole array the Length is the array's length negated, so never positive. */
  lemma WholeSpanLength<T>(data: array<T>)
    requires data.Length <= Int32Max
    ensures Length(NewSpan(data).value) == -data.Length <= 0
    ensures Length(NewSpanAt(data, 0).value) == -data.Length
  {
  }

  /** For Span(data, offSet, length) the Length is offSet - length. */
  lemma RangeSpanLength<T>(data: array?<T>, offSet: int32, length: int32)
    ensures Length(NewSpanRange(data, offSet, length)) == Wrap32(offSet - length)
    ensures length == 0 ==> Length(NewSpanRange(data, offSet, length)) == offSet
  {
  }

  /** The array slot the indexer reaches for index i: i + OffSet, in 32-bit arithmetic. */
  function Slot<T>(s: Span<T>, i: int32): int32
  {
    Wrap32(i + s.offset)
  }

  /** The getter this[i]: NullReference on a null array, IndexOutOfRange off its ends. */
  function Get<T>(s: Span<T>, i: int32): (r: Result<T>)
    reads s.data
    ensures r.Ok? <==> s.data != null && 0 <= Slot(s, i) < s.data.Length
    ensures s.data == null ==> r == Err(NullReference)
    ensures s.data != null && r.Err? ==> r.error == IndexOutOfRange
    ensures r.Ok? ==> r.value == s.data[Slot(s, i)]
  {
    if s.data == null then Err(NullReference)
    else if 0 <= Slot(s, i) < s.data.Length then Ok(s.data[Slot(s, i)])
    else Err(IndexOutOfRange)
  }

  /** The setter this[i] = value: it writes the one slot i + OffSet and no other. */
  method Set<T>(s: Span<T>, i: int32, value: T) returns (r: Result<()>)
    modifies s.data
    ensures r.Ok? <==> s.data != null && 0 <= Slot(s, i) < s.data.Length
    ensures s.data == null ==> r == Err(NullReference)
    ensures s.data != null && r.Err? ==> r.error == IndexOutOfRange && unchanged(s.data)
    ensures r.Ok? ==> s.data[..] == old(s.data[..])[Slot(s, i) := value]
  {
    if s.data == null {
      return Err(NullReference);
    }
    var slot := Slot(s, i);
    if !(0 <= slot < s.data.Length) {
      return Err(IndexOutOfRange);
    }
    s.data[slot] := value;
    r := Ok(());
  }

  /** Wrap32(x) is x moved by a whole number of 2^32 steps. */
  lemma Wrap32Step(x: int) returns (k: int)
    ensures Wrap32(x) == x + k * 0x1_0000_0000
  {
    k := (Wrap32(x) - x) / 0x1_0000_0000;
  }

  /** 32-bit truncation only depends on the value modulo 2^32. */
  lemma Wrap32Congruent(x: int, y: int, k: int)
    requires x == y + k * 0x1_0000_0000
    ensures Wrap32(x) == Wrap32(y)
  {
    var kx := Wrap32Step(x);
    var ky := Wrap32Step(y);
    assert Wrap32(x) - Wrap32(y) == (kx + k - ky) * 0x1_0000_0000;
  }

  /** Slice(offset): Span(_data, offset + OffSet), which recomputes the count from the whole array. */
  function Slice<T>(s: Span<T>, offset: int32): (r: Result<Span<T>>)
    ensures r.Ok? <==> s.data != null
    ensures r.Err? ==> r.error == NullReference
    ensures r.Ok? ==> r.value.data == s.data && r.value.offset == Wrap32(offset + s.offset)
  {
    NewSpanAt(s.data, Wrap32(offset + s.offset))
  }

  /** Slice(offset, len): Span(_data, offset + OffSet, len). */
  function SliceRange<T>(s: Span<T>, offset: int32, len: int32): (r: Span<T>)
    ensures r.data == s.data && r.len == len
  {
    NewSpanRange(s.data, Wrap32(offset + s.offset), len)
  }

  /** Indexing Slice(offset, len) is indexing the original span shifted by the slice's offset. */
  lemma SliceRangeShiftsIndex<T>(s: Span<T>, offset: int32, len: int32, i: int32)
    ensures Get(SliceRange(s, offset, len), i) == Get(s, Wrap32(i + offset))
  {
    SliceSlot(i, offset, s.offset);
    SameSlotSameElement(SliceRange(s, offset, len), i, s, Wrap32(i + offset));
  }

  /** The getter depends on nothing but the array and the slot. */
  lemma SameSlotSameElement<T>(s: Span<T>, i: int32, t: Span<T>, j: int32)
    requires s.data == t.data && Slot(s, i) == Slot(t, j)
    ensures Get(s, i) == Get(t, j)
  {
  }

  /** Indexing Slice(offset) is indexing the original span shifted by the slice's offset. */
  lemma SliceShiftsIndex<T>(s: Span<T>, offset: int32, i: int32)
    requires s.data != null
    ensures Get(Slice(s, offset).value, i) == Get(s, Wrap32(i + offset))
  {
    var t := Slice(s, offset).value;
    assert Get(t, i) == Get(SliceRange(s, offset, t.len), i);
    SliceRangeShiftsIndex(s, offset, t.len, i);
  }

  /** The slot arithmetic behind a slice: (i + (offset + OffSet)) and ((i + offset) + OffSet) agree. */
  lemma SliceSlot(i: int, offset: int, base: int)
    ensures Wrap32(i + Wrap32(offset + base)) == Wrap32(Wrap32(i + offset) + base)
  {
    var k1 := Wrap32Step(offset + base);
    var k2 := Wrap32Step(i + offset);
    Wrap32Congruent(i + Wrap32(offset + base), i + offset + base, k1);
    Wrap32Congruent(Wrap32(i + offset) + base, i + offset + base, k2);
  }

  /** Where Enumerable.Skip(offset) starts: a negative count skips nothing. */
  function SkipStart(offset: int, n: nat): (k: nat)
    ensures k <= n
  {
    if offset <= 0 then 0 else if offset >= n then n else offset
  }

  /**
   * ToArray: _data.Skip(OffSet).Take(len), the elements from OffSet on, at
   * most len of them, clipped to the array; a null array is refused by Skip.
   */
  function ToArray<T>(s: Span<T>): (r: Result<seq<T>>)
    reads s.data
    ensures r.Ok? <==> s.data != null
    ensures r.Err? ==> r.error == ArgumentNull
    ensures r.Ok? ==> |r.value| == Min(if s.len < 0 then 0 else s.len, s.data.Length - SkipStart(s.offset, s.data.Length))
    ensures r.Ok? ==> forall j :: 0 <= j < |r.value| ==> r.value[j] == s.data[SkipStart(s.offset, s.data.Length) + j]
    ensures r.Ok? && 0 <= s.offset && 0 <= s.len && s.offset + s.len <= s.data.Length ==>
      r.value == s.data[s.offset..s.offset + s.len]
  {
    if s.data == null then Err(ArgumentNull)
    else
      var lo := SkipStart(s.offset, s.data.Length);
      var take := if s.len < 0 then 0 else s.len;
      Ok(s.data[lo..Min(lo + take, s.data.Length)])
  }

  function Min(a: int, b: int): int
  {
    if a <= b then a else b
  }

  /*****************************************************************************
   *  IndexOf(T)
   *****************************************************************************/

  /**
   * The search of IndexOf(value) from counter i up to `end` (the span's
   * Length): the first i whose element equals `value`, -1 when the counter
   * reaches `end`, or the exception of the first read that fails.
   */
  function FindFrom<T(==)>(s: Span<T>, value: T, i: int32, end: int32): (r: Result<int>)
    reads s.data
    requires 0 <= i
    ensures r.Ok? ==> r.value == -1 || i <= r.value < end
    ensures r.Ok? ==> forall j: int32 :: i <= j < end && (r.value == -1 || j < r.value) ==>
      Get(s, j).Ok? && Get(s, j).value != value
    ensures r.Ok? && r.value != -1 ==> Get(s, r.value) == Ok(value)
    ensures r.Err? ==> exists j: int32 :: i <= j < end && Get(s, j).Err? && r.error == Get(s, j).error
    decreases end - i
  {
    if i >= end then Ok(-1)
    else
      match Get(s, i)
      case Err(e) => Err(e)
      case Ok(current) =>
        if current == value then Ok(i as int) else FindFrom(s, value, i + 1, end)
  }

  /**
   * IndexOf(value): the loop over i < Length, with the counter `cur` that
   * is returned on a match.
   */
  method IndexOf<T(==)>(s: Span<T>, value: T) returns (r: Result<int>)
    ensures r == FindFrom(s, value, 0, Length(s))
  {
    var cur := 0;
    var i: int32 := 0;
    var end := Length(s);
    while i < end
      invariant 0 <= i && (end >= 0 ==> i <= end)
      invariant cur == i
      invariant FindFrom(s, value, 0, end) == FindFrom(s, value, i, end)
      decreases end - i
    {
      var current := Get(s, i);
      if current.Err? {
        return Err(current.error);
      }
      if current.value == value {
        return Ok(cur);
      }
      cur := cur + 1;
      i := i + 1;
    }
    r := Ok(-1);
  }

  /** As Length is written, IndexOf on a span over a whole array never looks at an element. */
  lemma WholeSpanFindsNothing<T>(data: array<T>, value: T)
    requires data.Length <= Int32Max
    ensures FindFrom(NewSpan(data).value, value, 0, Length(NewSpan(data).value)) == Ok(-1)
  {
    WholeSpanLength(data);
  }

  /*****************************************************************************
   *  IndexOf(Span<T>)
   *****************************************************************************/

  /**
   * The inner loop of IndexOf(pattern) at counter i after x steps: how many
   * of parts[0..x) equal this[i + k], reading every one of them in order,
   * so a failing read ends the count with its exception.
   */
  /** this[i + k], the element the inner loop compares with parts[k]. */
  function At<T>(s: Span<T>, i: int32, k: int): (r: Result<T>)
    reads s.data
  {
    Get(s, Wrap32(i + k))
  }

  function CountMatches<T(==)>(s: Span<T>, parts: seq<T>, i: int32, x: nat): (r: Result<nat>)
    reads s.data
    requires x <= |parts|
    ensures r.Ok? ==> r.value <= x
    decreases x
  {
    if x == 0 then Ok(0)
    else
      match CountMatches(s, parts, i, x - 1)
      case Err(e) => Err(e)
      case Ok(n) =>
        match At(s, i, x - 1)
        case Err(e) => Err(e)
        case Ok(current) => Ok(n + if current == parts[x - 1] then 1 else 0)
  }

  /** Whether parts[k] sits at this[i + k] for every k < x: the reference for a full count. */
  ghost predicate MatchesAt<T>(s: Span<T>, parts: seq<T>, i: int32, x: nat)
    reads s.data
    requires x <= |parts|
  {
    forall k :: 0 <= k < x ==> At(s, i, k) == Ok(parts[k])
  }

  /** Every element read counts at most once, so the count is full exactly when every element matches. */
  lemma {:induction false} FullCountIsMatch<T>(s: Span<T>, parts: seq<T>, i: int32, x: nat)
    requires x <= |parts|
    requires CountMatches(s, parts, i, x).Ok?
    ensures forall k :: 0 <= k < x ==> At(s, i, k).Ok?
    ensures CountMatches(s, parts, i, x).value == x <==> MatchesAt(s, parts, i, x)
  {
    if x > 0 {
      FullCountIsMatch(s, parts, i, x - 1);
      assert At(s, i, x - 1).Ok?;
    }
  }

  /** Once a read in the inner loop fails, the count over the whole pattern fails with it. */
  lemma {:induction false} CountErrorPersists<T>(s: Span<T>, parts: seq<T>, i: int32, x: nat, y: nat)
    requires x <= y <= |parts|
    requires CountMatches(s, parts, i, x).Err?
    ensures CountMatches(s, parts, i, y) == CountMatches(s, parts, i, x)
    decreases y
  {
    if y > x {
      CountErrorPersists(s, parts, i, x, y - 1);
    }
  }

  /**
   * The search of IndexOf(pattern) from counter i up to `end`: each round
   * takes the pattern's ToArray and the full count at i; the first full
   * count gives i, the counter reaching `end` gives -1.
   */
  function SearchFrom<T(==)>(s: Span<T>, pattern: Span<T>, i: int32, end: int32): (r: Result<int>)
    reads s.data, pattern.data
    requires 0 <= i
    ensures r.Ok? ==> r.value == -1 || i <= r.value < end
    decreases end - i
  {
    if i >= end then Ok(-1)
    else
      match ToArray(pattern)
      case Err(e) => Err(e)
      case Ok(parts) =>
        match CountMatches(s, parts, i, |parts|)
        case Err(e) => Err(e)
        case Ok(numFound) =>
          if numFound == |parts| then Ok(i as int) else SearchFrom(s, pattern, i + 1, end)
  }

  /**
   * The search in terms of counts: a non-negative result has a full count,
   * and every earlier counter has a count that is not full.
   */
  lemma {:induction false} SearchCounts<T>(s: Span<T>, pattern: Span<T>, i: int32, end: int32)
    requires 0 <= i
    requires SearchFrom(s, pattern, i, end).Ok?
    ensures pattern.data != null || SearchFrom(s, pattern, i, end).value == -1
    ensures var found := SearchFrom(s, pattern, i, end).value;
      found != -1 ==> CountMatches(s, ToArray(pattern).value, found as int32, |ToArray(pattern).value|) == Ok(|ToArray(pattern).value|)
    ensures var found := SearchFrom(s, pattern, i, end).value;
      forall j: int32 :: i <= j < end && (found == -1 || j < found) ==>
        var count := CountMatches(s, ToArray(pattern).value, j, |ToArray(pattern).value|);
        count.Ok? && count.value != |ToArray(pattern).value|
    decreases end - i
  {
    if i < end {
      SearchStep(s, pattern, i, end);
      var parts := ToArray(pattern).value;
      if CountMatches(s, parts, i, |parts|).value != |parts| {
        SearchCounts(s, pattern, i + 1, end);
      }
    }
  }

  /**
   * A non-negative result of the search is a place where the whole pattern
   * matches, and no earlier counter is one.
   */
  lemma SearchFindsFirstMatch<T>(s: Span<T>, pattern: Span<T>, i: int32, end: int32)
    requires 0 <= i
    requires SearchFrom(s, pattern, i, end).Ok?
    ensures pattern.data != null || SearchFrom(s, pattern, i, end).value == -1
    ensures var found := SearchFrom(s, pattern, i, end).value;
      found != -1 ==> MatchesAt(s, ToArray(pattern).value, found as int32, |ToArray(pattern).value|)
    ensures var found := SearchFrom(s, pattern, i, end).value;
      forall j: int32 :: i <= j < end && (found == -1 || j < found) ==>
        !MatchesAt(s, ToArray(pattern).value, j, |ToArray(pattern).value|)
  {
    SearchCounts(s, pattern, i, end);
    var found := SearchFrom(s, pattern, i, end).value;
    if found != -1 {
      var parts := ToArray(pattern).value;
      FullCountIsMatch(s, parts, found as int32, |parts|);
    }
    if pattern.data != null {
      var parts := ToArray(pattern).value;
      forall j: int32 | i <= j < end && (found == -1 || j < found)
        ensures !MatchesAt(s, parts, j, |parts|)
      {
        FullCountIsMatch(s, parts, j, |parts|);
      }
    }
  }

  /** One round of the search: what it returns, or that it moves on to the next counter. */
  lemma SearchStep<T>(s: Span<T>, pattern: Span<T>, i: int32, end: int32)
    requires 0 <= i < end
    ensures ToArray(pattern).Err? ==> SearchFrom(s, pattern, i, end) == Err(ToArray(pattern).error)
    ensures ToArray(pattern).Ok? ==>
      var parts := ToArray(pattern).value;
      var count := CountMatches(s, parts, i, |parts|);
      SearchFrom(s, pattern, i, end) ==
        if count.Err? then Err(count.error)
        else if count.value == |parts| then Ok(i as int)
        else SearchFrom(s, pattern, i + 1, end)
  {
  }

  /** The inner loop of IndexOf(pattern): count the pattern elements that match at counter i. */
  method CountAt<T(==)>(s: Span<T>, parts: seq<T>, i: int32) returns (r: Result<nat>)
    ensures r == CountMatches(s, parts, i, |parts|)
  {
    var numFound: nat := 0;
    var x := 0;
    while x < |parts|
      invariant 0 <= x <= |parts|
      invariant CountMatches(s, parts, i, x) == Ok(numFound)
    {
      var current := At(s, i, x);
      if current.Err? {
        CountErrorPersists(s, parts, i, x + 1, |parts|);
        return Err(current.error);
      }
      if current.value == parts[x] {
        numFound := numFound + 1;
      }
      x := x + 1;
    }
    r := Ok(numFound);
  }

  /** IndexOf(pattern): the outer loop of the source, returning the counter at the first full count. */
  method IndexOfSpan<T(==)>(s: Span<T>, pattern: Span<T>) returns (r: Result<int>)
    ensures r == SearchFrom(s, pattern, 0, Length(s))
  {
    var cur := 0;
    var i: int32 := 0;
    var end := Length(s);
    while i < end
      invariant 0 <= i && (end >= 0 ==> i <= end)
      invariant cur == i
      invariant SearchFrom(s, pattern, 0, end) == SearchFrom(s, pattern, i, end)
      decreases end - i
    {
      SearchStep(s, pattern, i, end);
      var parts :- ToArray(pattern);
      var numFound :- CountAt(s, parts, i);
      if numFound == |parts| {
        return Ok(cur);
      }
      cur := cur + 1;
      i := i + 1;
    }
    r := Ok(-1);
  }

  /*****************************************************************************
   *  CopyTo
   *****************************************************************************/

  /** The contents of a span's array, or None for a null array. */
  function Contents<T>(data: array?<T>): (c: Option<seq<T>>)
    reads data
    ensures c.Some? <==> data != null
    ensures c.Some? ==> c.value == data[..]
  {
    if data == null then None else Some(data[..])
  }

  datatype CopyOutcome<T> = CopyOutcome(result: Result<()>, written: Option<seq<T>>)

  /**
   * The loop of CopyTo from counter i up to `end`: each round reads
   * this[i], at source slot i + srcOff, then writes it to span[i], at
   * destination slot i + dstOff.  When both spans share one array
   * (`aliased`) the reads see the earlier writes.  A null array is a
   * NullReference and a slot off the end an IndexOutOfRange, at the first
   * round that touches it; the writes before it stay.
   */
  function CopyFrom<T>(src: Option<seq<T>>, srcOff: int32, dst: Option<seq<T>>, dstOff: int32,
                       aliased: bool, i: int32, end: int32): (out: CopyOutcome<T>)
    requires aliased ==> src == dst
    ensures dst.Some? <==> out.written.Some?
    ensures dst.Some? ==> |out.written.value| == |dst.value|
    decreases end as int - i as int
  {
    if i >= end then CopyOutcome(Ok(()), dst)
    else if src.None? then CopyOutcome(Err(NullReference), dst)
    else if !(0 <= Wrap32(i + srcOff) < |src.value|) then CopyOutcome(Err(IndexOutOfRange), dst)
    else if dst.None? then CopyOutcome(Err(NullReference), dst)
    else if !(0 <= Wrap32(i + dstOff) < |dst.value|) then CopyOutcome(Err(IndexOutOfRange), dst)
    else
      var next := dst.value[Wrap32(i + dstOff) := src.value[Wrap32(i + srcOff)]];
      CopyFrom(if aliased then Some(next) else src, srcOff, Some(next), dstOff, aliased, i + 1, end)
  }

  /** One round of CopyTo's loop: span[i] = this[i]. */
  method CopyStep<T>(s: Span<T>, span: Span<T>, i: int32, end: int32) returns (r: Result<()>)
    requires i < end
    modifies span.data
    ensures s.data != null && s.data != span.data ==> unchanged(s.data)
    ensures r.Err? ==>
      CopyFrom(old(Contents(s.data)), s.offset, old(Contents(span.data)), span.offset, s.data == span.data, i, end)
        == CopyOutcome(r, Contents(span.data))
    ensures r.Ok? ==>
      CopyFrom(old(Contents(s.data)), s.offset, old(Contents(span.data)), span.offset, s.data == span.data, i, end)
        == CopyFrom(Contents(s.data), s.offset, Contents(span.data), span.offset, s.data == span.data, i + 1, end)
  {
    var current := Get(s, i);
    if current.Err? {
      return current.PropagateFailure();
    }
    r := Set(span, i, current.value);
  }

  /** CopyTo(span): for i from OffSet while i < Length, span[i] = this[i]. */
  method CopyTo<T>(s: Span<T>, span: Span<T>) returns (r: Result<()>)
    modifies span.data
    ensures var out := CopyFrom(old(Contents(s.data)), s.offset, old(Contents(span.data)), span.offset,
                                s.data == span.data, s.offset, Length(s));
      r == out.result && (span.data != null ==> span.data[..] == out.written.value)
  {
    var end := Length(s);
    var i := s.offset;
    while i < end
      invariant i <= end || i == s.offset
      invariant s.data != null && s.data != span.data ==> unchanged(s.data)
      invariant CopyFrom(old(Contents(s.data)), s.offset, old(Contents(span.data)), span.offset, s.data == span.data, s.offset, end)
             == CopyFrom(Contents(s.data), s.offset, Contents(span.data), span.offset, s.data == span.data, i, end)
      decreases end as int - i as int
    {
      r := CopyStep(s, span, i, end);
      if r.Err? {
        return;
      }
      i := i + 1;
    }
    r := Ok(());
  }

  /**
   * Between two distinct arrays, with every slot in range, the loop copies
   * source slots [lo + srcOff, end + srcOff) to destination slots
   * [lo + dstOff, end + dstOff) and leaves every other destination slot as
   * it was.
   */
  lemma {:induction false} CopyFromCopiesWindow<T>(src: seq<T>, srcOff: int32, dst: seq<T>, dstOff: int32, lo: int32, end: int32)
    requires lo <= end
    requires 0 <= lo + srcOff && end + srcOff <= |src|
    requires 0 <= lo + dstOff && end + dstOff <= |dst|
    requires end + srcOff <= Int32Max && end + dstOff <= Int32Max
    ensures CopyFrom(Some(src), srcOff, Some(dst), dstOff, false, lo, end).result == Ok(())
    ensures forall j :: 0 <= j < |dst| ==>
      CopyFrom(Some(src), srcOff, Some(dst), dstOff, false, lo, end).written.value[j] ==
        if lo + dstOff <= j < end + dstOff then src[j - dstOff + srcOff] else dst[j]
    decreases end - lo
  {
    if lo < end {
      var next := dst[lo + dstOff := src[lo + srcOff]];
      CopyFromCopiesWindow(src, srcOff, next, dstOff, lo + 1, end);
    }
  }

  /** As Length is written, CopyTo from a span over a whole array writes nothing and never fails. */
  lemma WholeSpanCopiesNothing<T>(data: array<T>, dst: Option<seq<T>>, dstOff: int32, aliased: bool)
    requires data.Length <= Int32Max
    requires aliased ==> dst == Some(data[..])
    ensures CopyFrom(Some(data[..]), 0, dst, dstOff, aliased, 0, Length(NewSpan(data).value)) == CopyOutcome(Ok(()), dst)
  {
    WholeSpanLength(data);
  }
}
