/*******************************************************************************
 *  ArraySegments: ArraySegmentList<T>, a window (offset, count) on an array
 *  seen as a read-only IList<T>, and its enumerator.
 *
 *  The segment is a value (a struct), so it is a datatype; the array it
 *  points into is shared and the indexer's setter writes it in place.  The
 *  enumerator is an object whose cursor MoveNext and Reset move.
 *******************************************************************************/

module ArraySegments {
  import opened Common

  datatype ArraySegment<T> = ArraySegment(arr: array?<T>, offset: int32, count: int32)
  {
    /** The default segment, or a window that lies inside its array. */
    predicate Valid()
    {
      (arr == null && offset == 0 && count == 0) ||
      (arr != null && 0 <= offset && 0 <= count && offset + count <= arr.Length)
    }
  }

  /** The segments the constructors and default(ArraySegmentList<T>) produce. */
  type Segment<T> = s: ArraySegment<T> | s.Valid() witness ArraySegment(null, 0, 0)

  /** ArraySegmentList(array): the whole array. */
  function NewSegment<T>(arr: array?<T>): (r: Result<Segment<T>>)
    requires arr != null ==> arr.Length <= Int32Max  // no .NET array is longer
    ensures r.Ok? <==> arr != null
    ensures r.Err? ==> r.error == ArgumentNull
    ensures r.Ok? ==> r.value.arr == arr && r.value.offset == 0 && r.value.count == arr.Length
  {
    if arr == null then Err(ArgumentNull)
    else Ok(ArraySegment(arr, 0, arr.Length))
  }

  /** ArraySegmentList(array, offset, count): a null array, a negative bound, or a window past the end is refused. */
  function NewSegmentRange<T>(arr: array?<T>, offset: int32, count: int32): (r: Result<Segment<T>>)
    ensures r.Ok? <==> arr != null && 0 <= offset && 0 <= count && count <= arr.Length - offset
    ensures r.Ok? ==> r.value.arr == arr && r.value.offset == offset && r.value.count == count
    ensures arr == null ==> r == Err(ArgumentNull)
    ensures arr != null && (offset < 0 || count < 0) ==> r == Err(ArgumentOutOfRange)
    ensures arr != null && 0 <= offset && 0 <= count && count > arr.Length - offset ==> r == Err(Argument)
  {
    if arr == null then Err(ArgumentNull)
    else if offset < 0 then Err(ArgumentOutOfRange)
    else if count < 0 then Err(ArgumentOutOfRange)
    else if arr.Length - offset < count then Err(Argument)
    else Ok(ArraySegment(arr, offset, count))
  }

  /** The whole-array constructor is the ranged one over the whole array. */
  lemma WholeArraySegment<T>(arr: array<T>)
    requires arr.Length <= Int32Max
    ensures NewSegment(arr) == NewSegmentRange(arr, 0, arr.Length)
  {
  }

  /** Equals and ==: the same array, by reference, the same offset and the same count. */
  predicate Equals<T>(a: Segment<T>, b: Segment<T>)
  {
    b.arr == a.arr && b.offset == a.offset && b.count == a.count
  }

  /** Equals is identity of segments, so it is an equivalence, and != is its negation. */
  lemma EqualsIsIdentity<T>(a: Segment<T>, b: Segment<T>)
    ensures Equals(a, b) <==> a == b
    ensures Equals(a, b) == Equals(b, a)
  {
  }

  /** The index check both indexers make: InvalidOperation on the default segment, then the bounds. */
  function IndexError<T>(s: Segment<T>, index: int32): (e: Option<Exc>)
    ensures e.None? <==> s.arr != null && 0 <= index < s.count
  {
    if s.arr == null then Some(InvalidOperation)
    else if index < 0 || index >= s.count then Some(ArgumentOutOfRange)
    else None
  }

  /** The getter of IList<T>.this[index] and IReadOnlyList<T>.this[index]. */
  function Get<T>(s: Segment<T>, index: int32): (r: Result<T>)
    reads s.arr
    ensures r.Err? <==> IndexError(s, index).Some?
    ensures r.Err? ==> r.error == IndexError(s, index).value
    ensures r.Ok? ==> r.value == s.arr[s.offset + index]
  {
    var e := IndexError(s, index);
    if e.Some? then Err(e.value) else Ok(s.arr[s.offset + index])
  }

  /**
   * The setter of IList<T>.this[index]: it writes the one element of the
   * array under the window position, although IsReadOnly says true.
   */
  method Set<T>(s: Segment<T>, index: int32, value: T) returns (r: Result<()>)
    modifies s.arr
    ensures r.Err? <==> IndexError(s, index).Some?
    ensures r.Err? ==> r.error == IndexError(s, index).value && (s.arr != null ==> unchanged(s.arr))
    ensures r.Ok? ==> s.arr[..] == old(s.arr[..])[s.offset + index := value]
  {
    var e := IndexError(s, index);
    if e.Some? {
      return Err(e.value);
    }
    s.arr[s.offset + index] := value;
    r := Ok(());
  }

  /** A set followed by a get at the same index reads the value back. */
  method SetThenGet<T>(s: Segment<T>, index: int32, value: T) returns (r: Result<T>)
    modifies s.arr
    ensures IndexError(s, index).None? ==> r == Ok(value)
    ensures IndexError(s, index).Some? ==> r == Err(IndexError(s, index).value)
  {
    var written := Set(s, index, value);
    r := Get(s, index);
  }

  /** The first position in [lo, hi) of `a` holding `item`, or -1: Array.IndexOf's search. */
  function FirstIndex<T(==)>(a: seq<T>, item: T, lo: nat, hi: nat): (k: int)
    requires lo <= hi <= |a|
    ensures k == -1 || lo <= k < hi
    ensures k == -1 ==> forall j :: lo <= j < hi ==> a[j] != item
    ensures k != -1 ==> a[k] == item && forall j :: lo <= j < k ==> a[j] != item
    decreases hi - lo
  {
    if lo == hi then -1
    else if a[lo] == item then lo
    else FirstIndex(a, item, lo + 1, hi)
  }

  /** IList<T>.IndexOf: the position within the window of the first element equal to `item`, or -1. */
  function IndexOf<T(==)>(s: Segment<T>, item: T): (r: Result<int>)
    reads s.arr
    ensures r.Err? <==> s.arr == null
    ensures r.Err? ==> r.error == InvalidOperation
    ensures r.Ok? ==> -1 <= r.value < s.count
    ensures r.Ok? && r.value >= 0 ==>
      s.arr[s.offset + r.value] == item && forall j :: s.offset <= j < s.offset + r.value ==> s.arr[j] != item
    ensures r.Ok? && r.value == -1 ==> forall j :: s.offset <= j < s.offset + s.count ==> s.arr[j] != item
  {
    if s.arr == null then Err(InvalidOperation)
    else
      var index := FirstIndex(s.arr[..], item, s.offset, s.offset + s.count);
      Ok(if index >= 0 then index - s.offset else -1)
  }

  /** ICollection<T>.Contains: whether the window holds `item`. */
  function Contains<T(==)>(s: Segment<T>, item: T): (r: Result<bool>)
    reads s.arr
    ensures r.Err? <==> s.arr == null
    ensures r.Err? ==> r.error == InvalidOperation
    ensures r.Ok? ==> (r.value <==> exists j :: s.offset <= j < s.offset + s.count && s.arr[j] == item)
  {
    if s.arr == null then Err(InvalidOperation)
    else Ok(FirstIndex(s.arr[..], item, s.offset, s.offset + s.count) >= 0)
  }

  /** Contains is IndexOf finding something, and a found item reads back through the indexer. */
  lemma ContainsIsIndexOf<T>(s: Segment<T>, item: T)
    requires s.arr != null
    ensures Contains(s, item).value <==> IndexOf(s, item).value >= 0
    ensures IndexOf(s, item).value >= 0 ==> Get(s, IndexOf(s, item).value) == Ok(item)
  {
  }

  /**
   * ICollection<T>.CopyTo: Array.Copy of the window into `destination` at
   * `arrayIndex`.  Array.Copy refuses a null destination, a negative index
   * and a destination too short; the copy reads the window as it was before
   * the first write, so a destination that is the segment's own array
   * behaves as with a temporary buffer.
   */
  method CopyTo<T>(s: Segment<T>, destination: array?<T>, arrayIndex: int32) returns (r: Result<()>)
    modifies destination
    ensures s.arr == null ==> r == Err(InvalidOperation)
    ensures s.arr != null && destination == null ==> r == Err(ArgumentNull)
    ensures s.arr != null && destination != null && arrayIndex < 0 ==> r == Err(ArgumentOutOfRange)
    ensures s.arr != null && destination != null && 0 <= arrayIndex && arrayIndex > destination.Length - s.count ==>
      r == Err(Argument)
    ensures r.Err? && destination != null ==> unchanged(destination)
    ensures r.Ok? <==> s.arr != null && destination != null && 0 <= arrayIndex <= destination.Length - s.count
    ensures r.Ok? ==>
      destination[..] ==
      old(destination[..arrayIndex]) + old(s.arr[s.offset..s.offset + s.count]) + old(destination[arrayIndex + s.count..])
  {
    if s.arr == null {
      return Err(InvalidOperation);
    }
    if destination == null {
      return Err(ArgumentNull);
    }
    if arrayIndex < 0 {
      return Err(ArgumentOutOfRange);
    }
    if arrayIndex > destination.Length - s.count {
      return Err(Argument);
    }
    var window := s.arr[s.offset..s.offset + s.count];
    var i := 0;
    while i < s.count
      invariant 0 <= i <= s.count
      invariant forall j :: 0 <= j < destination.Length ==>
        destination[j] == if arrayIndex <= j < arrayIndex + i then window[j - arrayIndex] else old(destination[j])
    {
      destination[arrayIndex + i] := window[i];
      i := i + 1;
    }
    ghost var copied := old(destination[..arrayIndex]) + window + old(destination[arrayIndex + s.count..]);
    assert |copied| == destination.Length;
    forall j | 0 <= j < destination.Length
      ensures destination[j] == copied[j]
    {
      if j < arrayIndex {
        assert copied[j] == old(destination[..arrayIndex])[j];
      } else if j < arrayIndex + s.count {
        assert copied[j] == window[j - arrayIndex];
      } else {
        assert copied[j] == old(destination[arrayIndex + s.count..])[j - arrayIndex - s.count];
      }
    }
    assert destination[..] == copied;
    r := Ok(());
  }

  /** The IList<T> and ICollection<T> members that change the list's shape. */
  datatype ShapeChange = Insert | RemoveAt | Add | Clear | Remove

  /** Each of them is NotSupported, whatever the segment. */
  function ChangeShape<T>(s: Segment<T>, change: ShapeChange): (e: Exc)
    ensures e == NotSupported
  {
    NotSupported
  }

  /** ICollection<T>.IsReadOnly is always true. */
  function IsReadOnly<T>(s: Segment<T>): (r: bool)
    ensures r
  {
    true
  }

  /*****************************************************************************
   *  The enumerator.
   *****************************************************************************/

  /** One MoveNext on a cursor: it steps forward until it reaches the end and stays there. */
  function Advance(current: int, end: int): (next: int)
  {
    if current < end then current + 1 else current
  }

  /** The cursor after `k` calls of MoveNext from the start (or from a Reset). */
  function AfterMoves(start: int, end: int, k: nat): (current: int)
  {
    if k == 0 then start - 1 else Advance(AfterMoves(start, end, k - 1), end)
  }

  /**
   * After k moves the cursor is at start - 1 + k, or at the end once the
   * window is exhausted: the k-th MoveNext succeeds exactly for k <= count,
   * and then stands on element start + k - 1.
   */
  lemma {:induction false} AfterMovesClosedForm(start: int, end: int, k: nat)
    requires start <= end
    ensures AfterMoves(start, end, k) == Min(start - 1 + k, end)
    ensures k >= 1 ==> (AfterMoves(start, end, k) < end <==> k <= end - start)
    ensures 1 <= k <= end - start ==> AfterMoves(start, end, k) == start + k - 1
  {
    if k > 0 {
      AfterMovesClosedForm(start, end, k - 1);
    }
  }

  function Min(a: int, b: int): int
  {
    if a <= b then a else b
  }

  /** The enumerator GetEnumerator hands out: a cursor over [start, end) of the array. */
  class SegmentEnumerator<T> {
    const arr: array<T>
    const start: int
    const end: int
    var current: int

    ghost predicate Valid()
      reads this
    {
      0 <= start <= end <= arr.Length && start - 1 <= current <= end
    }

    constructor (s: Segment<T>)
      requires s.arr != null
      ensures Valid()
      ensures arr == s.arr && start == s.offset && end == s.offset + s.count && current == start - 1
    {
      arr := s.arr;
      start := s.offset;
      end := s.offset + s.count;
      current := s.offset - 1;
    }

    /** MoveNext: one step of the cursor; true while it stands on an element of the window. */
    method MoveNext() returns (moved: bool)
      requires Valid()
      modifies this
      ensures Valid()
      ensures current == Advance(old(current), end)
      ensures moved <==> current < end
    {
      if current < end {
        current := current + 1;
        return current < end;
      }
      return false;
    }

    /** Current: InvalidOperation before the first MoveNext and after the last element. */
    function Current(): (r: Result<T>)
      requires Valid()
      reads this, arr
      ensures r.Ok? <==> start <= current < end
      ensures r.Err? ==> r.error == InvalidOperation
      ensures r.Ok? ==> r.value == arr[current]
    {
      if current < start then Err(InvalidOperation)
      else if current >= end then Err(InvalidOperation)
      else Ok(arr[current])
    }

    /** Reset: back before the first element. */
    method Reset()
      requires Valid()
      modifies this
      ensures Valid() && current == start - 1
    {
      current := start - 1;
    }
  }

  /** GetEnumerator (both the generic and the non-generic one): InvalidOperation on the default segment. */
  method GetEnumerator<T>(s: Segment<T>) returns (r: Result<SegmentEnumerator<T>>)
    ensures r.Ok? <==> s.arr != null
    ensures r.Err? ==> r.error == InvalidOperation
    ensures r.Ok? ==>
      fresh(r.value) && r.value.Valid() && r.value.arr == s.arr &&
      r.value.start == s.offset && r.value.end == s.offset + s.count && r.value.current == s.offset - 1
  {
    if s.arr == null {
      return Err(InvalidOperation);
    }
    var e := new SegmentEnumerator(s);
    r := Ok(e);
  }

  /**
   * Enumerating a segment: MoveNext succeeds `count` times, reading the
   * window's elements in order, and then fails.
   */
  method Enumerate<T>(e: SegmentEnumerator<T>) returns (items: seq<T>)
    requires e.Valid() && e.current == e.start - 1
    modifies e
    ensures e.Valid() && e.current == e.end
    ensures items == e.arr[e.start..e.end]
  {
    items := [];
    var k: nat := 1;
    var moved := e.MoveNext();
    AfterMovesClosedForm(e.start, e.end, k);
    while moved
      invariant e.Valid()
      invariant 1 <= k <= e.end - e.start + 1 && e.current == AfterMoves(e.start, e.end, k)
      invariant moved <==> e.current < e.end
      invariant moved ==> e.current == e.start + k - 1
      invariant !moved ==> e.current == e.end && k == e.end - e.start + 1
      invariant items == e.arr[e.start..e.start + k - 1]
      decreases e.end - e.current
    {
      var item := e.Current();
      items := items + [item.value];
      moved := e.MoveNext();
      k := k + 1;
      AfterMovesClosedForm(e.start, e.end, k);
    }
  }
}
