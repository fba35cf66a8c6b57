/*******************************************************************************
 *  Memories: the back-ported Memory<T>, a struct holding an array, its
 *  length as taken at construction, an offset `OffSet` and a count `len`.
 *
 *  A null array gives the default Memory.  Length is the stored array
 *  length minus OffSet minus len; the indexer adds OffSet to its index; the
 *  Span it hands out covers the whole array whatever the offset; and
 *  Slice builds a Memory whose offset is the slice's own, not added to
 *  the current one.
 *******************************************************************************/

module Memories {
  import opened Common
  import Spans

  datatype Memory<T> = Memory(obj: array?<T>, index: int32, length: int32, offset: int32, len: int32)

  /** default(Memory<T>): no array, every number zero. */
  function Default<T>(): (m: Memory<T>)
    ensures m.obj == null && m.offset == 0 && m.len == 0 && m.length == 0
  {
    Memory(null, 0, 0, 0, 0)
  }

  /** Memory(array). */
  function NewMemory<T>(arr: array?<T>): (m: Memory<T>)
    requires arr != null ==> arr.Length <= Int32Max  // no .NET array is longer
    ensures arr == null ==> m == Default()
    ensures arr != null ==> m.obj == arr && m.length == arr.Length && m.offset == 0 && m.len == 0
  {
    if arr == null then Default() else Memory(arr, 0, arr.Length, 0, 0)
  }

  /** Memory(array, offSet). */
  function NewMemoryAt<T>(arr: array?<T>, offSet: int32): (m: Memory<T>)
    requires arr != null ==> arr.Length <= Int32Max
    ensures arr == null ==> m == Default()
    ensures arr != null ==> m.obj == arr && m.length == arr.Length && m.offset == offSet && m.len == 0
  {
    if arr == null then Default() else Memory(arr, 0, arr.Length, offSet, 0)
  }

  /** Memory(array, offSet, length). */
  function NewMemoryRange<T>(arr: array?<T>, offSet: int32, length: int32): (m: Memory<T>)
    requires arr != null ==> arr.Length <= Int32Max
    ensures arr == null ==> m == Default()
    ensures arr != null ==> m.obj == arr && m.length == arr.Length && m.offset == offSet && m.len == length
  {
    if arr == null then Default() else Memory(arr, 0, arr.Length, offSet, length)
  }

  /** The Memory values the constructors and default produce: the stored length is the array's. */
  predicate Valid<T>(m: Memory<T>)
  {
    m.index == 0 && (if m.obj == null then m == Default() else m.length == m.obj.Length)
  }

  /** Length: _length - OffSet - len, in 32-bit arithmetic. */
  function Length<T>(m: Memory<T>): (n: int32)
    ensures Int32Min <= m.length - m.offset - m.len <= Int32Max && Int32Min <= m.length - m.offset <= Int32Max ==>
      n == m.length - m.offset - m.len
  {
    Wrap32(Wrap32(m.length - m.offset) - m.len)
  }

  /**
   * What each constructor's Length comes to: the array's length, that
   * minus the offset, and that minus the offset and the count as well.
   */
  lemma ConstructedLengths<T>(arr: array<T>, offSet: int32, length: int32)
    requires arr.Length <= Int32Max
    ensures Length(NewMemory(arr)) == arr.Length
    ensures Length(NewMemoryAt(arr, offSet)) == Wrap32(arr.Length - offSet)
    ensures Length(NewMemoryRange(arr, offSet, length)) == Wrap32(Wrap32(arr.Length - offSet) - length)
    ensures 0 <= offSet <= arr.Length ==> Length(NewMemoryAt(arr, offSet)) == arr.Length - offSet
    ensures Length(Default<T>()) == 0
  {
  }

  /** Every constructor given a null array yields the default Memory. */
  lemma NullGivesDefault<T>(offSet: int32, length: int32)
    ensures NewMemory<T>(null) == NewMemoryAt<T>(null, offSet) == NewMemoryRange<T>(null, offSet, length) == Default()
  {
  }

  /** The array slot the indexer reaches: index + OffSet, in 32-bit arithmetic. */
  function Slot<T>(m: Memory<T>, index: int32): int32
  {
    Wrap32(index + m.offset)
  }

  /** The getter this[index]: NullReference on the default Memory, IndexOutOfRange off the array. */
  function Get<T>(m: Memory<T>, index: int32): (r: Result<T>)
    reads m.obj
    ensures r.Ok? <==> m.obj != null && 0 <= Slot(m, index) < m.obj.Length
    ensures m.obj == null ==> r == Err(NullReference)
    ensures m.obj != null && r.Err? ==> r.error == IndexOutOfRange
    ensures r.Ok? ==> r.value == m.obj[Slot(m, index)]
  {
    if m.obj == null then Err(NullReference)
    else if 0 <= Slot(m, index) < m.obj.Length then Ok(m.obj[Slot(m, index)])
    else Err(IndexOutOfRange)
  }

  /** The setter this[index] = value: it writes the one slot index + OffSet and no other. */
  method Set<T>(m: Memory<T>, index: int32, value: T) returns (r: Result<()>)
    modifies m.obj
    ensures r.Ok? <==> m.obj != null && 0 <= Slot(m, index) < m.obj.Length
    ensures m.obj == null ==> r == Err(NullReference)
    ensures m.obj != null && r.Err? ==> r.error == IndexOutOfRange && unchanged(m.obj)
    ensures r.Ok? ==> m.obj[..] == old(m.obj[..])[Slot(m, index) := value]
  {
    if m.obj == null {
      return Err(NullReference);
    }
    var slot := Slot(m, index);
    if !(0 <= slot < m.obj.Length) {
      return Err(IndexOutOfRange);
    }
    m.obj[slot] := value;
    r := Ok(());
  }

  /** Slice(offset, length): Memory(_object, offset, length); the current offset plays no part. */
  function SliceRange<T>(m: Memory<T>, offset: int32, length: int32): (r: Memory<T>)
    requires Valid(m)
    ensures Valid(r)
    ensures m.obj != null ==> r.obj == m.obj && r.offset == offset && r.len == length
    ensures m.obj == null ==> r == m
  {
    NewMemoryRange(m.obj, offset, length)
  }

  /** Slice(offset): Memory(_object, offset). */
  function Slice<T>(m: Memory<T>, offset: int32): (r: Memory<T>)
    requires Valid(m)
    ensures Valid(r)
    ensures m.obj != null ==> r.obj == m.obj && r.offset == offset && r.len == 0
    ensures m.obj == null ==> r == m
  {
    NewMemoryAt(m.obj, offset)
  }

  /** Slicing forgets the earlier slice: a slice of a slice is the second slice of the original. */
  lemma SliceForgetsOffset<T>(m: Memory<T>, a: int32, b: int32, len: int32)
    requires Valid(m)
    ensures Slice(Slice(m, a), b) == Slice(m, b)
    ensures SliceRange(Slice(m, a), b, len) == SliceRange(m, b, len)
    ensures SliceRange(SliceRange(m, a, len), b, len) == SliceRange(m, b, len)
  {
  }

  /** Span: new Span<T>(_object), the whole array; the default Memory fails at its Length. */
  function SpanOf<T>(m: Memory<T>): (r: Result<Spans.Span<T>>)
    requires Valid(m)
    ensures r.Ok? <==> m.obj != null
    ensures r.Err? ==> r.error == NullReference
    ensures r.Ok? ==> r.value.data == m.obj && r.value.offset == 0 && r.value.len == m.obj.Length
  {
    Spans.NewSpan(m.obj)
  }

  /** ToArray: Span.ToArray(), a copy of the entire array whatever the offset and count. */
  function ToArray<T>(m: Memory<T>): (r: Result<seq<T>>)
    requires Valid(m)
    reads m.obj
    ensures m.obj == null ==> r == Err(NullReference)
    ensures m.obj != null ==> r == Ok(m.obj[..])
  {
    var span :- SpanOf(m);
    assert m.obj[0..m.obj.Length] == m.obj[..];
    Spans.ToArray(span)
  }

  /**
   * CopyTo(destination): Span.CopyTo(destination.Span).  Both spans cover
   * their whole arrays, so the source span's Length is never positive and
   * the copy loop never runs: a default Memory on either side is a
   * NullReference, and otherwise nothing is written.
   */
  method CopyTo<T>(m: Memory<T>, destination: Memory<T>) returns (r: Result<()>)
    requires Valid(m) && Valid(destination)
    modifies destination.obj
    ensures r.Err? <==> m.obj == null || destination.obj == null
    ensures r.Err? ==> r.error == NullReference
    ensures destination.obj != null ==> destination.obj[..] == old(destination.obj[..])
  {
    var source :- SpanOf(m);
    var target :- SpanOf(destination);
    Spans.WholeSpanCopiesNothing(m.obj, Spans.Contents(destination.obj), target.offset, m.obj == destination.obj);
    assert source == Spans.NewSpan(m.obj).value;
    r := Spans.CopyTo(source, target);
    assert destination.obj[..] == old(destination.obj[..]);
  }
}
