/*******************************************************************************
 *  ArrayPools: the back-ported ArrayPool<T>, a dictionary from an array
 *  length to a bag of arrays of that length waiting to be rented again.
 *
 *  The dictionary is a map and each ConcurrentBag a multiset: a bag hands
 *  out whichever array it likes, so Rent takes an arbitrary one.
 *******************************************************************************/

module ArrayPools {
  import opened Common

  /** Every array waiting in the bucket for length k has length k. */
  ghost predicate SameLengths<T>(pool: map<int, multiset<array<T>>>)
  {
    forall k | k in pool :: forall a | a in pool[k] :: a.Length == k
  }

  /** Taking an array out of a bucket keeps the lengths right. */
  lemma TakePreserves<T>(pool: map<int, multiset<array<T>>>, k: int, x: array<T>)
    requires SameLengths(pool) && k in pool
    ensures SameLengths(pool[k := pool[k] - multiset{x}])
  {
    forall a | a in pool[k] - multiset{x}
      ensures a.Length == k
    {
      assert a in pool[k];
    }
  }

  /** Putting an array of length k into bucket k keeps the lengths right. */
  lemma PutPreserves<T>(pool: map<int, multiset<array<T>>>, k: int, x: array<T>)
    requires SameLengths(pool) && k in pool && x.Length == k
    ensures SameLengths(pool[k := pool[k] + multiset{x}])
  {
  }

  /** An empty bucket keeps the lengths right. */
  lemma EmptyPreserves<T>(pool: map<int, multiset<array<T>>>, k: int)
    requires SameLengths(pool)
    ensures SameLengths(pool[k := multiset{}])
  {
  }

  class ArrayPool<T> {
    /** _pool: the bucket for each length that has one. */
    var pool: map<int, multiset<array<T>>>
    /** default(T), what Array.Clear and new T[n] fill arrays with. */
    const defaultValue: T

    /** Every array waiting in bucket k has length k. */
    ghost predicate Valid()
      reads this
    {
      SameLengths(pool)
    }

    /** The buckets are exactly those for lengths 1 to n, and all of them are empty. */
    ghost predicate EmptyBucketsUpTo(n: int)
      reads this
    {
      (forall k :: k in pool <==> 1 <= k <= n) && forall k | k in pool :: pool[k] == multiset{}
    }

    /** ArrayPool(): no buckets at all. */
    constructor (defaultValue: T)
      ensures Valid() && pool == map[] && this.defaultValue == defaultValue
    {
      this.defaultValue := defaultValue;
      pool := map[];
    }

    /**
     * The body of ArrayPool(maxArrayLength, maxArraysPerBucket) once its
     * arguments are accepted: an empty bucket for each length 1 to
     * maxArraysPerBucket.
     */
    constructor Sized(maxArraysPerBucket: int32, defaultValue: T)
      requires maxArraysPerBucket > 0
      ensures Valid() && this.defaultValue == defaultValue
      ensures EmptyBucketsUpTo(maxArraysPerBucket)
    {
      this.defaultValue := defaultValue;
      pool := map[];
      new;
      var i := 1;
      while i <= maxArraysPerBucket
        invariant 1 <= i <= maxArraysPerBucket + 1
        invariant EmptyBucketsUpTo(i - 1)
      {
        if i !in pool {
          pool := pool[i := multiset{}];
        }
        i := i + 1;
      }
    }

    /**
     * Rent(capacity): null below 1; otherwise an array of that length,
     * taken out of its bucket when the bucket has one, else a new array of
     * default values.  A length with no bucket gets an empty one.
     */
    method Rent(capacity: int32) returns (r: array?<T>)
      requires Valid()
      modifies this
      ensures Valid()
      ensures capacity < 1 ==> r == null && pool == old(pool)
      ensures capacity >= 1 ==> r != null && r.Length == capacity
      ensures capacity >= 1 && capacity in old(pool) && old(pool)[capacity] != multiset{} ==>
        r in old(pool)[capacity] && pool == old(pool)[capacity := old(pool)[capacity] - multiset{r}]
      ensures capacity >= 1 && (capacity !in old(pool) || old(pool)[capacity] == multiset{}) ==>
        fresh(r) && r[..] == seq(capacity, _ => defaultValue) && pool == old(pool)[capacity := multiset{}]
    {
      if capacity < 1 {
        return null;
      }
      if capacity in pool {
        var subpool := pool[capacity];
        if subpool != multiset{} {
          var result :| result in subpool;
          TakePreserves(pool, capacity, result);
          pool := pool[capacity := subpool - multiset{result}];
          return result;
        }
        r := new T[capacity](_ => defaultValue);
        return;
      }
      EmptyPreserves(pool, capacity);
      pool := pool[capacity := multiset{}];
      r := new T[capacity](_ => defaultValue);
    }

    /**
     * Return(array): nothing for null or an empty array; otherwise every
     * element is set back to default, and then the array joins the bucket
     * for its length.  A length with no bucket fails at the dictionary
     * lookup, after the array has been cleared.
     */
    method Return(arr: array?<T>) returns (r: Result<()>)
      requires Valid()
      modifies this, arr
      ensures Valid()
      ensures arr == null || arr.Length < 1 ==> r == Ok(()) && pool == old(pool)
      ensures arr != null && arr.Length >= 1 ==> arr[..] == seq(arr.Length, _ => defaultValue)
      ensures arr != null && arr.Length >= 1 && arr.Length in old(pool) ==>
        r == Ok(()) && pool == old(pool)[arr.Length := old(pool)[arr.Length] + multiset{arr}]
      ensures arr != null && arr.Length >= 1 && arr.Length !in old(pool) ==>
        r == Err(KeyNotFound) && pool == old(pool)
    {
      if arr == null || arr.Length < 1 {
        return Ok(());
      }
      var len := arr.Length;
      forall i | 0 <= i < len {
        arr[i] := defaultValue;
      }
      if len !in pool {
        return Err(KeyNotFound);
      }
      PutPreserves(pool, len, arr);
      pool := pool[len := pool[len] + multiset{arr}];
      r := Ok(());
    }
  }

  /**
   * ArrayPool.Create, through ConfigurableArrayPool's constructor, into
   * ArrayPool(maxArrayLength, maxArraysPerBucket): ArgumentOutOfRange for a
   * length or a bucket size that is not positive.
   */
  method Create<T>(maxArrayLength: int32, maxArraysPerBucket: int32, defaultValue: T) returns (r: Result<ArrayPool<T>>)
    ensures r.Ok? <==> maxArrayLength > 0 && maxArraysPerBucket > 0
    ensures r.Err? ==> r.error == ArgumentOutOfRange
    ensures r.Ok? ==>
      fresh(r.value) && r.value.Valid() && r.value.EmptyBucketsUpTo(maxArraysPerBucket)
  {
    if maxArrayLength <= 0 {
      return Err(ArgumentOutOfRange);
    }
    if maxArraysPerBucket <= 0 {
      return Err(ArgumentOutOfRange);
    }
    var p := new ArrayPool.Sized(maxArraysPerBucket, defaultValue);
    r := Ok(p);
  }

  /**
   * A returned array is the next one rented at its length whenever its
   * bucket held nothing else: Return then Rent hands the same, cleared,
   * array back.
   */
  method ReturnThenRent<T>(p: ArrayPool<T>, arr: array<T>) returns (r: array?<T>)
    requires p.Valid() && 1 <= arr.Length <= Int32Max
    requires arr.Length in p.pool && p.pool[arr.Length] == multiset{}
    modifies p, arr
    ensures r == arr && r[..] == seq(arr.Length, _ => p.defaultValue)
    ensures p.Valid() && p.pool == old(p.pool)
  {
    var returned := p.Return(arr);
    assert multiset{} + multiset{arr} == multiset{arr};
    assert p.pool == old(p.pool)[arr.Length := multiset{arr}];
    r := p.Rent(arr.Length);
    assert r in multiset{arr};
    assert multiset{arr} - multiset{r} == multiset{};
    assert p.pool == old(p.pool)[arr.Length := multiset{}];
  }
}
