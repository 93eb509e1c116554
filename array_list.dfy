/**
 * A growable array that expands by a fixed chunk. Its `Count` setter adds the value
 * it is given to the stored count instead of assigning it, so `Add`'s `++Count`
 * takes a count `c` to `2c + 1`, and `Clear`'s `Count = 0` leaves the count alone.
 */
module Collections {
  import opened Protocol

  /** The chunk size of `new ArrayList<T>()`. */
  const DefaultChunkSize: Int32 := 1024

  /** The stored count after `Count = value`: the setter adds, with C#'s wrapping `int` sum. */
  function Accumulate(count: Int32, value: Int32): (r: Int32)
    ensures Int32Min <= count + value <= Int32Max ==> r == count + value
    ensures value == 0 ==> r == count
  {
    Wrap32(count + value)
  }

  /** The count after `Add` from count `c`: `++Count` hands `c + 1` to the accumulating setter. */
  function CountAfterAdd(c: Int32): (r: Int32)
    ensures 0 <= c && 2 * c + 1 <= Int32Max ==> r == 2 * c + 1
  {
    Accumulate(c, Wrap32(c + 1))
  }

  /** The count after `k` Adds to a fresh list. */
  function CountAfterAdds(k: nat): Int32
  {
    if k == 0 then 0 else CountAfterAdd(CountAfterAdds(k - 1))
  }

  function Pow2(k: nat): (r: nat)
    ensures r >= 1
  {
    if k == 0 then 1 else 2 * Pow2(k - 1)
  }

  lemma {:induction false} Pow2Monotone(j: nat, k: nat)
    requires j <= k
    ensures Pow2(j) <= Pow2(k)
    decreases k
  {
    if j < k {
      Pow2Monotone(j, k - 1);
    }
  }

  /**
   * After `k` Adds to a fresh list (up to 31 of them, while the count fits an int)
   * the count is 2^k - 1, so the `k`-th element went to index 2^(k-1) - 1, not k - 1.
   */
  lemma {:induction false} CountAfterAddsIsPow2MinusOne(k: nat)
    requires k <= 31
    ensures CountAfterAdds(k) == Pow2(k) - 1
  {
    if k > 0 {
      CountAfterAddsIsPow2MinusOne(k - 1);
      Pow2Monotone(k - 1, 30);
      assert Pow2(30) == 0x4000_0000 by {
        Pow2Value30();
      }
    }
  }

  lemma Pow2Value30()
    ensures Pow2(30) == 0x4000_0000
  {
    assert Pow2(10) == 1024;
    assert Pow2(20) == 1024 * Pow2(10);
    assert Pow2(30) == 1024 * Pow2(20);
  }

  /** The array length after `k` calls of Expand from `length`. */
  function ExpandedLength(length: nat, chunkSize: nat, k: nat): nat
  {
    length + k * chunkSize
  }

  /**
   * The growth loop `while (count >= Length) Expand();` ends exactly when some number
   * of expansions makes the count index inside the array: there is room already, or
   * each expansion adds something. With a chunk size of 0 and no room it never ends.
   */
  lemma GrowthLoopEnds(count: int, length: nat, chunkSize: nat)
    ensures (exists k: nat :: count < ExpandedLength(length, chunkSize, k)) <==> count < length || chunkSize > 0
  {
    if count < length {
      assert count < ExpandedLength(length, chunkSize, 0);
    } else if chunkSize > 0 {
      var k: nat := count - length + 1;
      assert k * chunkSize >= k by {
        MulAtLeast(k, chunkSize);
      }
      assert count < ExpandedLength(length, chunkSize, k);
    } else {
      forall k: nat
        ensures ExpandedLength(length, chunkSize, k) == length
      {
      }
    }
  }

  lemma MulAtLeast(k: nat, c: nat)
    requires c > 0
    ensures k * c >= k
  {
  }

  class ArrayList<T(0)> {
    /** How much each expansion adds to the array's length. */
    const chunkSize: Int32
    var count: Int32
    var arr: array<T>

    /**
     * The chunk size is not negative. A list whose chunk size is 0 keeps its empty
     * array for ever; with a positive one the count always indexes inside the array.
     */
    ghost predicate Valid()
      reads this
    {
      Shaped() && (chunkSize > 0 ==> count < arr.Length)
    }

    /** The chunk size is not negative, and a chunk size of 0 goes with the empty array. */
    ghost predicate Shaped()
      reads this
    {
      chunkSize >= 0 && (chunkSize == 0 ==> arr.Length == 0)
    }

    /** ArrayList's constructor; a negative chunk size is a length `new T[]` rejects. */
    constructor (chunkSize: Int32)
      requires chunkSize >= 0
      ensures Valid() && fresh(arr)
      ensures this.chunkSize == chunkSize && count == 0 && arr.Length == chunkSize
    {
      this.chunkSize := chunkSize;
      count := 0;
      arr := new T[chunkSize];
    }

    /** ArrayList's constructor with its default chunk size. */
    constructor Default()
      ensures Valid() && fresh(arr)
      ensures chunkSize == DefaultChunkSize && count == 0 && arr.Length == DefaultChunkSize
    {
      chunkSize := DefaultChunkSize;
      count := 0;
      arr := new T[DefaultChunkSize];
    }

    /** The indexer's getter. */
    method Get(i: int) returns (element: T)
      requires 0 <= i < arr.Length
      ensures element == arr[i]
    {
      return arr[i];
    }

    /** The indexer's setter: only slot `i` changes. */
    method Set(i: int, element: T)
      requires 0 <= i < arr.Length
      modifies arr
      ensures arr[..] == old(arr[..])[i := element]
    {
      arr[i] := element;
    }

    /** ArrayList.Expand (Array.Resize): a fresh array `chunkSize` longer, holding the old elements in front. */
    method Expand()
      requires chunkSize >= 0
      modifies this`arr
      ensures fresh(arr) && arr.Length == old(arr.Length) + chunkSize
      ensures arr[..old(arr.Length)] == old(arr[..])
    {
      var expanded := new T[arr.Length + chunkSize];
      forall i | 0 <= i < arr.Length {
        expanded[i] := arr[i];
      }
      arr := expanded;
    }

    /**
     * The `Count` setter: adds `value` to the count, then expands until the count is
     * below the array's length. The elements are kept; the array is replaced only if
     * the count reached its end, and it stops growing as soon as there is room.
     * With a chunk size of 0 and no room, Expand adds nothing and the loop never
     * ends: `hangs` reports that, in the state the loop would spin in.
     */
    method SetCount(value: Int32) returns (hangs: bool)
      requires Shaped()
      modifies this`count, this`arr
      ensures Valid()
      ensures count == Accumulate(old(count), value)
      ensures hangs <==> chunkSize == 0 && count >= old(arr.Length)
      ensures hangs ==> arr == old(arr)
      ensures !hangs ==> count < arr.Length
      ensures arr.Length >= old(arr.Length) && arr[..old(arr.Length)] == old(arr[..])
      ensures arr.Length == old(arr.Length) || arr.Length - chunkSize <= count
      ensures arr == old(arr) <==> hangs || count < old(arr.Length)
      ensures arr != old(arr) ==> fresh(arr)
    {
      count := Accumulate(count, value);
      while count >= arr.Length
        invariant arr.Length >= old(arr.Length) && arr[..old(arr.Length)] == old(arr[..])
        invariant arr.Length == old(arr.Length) || arr.Length - chunkSize <= count
        invariant arr == old(arr) <==> arr.Length == old(arr.Length)
        invariant arr != old(arr) ==> fresh(arr) && count >= old(arr.Length) && chunkSize > 0
        invariant count == Accumulate(old(count), value)
        decreases count - arr.Length
      {
        if chunkSize == 0 {
          // Expand would add nothing, so the condition would hold for ever.
          return true;
        }
        ghost var before := arr;
        Expand();
        assert arr[..old(arr.Length)] == arr[..before.Length][..old(arr.Length)];
      }
      return false;
    }

    /**
     * ArrayList.Add: the element goes to index Count and the other elements stay; the
     * count then becomes `2 Count + 1`. A negative count (after wrapping) is an index
     * C# rejects. With a chunk size of 0 the growth loop never ends (`hangs`), and
     * nothing changes.
     */
    method Add(element: T) returns (hangs: bool)
      requires Shaped()
      requires count >= 0
      modifies this`count, this`arr, arr
      ensures Valid()
      ensures hangs <==> chunkSize == 0
      ensures hangs ==> count == old(count) && arr == old(arr) && arr[..] == old(arr[..])
      ensures !hangs ==> count == CountAfterAdd(old(count))
      ensures !hangs ==> arr.Length >= old(arr.Length) && old(count) < arr.Length && arr[old(count)] == element
      ensures !hangs ==> forall j | 0 <= j < old(arr.Length) && j != old(count) :: arr[j] == old(arr[j])
      ensures arr != old(arr) ==> fresh(arr)
    {
      while count >= arr.Length
        invariant arr.Length >= old(arr.Length) && arr[..old(arr.Length)] == old(arr[..])
        invariant arr != old(arr) ==> fresh(arr) && chunkSize > 0
        invariant count == old(count)
        decreases count - arr.Length
      {
        if chunkSize == 0 {
          // Expand would add nothing, so the condition would hold for ever.
          return true;
        }
        ghost var before := arr;
        Expand();
        assert arr[..old(arr.Length)] == arr[..before.Length][..old(arr.Length)];
      }
      arr[count] := element;
      ghost var stored := arr[..];
      ghost var storedLength := arr.Length;
      var setterHangs := SetCount(Wrap32(count + 1));
      assert arr[..storedLength] == stored;
      return false;
    }

    /**
     * ArrayList.Clear: `Count = 0` adds nothing, so the count and the elements are
     * unchanged; on a list with chunk size 0 the setter's loop never ends.
     */
    method Clear() returns (hangs: bool)
      requires Valid()
      modifies this`count, this`arr
      ensures Valid()
      ensures hangs <==> chunkSize == 0 && count >= arr.Length
      ensures count == old(count) && arr == old(arr) && arr[..] == old(arr[..])
    {
      hangs := SetCount(0);
    }
  }

  /**
   * The constructor as it was evidently meant to be: a chunk size that is not positive
   * is refused, so every list it makes grows on each Expand and only the count can
   * stop an Add.
   */
  method NewArrayList<T(0)>(chunkSize: Int32) returns (list: Option<ArrayList<T>>)
    ensures list.Some? <==> chunkSize > 0
    ensures list.Some? ==> && fresh(list.value) && fresh(list.value.arr) && list.value.Valid()
                           && list.value.chunkSize == chunkSize && list.value.count == 0
                           && list.value.arr.Length == chunkSize
  {
    if chunkSize <= 0 {
      return None;
    }
    var created := new ArrayList<T>(chunkSize);
    return Some(created);
  }
}
