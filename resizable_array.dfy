/** The hand-written growable array `ResizableArray<T>` that holds every dataset of the
    sentiment analyser: the two word lexicons, the reviews, the user ratings and the lists of
    matched lexicon indices. */
module Containers {
  import opened Ordering

  /** The two exceptions the container throws: `invalid_argument` from the constructor and
      `out_of_range` from `get`. */
  datatype Error = InvalidArgument | OutOfRange

  datatype Result<T> = Success(value: T) | Failure(error: Error)

  /** The constructor's default capacity. */
  const DefaultCapacity := 10

  class ResizableArray<T(0,==,!new)> {
    var data: array<T>
    var capacity: int
    var size: int

    /** The elements in use, `data[0..size)`, in order. */
    ghost var Contents: seq<T>
    /** The objects the container owns: itself and its current buffer. */
    ghost var Repr: set<object>

    /** The object invariant: the buffer is `capacity` long, `capacity` is positive and the first
        `size` slots hold `Contents`. */
    ghost predicate Valid()
      reads this, Repr
      ensures Valid() ==> this in Repr
    {
      && Repr == {this, data}
      && 0 < capacity == data.Length
      && 0 <= size <= capacity
      && Contents == data[..size]
    }

    /** `ResizableArray(initialCapacity)` for a positive capacity; `Create` models the
        constructor's rejection of the others. */
    constructor (initialCapacity: int)
      requires initialCapacity > 0
      ensures Valid() && fresh(Repr)
      ensures Contents == [] && capacity == initialCapacity
    {
      data := new T[initialCapacity];
      capacity := initialCapacity;
      size := 0;
      Contents := [];
      Repr := {this, data};
    }

    /** Replaces the buffer by one twice as long holding the same first `size` elements. */
    method Resize()
      requires Valid()
      modifies Repr
      ensures Valid() && fresh(data) && fresh(Repr - old(Repr))
      ensures capacity == 2 * old(capacity)
      ensures size == old(size) && Contents == old(Contents)
    {
      var newCapacity := capacity * 2;
      var newData := new T[newCapacity];
      var i := 0;
      while i < size
        modifies newData
        invariant 0 <= i <= size
        invariant newData[..i] == data[..i]
      {
        newData[i] := data[i];
        i := i + 1;
      }
      data := newData;
      capacity := newCapacity;
      Repr := {this, data};
    }

    /** Appends `element`, first doubling the capacity when the array is full. */
    method Add(element: T)
      requires Valid()
      modifies Repr
      ensures Valid() && fresh(Repr - old(Repr))
      ensures Contents == old(Contents) + [element]
      ensures size == old(size) + 1
      ensures capacity == if old(size) == old(capacity) then 2 * old(capacity) else old(capacity)
    {
      if size == capacity {
        Resize();
      }
      data[size] := element;
      size := size + 1;
      Contents := Contents + [element];
    }

    /** The element at `index`, or `out_of_range` outside `[0, size)`. */
    method Get(index: int) returns (r: Result<T>)
      requires Valid()
      ensures r == if 0 <= index < |Contents| then Success(Contents[index]) else Failure(OutOfRange)
    {
      if index < 0 || index >= size {
        return Failure(OutOfRange);
      }
      return Success(data[index]);
    }

    method GetSize() returns (n: int)
      requires Valid()
      ensures n == |Contents|
    {
      return size;
    }

    /** Binary search of an array sorted by `lt`: an index holding `element`, or -1 when
        there is none. Among equal elements any one of them may be returned. */
    method BinarySearch(element: T, lt: (T, T) -> bool) returns (r: int)
      requires Valid()
      requires IsStrictTotalOrder(lt) && Sorted(lt, Contents)
      ensures -1 <= r < |Contents|
      ensures 0 <= r ==> Contents[r] == element
      ensures r == -1 <==> element !in Contents
    {
      var low := 0;
      var high := size - 1;
      while low <= high
        invariant 0 <= low <= high + 1 <= size
        invariant forall k :: 0 <= k < low ==> lt(data[k], element)
        invariant forall k :: high < k < size ==> lt(element, data[k])
        decreases high - low
      {
        var mid := (low + high) / 2;
        if data[mid] == element {
          return mid;
        } else if lt(data[mid], element) {
          forall k | 0 <= k < mid ensures lt(data[k], element) {
            assert !lt(data[mid], data[k]);
            assert ConnectedAt(lt, data[k], data[mid]) && TransitiveAt(lt, data[k], data[mid], element);
          }
          low := mid + 1;
        } else {
          assert ConnectedAt(lt, data[mid], element);
          forall k | mid < k < size ensures lt(element, data[k]) {
            assert !lt(data[k], data[mid]);
            assert ConnectedAt(lt, data[mid], data[k]) && TransitiveAt(lt, element, data[mid], data[k]);
          }
          high := mid - 1;
        }
      }
      forall k | 0 <= k < size ensures data[k] != element {
        if k < low {
          assert lt(data[k], element);
        } else {
          assert lt(element, data[k]);
        }
      }
      return -1;
    }

    /** Sorts `data[0..size)` in place by insertion: each element in turn is lifted out and the
        larger elements before it shift up one slot until its place is found. */
    method InsertionSort(lt: (T, T) -> bool)
      requires Valid() && IsStrictTotalOrder(lt)
      modifies this`Contents, data
      ensures Valid()
      ensures Sorted(lt, Contents)
      ensures multiset(Contents) == multiset(old(Contents))
      ensures Sorted(lt, old(Contents)) ==> Contents == old(Contents)
    {
      var i := 1;
      while i < size
        invariant 1 <= i <= size || i == 1
        invariant SortedPrefix(lt, data[..size], i)
        invariant multiset(data[..size]) == multiset(old(Contents))
      {
        InsertAt(i, lt);
        i := i + 1;
      }
      Contents := data[..size];
      if Sorted(lt, old(Contents)) {
        SortedPermutationUnique(lt, Contents, old(Contents));
      }
    }

    /** One round of `InsertionSort`, its inner loop: `key = data[i]` is lifted out, the elements
        of the sorted `data[0..i)` greater than `key` shift up one slot, and `key` fills the gap. */
    method InsertAt(i: int, lt: (T, T) -> bool)
      requires IsStrictTotalOrder(lt)
      requires 0 < i < size <= data.Length
      requires SortedPrefix(lt, data[..size], i)
      modifies data
      ensures SortedPrefix(lt, data[..size], i + 1)
      ensures multiset(data[..size]) == multiset(old(data[..size]))
      ensures data[i + 1..size] == old(data[i + 1..size])
      ensures exists p :: 0 <= p <= i && data[..size] == MoveDown(old(data[..size]), i, p)
    {
      ghost var s := data[..size];
      var key := data[i];
      var j := i - 1;
      while j >= 0 && lt(key, data[j])
        invariant -1 <= j < i
        invariant forall k :: 0 <= k <= j || i < k < size ==> data[k] == s[k]
        invariant forall k :: j + 1 < k <= i ==> data[k] == s[k - 1]
        invariant forall k :: j < k < i ==> lt(key, s[k])
        decreases j
      {
        data[j + 1] := data[j];
        j := j - 1;
      }
      data[j + 1] := key;
      ghost var t := data[..size];
      assert forall k :: 0 <= k < size ==> t[k] == data[k];
      InsertionStep(lt, s, t, i, j + 1);
    }
  }

  /** `new ResizableArray<T>(initialCapacity)`: `invalid_argument` when the capacity is not
      positive, otherwise an empty array of that capacity. */
  method Create<T(0,==,!new)>(initialCapacity: int) returns (r: Result<ResizableArray<T>>)
    ensures r.Failure? <==> initialCapacity <= 0
    ensures r.Failure? ==> r.error == InvalidArgument
    ensures r.Success? ==> r.value.Valid() && fresh(r.value.Repr)
    ensures r.Success? ==> r.value.Contents == [] && r.value.capacity == initialCapacity
  {
    if initialCapacity <= 0 {
      return Failure(InvalidArgument);
    }
    var a := new ResizableArray<T>(initialCapacity);
    return Success(a);
  }
}
