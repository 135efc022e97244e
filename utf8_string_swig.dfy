/** `UTF8StringSwig`: the managed proxy of a native byte vector, with its
    ownership of the native memory, the bounded `CopyTo` and `ToArray`, the
    `Capacity` setter, and its enumerator. The native vector is a sequence of
    bytes and a capacity; the native handle is a number, 0 standing for
    `IntPtr.Zero`. */
module Utf8StringSwigs {
  import opened Common

  /** `int.MaxValue`. */
  const IntMax := 0x7FFF_FFFF

  /** C#'s unchecked `int` addition: the sum wrapped to 32 bits. */
  function Wrap32(x: int): (r: int32)
    ensures (r - x) % 0x1_0000_0000 == 0
    ensures -0x8000_0000 <= x < 0x8000_0000 ==> r == x
  {
    var m := (x + 0x8000_0000) % 0x1_0000_0000;
    m - 0x8000_0000
  }

  /** The "too many elements" test of `CopyTo` as the code writes it, in
      unchecked 32-bit arithmetic. */
  predicate CopyToGuardAsWritten(index: int32, count: int32, size: int32, arrayIndex: int32, length: int32) {
    Wrap32(index + count) > size || Wrap32(arrayIndex + count) > length
  }

  /** The same test in exact arithmetic: the source range or the destination
      range runs past its end. */
  predicate CopyToGuard(index: int, count: int, size: int, arrayIndex: int, length: int) {
    index + count > size || arrayIndex + count > length
  }

  /** With non-negative arguments whose sums fit in an `int`, the test as
      written is the exact test. */
  lemma GuardsAgreeWithoutOverflow(index: int32, count: int32, size: int32, arrayIndex: int32, length: int32)
    requires 0 <= index && 0 <= count && 0 <= arrayIndex
    requires index + count <= IntMax && arrayIndex + count <= IntMax
    ensures CopyToGuardAsWritten(index, count, size, arrayIndex, length) ==
            CopyToGuard(index, count, size, arrayIndex, length)
  {
  }

  /** The sum `index + count` wraps to a negative number, so the test as
      written lets a copy of `int.MaxValue` elements from position 1 of a
      2-element vector into a 2-element array through to the copy loop. */
  lemma CopyToGuardWraps()
    ensures var index, count, size, arrayIndex, length := 1, IntMax, 2, 1, 2;
      !CopyToGuardAsWritten(index, count, size, arrayIndex, length) &&
      CopyToGuard(index, count, size, arrayIndex, length)
  {
    assert Wrap32(1 + IntMax) == -0x8000_0000;
  }

  class Utf8StringSwig {
    /** The native vector's bytes. */
    var items: seq<byte>
    /** The native vector's capacity. */
    var capacity: nat
    /** `swigCPtr.Handle`. */
    var handle: nat
    /** `swigCMemOwn`. */
    var memOwn: bool
    /** How many times the native vector has been deleted. */
    ghost var deletes: nat

    /** Owned memory has a live handle and has not been deleted; the native
        memory is deleted at most once; `Count` fits an `int`. */
    ghost predicate Valid()
      reads this
    {
      (memOwn ==> handle != 0 && deletes == 0) && deletes <= 1 &&
      |items| <= capacity && |items| <= IntMax
    }

    constructor (handle: nat, cMemoryOwn: bool, items: seq<byte>)
      requires handle != 0 && |items| <= IntMax
      ensures Valid()
      ensures this.handle == handle && memOwn == cMemoryOwn && this.items == items
      ensures deletes == 0
    {
      this.handle := handle;
      memOwn := cMemoryOwn;
      this.items := items;
      capacity := |items|;
      deletes := 0;
    }

    /** `Count`. */
    function Count(): int32
      reads this
      requires Valid()
    {
      |items|
    }

    /** The `Capacity` setter: below 0 or below the current size throws;
        otherwise the native vector reserves at least that capacity. */
    method SetCapacity(value: int32) returns (o: Outcome<Error>)
      requires Valid()
      modifies this`capacity
      ensures Valid()
      ensures o.Fail? <==> value < 0 || value < |items|
      ensures o.Fail? ==> o.error == ArgumentOutOfRangeException("Capacity") && capacity == old(capacity)
      ensures o == Pass ==> capacity >= value && capacity >= old(capacity)
    {
      if value < 0 || value < |items| {
        return Fail(ArgumentOutOfRangeException("Capacity"));
      }
      if value > capacity {
        capacity := value;
      }
      o := Pass;
    }

    /** `CopyTo(index, array, arrayIndex, count)`: checks its arguments in
        order, then sets `dest[arrayIndex + i]` to element `index + i` for
        every `i < count` and leaves every other cell alone. */
    method CopyTo(index: int32, dest: array?<byte>, arrayIndex: int32, count: int32) returns (o: Outcome<Error>)
      requires Valid()
      modifies dest
      ensures dest == null ==> o == Fail(ArgumentNullException("array"))
      ensures dest != null && index < 0 ==> o == Fail(ArgumentOutOfRangeException("index"))
      ensures dest != null && 0 <= index && arrayIndex < 0 ==>
        o == Fail(ArgumentOutOfRangeException("arrayIndex"))
      ensures dest != null && 0 <= index && 0 <= arrayIndex && count < 0 ==>
        o == Fail(ArgumentOutOfRangeException("count"))
      ensures dest != null && 0 <= index && 0 <= arrayIndex && 0 <= count ==>
        (o.Fail? <==> CopyToGuard(index, count, |items|, arrayIndex, dest.Length))
      ensures (dest != null && 0 <= index && 0 <= arrayIndex && 0 <= count &&
               CopyToGuard(index, count, |items|, arrayIndex, dest.Length)) ==>
        o == Fail(ArgumentException("Number of elements to copy is too large."))
      ensures dest != null && o.Fail? ==> dest[..] == old(dest[..])
      ensures dest != null && o == Pass ==>
        0 <= arrayIndex && arrayIndex + count <= dest.Length && 0 <= index && index + count <= |items| &&
        dest[..] == old(dest[..arrayIndex]) + items[index..index + count] + old(dest[arrayIndex + count..])
    {
      if dest == null {
        return Fail(ArgumentNullException("array"));
      }
      if index < 0 {
        return Fail(ArgumentOutOfRangeException("index"));
      }
      if arrayIndex < 0 {
        return Fail(ArgumentOutOfRangeException("arrayIndex"));
      }
      if count < 0 {
        return Fail(ArgumentOutOfRangeException("count"));
      }
      if CopyToGuard(index, count, Count(), arrayIndex, dest.Length) {
        return Fail(ArgumentException("Number of elements to copy is too large."));
      }
      var i := 0;
      while i < count
        invariant 0 <= i <= count
        invariant forall j | 0 <= j < dest.Length ::
          dest[j] == if arrayIndex <= j < arrayIndex + i then items[index + (j - arrayIndex)] else old(dest[j])
      {
        dest[arrayIndex + i] := items[index + i];
        i := i + 1;
      }
      assert dest[..] == old(dest[..arrayIndex]) + items[index..index + count] + old(dest[arrayIndex + count..]);
      o := Pass;
    }

    /** `CopyTo(array)`: the whole vector to the front of `array`. */
    method CopyToArray(dest: array?<byte>) returns (o: Outcome<Error>)
      requires Valid()
      modifies dest
      ensures dest == null ==> o == Fail(ArgumentNullException("array"))
      ensures dest != null ==> (o.Fail? <==> |items| > dest.Length)
      ensures dest != null && o.Fail? ==> dest[..] == old(dest[..])
      ensures dest != null && o == Pass ==> dest[..] == items + old(dest[|items|..])
    {
      o := CopyTo(0, dest, 0, Count());
      if dest != null && o == Pass {
        assert old(dest[..0]) == [] && items[0..|items|] == items;
      }
    }

    /** `CopyTo(array, arrayIndex)`: the whole vector into `array` from
        `arrayIndex`. */
    method CopyToArrayAt(dest: array?<byte>, arrayIndex: int32) returns (o: Outcome<Error>)
      requires Valid()
      modifies dest
      ensures dest == null ==> o == Fail(ArgumentNullException("array"))
      ensures dest != null && arrayIndex < 0 ==> o == Fail(ArgumentOutOfRangeException("arrayIndex"))
      ensures dest != null && 0 <= arrayIndex ==> (o.Fail? <==> arrayIndex + |items| > dest.Length)
      ensures dest != null && o.Fail? ==> dest[..] == old(dest[..])
      ensures dest != null && o == Pass ==>
        0 <= arrayIndex && arrayIndex + |items| <= dest.Length &&
        dest[..] == old(dest[..arrayIndex]) + items + old(dest[arrayIndex + |items|..])
    {
      o := CopyTo(0, dest, arrayIndex, Count());
      if dest != null && o == Pass {
        assert items[0..|items|] == items;
      }
    }

    /** `ToArray()`: a new array holding the vector's bytes in order. */
    method ToArray() returns (dest: array<byte>)
      requires Valid()
      ensures fresh(dest)
      ensures dest[..] == items
    {
      dest := new byte[Count()];
      var o := CopyToArray(dest);
      assert o == Pass;
      assert dest[|items|..] == [];
    }

    /** `Dispose(bool)`: a live handle is zeroed, and the native vector is
        deleted first when this proxy owns it. */
    method Dispose()
      requires Valid()
      modifies this`memOwn, this`handle, this`deletes
      ensures Valid()
      ensures handle == 0 && !memOwn
      ensures deletes == old(deletes) + (if old(handle) != 0 && old(memOwn) then 1 else 0)
    {
      if handle != 0 {
        if memOwn {
          memOwn := false;
          deletes := deletes + 1;
        }
        handle := 0;
      }
    }
  }

  /** `swigRelease(obj)`: hands the native vector over to the caller. It
      throws unless the proxy owns the memory; otherwise it gives up
      ownership, disposes the proxy without deleting the vector, and returns
      the original handle. A null proxy gives the zero handle. */
  method SwigRelease(obj: Utf8StringSwig?) returns (r: Result<nat, Error>)
    requires obj != null ==> obj.Valid()
    modifies obj
    ensures obj == null ==> r == Success(0)
    ensures obj != null && !old(obj.memOwn) ==>
      r == Failure(ApplicationException("Cannot release ownership as memory is not owned")) &&
      unchanged(obj)
    ensures obj != null && old(obj.memOwn) ==>
      r == Success(old(obj.handle)) && r.value != 0 && obj.handle == 0 && !obj.memOwn &&
      obj.deletes == old(obj.deletes) && obj.capacity == old(obj.capacity)
    ensures obj != null ==> obj.Valid() && obj.items == old(obj.items)
  {
    if obj == null {
      return Success(0);
    }
    if !obj.memOwn {
      return Failure(ApplicationException("Cannot release ownership as memory is not owned"));
    }
    var ptr := obj.handle;
    obj.memOwn := false;
    obj.Dispose();
    r := Success(ptr);
  }

  /** The state of an enumerator: `currentIndex`, `currentObject` (None for
      null) and `currentSize`. */
  datatype Cursor = Cursor(index: int, current: Option<byte>, size: int)

  /** A new enumerator over a collection of `count` elements. */
  function Start(count: int): Cursor {
    Cursor(-1, None, count)
  }

  /** The states an enumerator can reach: not started, or on an element of
      the size it started with. */
  predicate Reachable(c: Cursor) {
    0 <= c.size && -1 <= c.index < c.size && (c.index == -1 ==> c.current.None?)
  }

  /** `MoveNext()` against the collection's current bytes: it moves when a
      next element exists and the size is unchanged, caching that element;
      otherwise it clears the cached element. */
  function Step(items: seq<byte>, c: Cursor): (r: (Cursor, bool))
    requires -1 <= c.index
    ensures r.1 <==> c.index + 1 < |items| && |items| == c.size
    ensures r.1 ==> r.0 == Cursor(c.index + 1, Some(items[c.index + 1]), c.size)
    ensures !r.1 ==> r.0 == Cursor(c.index, None, c.size)
    ensures Reachable(c) ==> Reachable(r.0)
  {
    var size := |items|;
    if c.index + 1 < size && size == c.size then (Cursor(c.index + 1, Some(items[c.index + 1]), c.size), true)
    else (c.(current := None), false)
  }

  /** `Current`. */
  function CurrentOf(c: Cursor): Result<byte, Error> {
    if c.index == -1 then Failure(InvalidOperationException("Enumeration not started."))
    else if c.index > c.size - 1 then Failure(InvalidOperationException("Enumeration finished."))
    else if c.current.None? then Failure(InvalidOperationException("Collection modified."))
    else Success(c.current.value)
  }

  /** `Reset()` against a collection of `count` elements. */
  function ResetOf(count: int, c: Cursor): (Cursor, Outcome<Error>) {
    (Cursor(-1, None, c.size),
     if count != c.size then Fail(InvalidOperationException("Collection modified.")) else Pass)
  }

  /** `Current` answers the element the last successful `MoveNext` cached,
      and fails before the first one. The "Enumeration finished." answer is
      never given: `MoveNext` never moves past the last element, and after
      the end `Current` reports "Collection modified." instead. */
  lemma CurrentOfReachable(c: Cursor)
    requires Reachable(c)
    ensures CurrentOf(c) != Failure(InvalidOperationException("Enumeration finished."))
    ensures CurrentOf(c).Success? <==> c.current.Some?
    ensures c.current.Some? ==> CurrentOf(c) == Success(c.current.value)
  {
  }

  /** The bytes a `foreach` loop yields from `c` on: `MoveNext` until it
      fails, reading `Current` after each success. */
  function Drain(items: seq<byte>, c: Cursor): seq<Result<byte, Error>>
    requires -1 <= c.index
    decreases |items| - c.index
  {
    var (next, moved) := Step(items, c);
    if moved then [CurrentOf(next)] + Drain(items, next) else []
  }

  /** On a collection left unmodified, the enumerator yields every byte once,
      in index order. */
  lemma {:induction false} DrainYieldsRest(items: seq<byte>, c: Cursor)
    requires Reachable(c) && c.size == |items|
    ensures Drain(items, c) == seq(|items| - (c.index + 1), i requires 0 <= i < |items| - (c.index + 1) => Success(items[c.index + 1 + i]))
    decreases |items| - c.index
  {
    var (next, moved) := Step(items, c);
    if moved {
      DrainYieldsRest(items, next);
    }
  }

  /** A `foreach` over an unmodified collection yields exactly its bytes. */
  lemma ForeachYieldsItems(items: seq<byte>)
    ensures Drain(items, Start(|items|)) == seq(|items|, i requires 0 <= i < |items| => Success(items[i]))
  {
    DrainYieldsRest(items, Start(|items|));
  }

  /** `UTF8StringSwigEnumerator`. */
  class Utf8StringSwigEnumerator {
    const collectionRef: Utf8StringSwig
    var currentIndex: int
    var currentObject: Option<byte>
    var currentSize: int

    function State(): Cursor
      reads this
    {
      Cursor(currentIndex, currentObject, currentSize)
    }

    ghost predicate Valid()
      reads this
    {
      Reachable(State())
    }

    /** A new enumerator is not started and remembers the collection's
        size. */
    constructor (collection: Utf8StringSwig)
      requires collection.Valid()
      ensures Valid()
      ensures collectionRef == collection && State() == Start(|collection.items|)
    {
      collectionRef := collection;
      currentIndex := -1;
      currentObject := None;
      currentSize := collection.Count();
    }

    /** `Current`. */
    function Current(): (r: Result<byte, Error>)
      reads this
      requires Valid()
      ensures currentIndex == -1 ==> r == Failure(InvalidOperationException("Enumeration not started."))
      ensures r.Success? <==> currentObject.Some?
      ensures r.Success? ==> r.value == currentObject.value
    {
      CurrentOfReachable(State());
      CurrentOf(State())
    }

    /** `MoveNext()`. */
    method MoveNext() returns (moved: bool)
      requires Valid()
      modifies this`currentIndex, this`currentObject
      ensures Valid()
      ensures (State(), moved) == Step(collectionRef.items, old(State()))
    {
      var size := |collectionRef.items|;
      var moveOkay := currentIndex + 1 < size && size == currentSize;
      if moveOkay {
        currentIndex := currentIndex + 1;
        currentObject := Some(collectionRef.items[currentIndex]);
      } else {
        currentObject := None;
      }
      moved := moveOkay;
    }

    /** `Reset()`: back to not started; throws when the collection's size has
        changed since the enumerator was created. */
    method Reset() returns (o: Outcome<Error>)
      requires Valid()
      modifies this`currentIndex, this`currentObject
      ensures Valid()
      ensures (State(), o) == ResetOf(|collectionRef.items|, old(State()))
    {
      currentIndex := -1;
      currentObject := None;
      if |collectionRef.items| != currentSize {
        return Fail(InvalidOperationException("Collection modified."));
      }
      o := Pass;
    }

    /** `Dispose()`: back to not started. */
    method Dispose()
      requires Valid()
      modifies this`currentIndex, this`currentObject
      ensures Valid()
      ensures State() == Start(currentSize)
    {
      currentIndex := -1;
      currentObject := None;
    }
  }
}
