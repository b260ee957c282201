/** The growable array `MyArray<T>` (elections/structures/MyArray.java; the copy in
    com/example/.../structures/MyArray.java has the same fields and bodies).
    The Java `T[] data` holds `null` in unused slots; here a slot is an `Option<T>`. */
module MyArrays {
  import opened Wrappers

  /** Backing length of a freshly constructed array. */
  const InitialCapacity: nat := 10

  class MyArray<T> {
    // public view
    ghost var Contents: seq<T>
    ghost var Repr: set<object>

    // implementation, as in the Java class
    var data: array<Option<T>>
    var size: nat

    /** The first `size` slots hold the contents in order; the rest of `data` is spare capacity. */
    ghost predicate Valid()
      reads this, Repr
      ensures Valid() ==> this in Repr
    {
      && Repr == {this, data}
      && size == |Contents|
      && size <= data.Length
      && 0 < data.Length
      && forall i | 0 <= i < size :: data[i] == Some(Contents[i])
    }

    constructor ()
      ensures Valid() && fresh(Repr)
      ensures Contents == [] && size == 0 && data.Length == InitialCapacity
    {
      data := new Option<T>[InitialCapacity](_ => None);
      size := 0;
      Contents := [];
      Repr := {this, data};
    }

    /** Number of stored elements (not the capacity). */
    function Size(): (n: nat)
      reads this, Repr
      requires Valid()
      ensures n == |Contents|
    {
      size
    }

    /** Bounds-checked read; an index outside [0, size) is the out-of-range error. */
    method Get(index: int) returns (r: Result<T>)
      requires Valid()
      ensures r.Ok? <==> 0 <= index < |Contents|
      ensures r.Ok? ==> r.value == Contents[index]
    {
      if index < 0 || index >= size {
        return Err(IndexOutOfBounds);
      }
      r := Ok(data[index].value);
    }

    /** Bounds-checked write of one position; size and capacity never change. */
    method Set(index: int, value: T) returns (r: Outcome)
      requires Valid()
      modifies Repr
      ensures Valid() && Repr == old(Repr) && data == old(data)
      ensures r.Pass? <==> 0 <= index < |old(Contents)|
      ensures Contents == if r.Pass? then old(Contents)[index := value] else old(Contents)
    {
      if index < 0 || index >= size {
        return Fail(IndexOutOfBounds);
      }
      data[index] := Some(value);
      Contents := Contents[index := value];
      r := Pass;
    }

    /** Appends at the end, growing the backing array first when it is full. */
    method Add(value: T)
      requires Valid()
      modifies Repr
      ensures Valid() && fresh(Repr - old(Repr))
      ensures Contents == old(Contents) + [value]
      ensures data.Length == if old(size) == old(data.Length) then 2 * old(data.Length) else old(data.Length)
    {
      EnsureCapacity();
      data[size] := Some(value);
      size := size + 1;
      Contents := Contents + [value];
    }

    /** Removes position `index`, shifting every later element one place left.
        The backing array is kept, so capacity never shrinks. */
    method Remove(index: int) returns (r: Outcome)
      requires Valid()
      modifies Repr
      ensures Valid() && Repr == old(Repr) && data == old(data)
      ensures r.Pass? <==> 0 <= index < |old(Contents)|
      ensures Contents == if r.Pass? then old(Contents)[..index] + old(Contents)[index + 1..] else old(Contents)
    {
      if index < 0 || index >= size {
        return Fail(IndexOutOfBounds);
      }
      ghost var before := Contents;
      var i := index;
      while i < size - 1
        invariant data == old(data) && size == old(size) && Contents == before && Repr == old(Repr)
        invariant index <= i <= size - 1
        invariant forall j | 0 <= j < index :: data[j] == Some(before[j])
        invariant forall j | index <= j < i :: data[j] == Some(before[j + 1])
        invariant forall j | i <= j < size :: data[j] == Some(before[j])
      {
        data[i] := data[i + 1];
        i := i + 1;
      }
      size := size - 1;
      Contents := before[..index] + before[index + 1..];
      r := Pass;
    }

    /** When `size == data.Length`, replaces `data` by a fresh array of twice the
        length holding the same first `size` slots; otherwise does nothing. */
    method EnsureCapacity()
      requires Valid()
      modifies this
      ensures Valid() && Contents == old(Contents) && size == old(size)
      ensures fresh(Repr - old(Repr))
      ensures size < data.Length
      ensures old(size) < old(data.Length) ==> data == old(data)
      ensures old(size) == old(data.Length) ==> fresh(data) && data.Length == 2 * old(data.Length)
    {
      if size < data.Length {
        return;
      }
      var newData := new Option<T>[data.Length * 2](_ => None);
      var i := 0;
      while i < size
        invariant data == old(data) && size == old(size) && Contents == old(Contents) && Repr == old(Repr)
        invariant 0 <= i <= size
        invariant forall j | 0 <= j < i :: newData[j] == data[j]
      {
        newData[i] := data[i];
        i := i + 1;
      }
      data := newData;
      Repr := {this, data};
    }
  }
}
