/** The mutable Sequence: its identity is its storage, and Append, Prepend
    and InsertAt change that storage in place.  The storage is a growable
    buffer: the first `size` slots of `data` hold the elements in order. */
module ArraySequences {
  import opened Wrappers
  import SequenceContract

  class ArraySequence<T> {
    var data: array<T>
    var size: nat

    ghost predicate Valid()
      reads this
    {
      size <= data.Length
    }

    /** The elements, in index order. */
    ghost function Contents(): seq<T>
      reads this, data
      requires Valid()
    {
      data[..size]
    }

    /** The empty sequence. */
    constructor Empty()
      ensures Valid() && fresh(data)
      ensures Contents() == []
    {
      data := new T[0];
      size := 0;
    }

    /** A sequence holding the given elements, in order. */
    constructor FromItems(items: seq<T>)
      ensures Valid() && fresh(data)
      ensures Contents() == items
    {
      data := new T[|items|](i requires 0 <= i < |items| => items[i]);
      size := |items|;
    }

    /** Copy construction: the same elements in a buffer of its own, so that
        later changes to either sequence are not seen by the other. */
    constructor Copy(other: ArraySequence<T>)
      requires other.Valid()
      ensures Valid() && fresh(data)
      ensures Contents() == other.Contents()
    {
      var items := other.data[..other.size];
      data := new T[|items|](i requires 0 <= i < |items| => items[i]);
      size := |items|;
    }

    // -------------------------------------------------------------------
    // Reads: each is the contract's accessor applied to the contents
    // -------------------------------------------------------------------

    method Get(index: int) returns (r: Result<T>)
      requires Valid()
      ensures r == SequenceContract.Get(Contents(), index)
    {
      if index < 0 || index >= size {
        r := Err(IndexOutOfRange);
      } else {
        r := Ok(data[index]);
      }
    }

    method TryGet(index: int) returns (r: Option<T>)
      requires Valid()
      ensures r == SequenceContract.TryGet(Contents(), index)
    {
      if index < 0 || index >= size {
        r := None;
      } else {
        r := Some(data[index]);
      }
    }

    method GetFirst() returns (r: Result<T>)
      requires Valid()
      ensures r == SequenceContract.GetFirst(Contents())
    {
      if size == 0 {
        r := Err(EmptySequence);
      } else {
        r := Ok(data[0]);
      }
    }

    method GetLast() returns (r: Result<T>)
      requires Valid()
      ensures r == SequenceContract.GetLast(Contents())
    {
      if size == 0 {
        r := Err(EmptySequence);
      } else {
        r := Ok(data[size - 1]);
      }
    }

    method TryGetFirst() returns (r: Option<T>)
      requires Valid()
      ensures r == SequenceContract.TryGetFirst(Contents())
    {
      if size == 0 {
        r := None;
      } else {
        r := Some(data[0]);
      }
    }

    method TryGetLast() returns (r: Option<T>)
      requires Valid()
      ensures r == SequenceContract.TryGetLast(Contents())
    {
      if size == 0 {
        r := None;
      } else {
        r := Some(data[size - 1]);
      }
    }

    method GetLength() returns (n: nat)
      requires Valid()
      ensures n == SequenceContract.GetLength(Contents()) && n == |Contents()|
    {
      n := size;
    }

    // -------------------------------------------------------------------
    // In-place mutators
    // -------------------------------------------------------------------

    /** Makes room for one more element, moving the elements to a larger
        buffer (whose spare slots hold `filler`) when the current one is full. */
    method Reserve(filler: T)
      requires Valid()
      modifies this
      ensures Valid() && size == old(size) && size < data.Length
      ensures Contents() == old(Contents())
      ensures data == old(data) || fresh(data)
    {
      if size == data.Length {
        var bigger := new T[2 * data.Length + 1](_ => filler);
        var i := 0;
        while i < size
          invariant 0 <= i <= size
          invariant forall k :: 0 <= k < i ==> bigger[k] == data[k]
          modifies bigger
        {
          bigger[i] := data[i];
          i := i + 1;
        }
        assert bigger[..size] == data[..size];
        data := bigger;
      }
    }

    /** `InsertAt(item, index)`: afterwards `item` is at `index`, the elements
        before it are as they were and those from `index` on have moved one
        place up.  An index outside [0, n] fails with IndexOutOfRange before
        anything changes. */
    method InsertAt(item: T, index: int) returns (r: Outcome)
      requires Valid()
      modifies this, data
      ensures Valid()
      ensures data == old(data) || fresh(data)
      ensures r == if 0 <= index <= old(size) then Pass else Fail(IndexOutOfRange)
      ensures r.Pass? ==> Contents() == SequenceContract.Insert(old(Contents()), item, index).value
      ensures r.Fail? ==> unchanged(this) && unchanged(data)
    {
      if index < 0 || index > size {
        return Fail(IndexOutOfRange);
      }
      Reserve(item);
      ghost var s := Contents();
      var i := size;
      while i > index
        invariant index <= i <= size < data.Length
        invariant forall k :: 0 <= k < i ==> data[k] == s[k]
        invariant forall k :: i < k <= size ==> data[k] == s[k - 1]
        modifies data
      {
        data[i] := data[i - 1];
        i := i - 1;
      }
      data[index] := item;
      size := size + 1;
      ghost var ins := SequenceContract.Insert(s, item, index).value;
      assert Contents() == ins by {
        forall k | 0 <= k < size ensures Contents()[k] == ins[k] {
          if k > index { assert ins[k] == s[k - 1]; }
        }
      }
      r := Pass;
    }

    /** `Append(item)`: `item` becomes the last element. */
    method Append(item: T)
      requires Valid()
      modifies this, data
      ensures Valid()
      ensures data == old(data) || fresh(data)
      ensures Contents() == old(Contents()) + [item]
    {
      Reserve(item);
      data[size] := item;
      size := size + 1;
    }

    /** `Prepend(item)`: `item` becomes the element at index 0. */
    method Prepend(item: T)
      requires Valid()
      modifies this, data
      ensures Valid()
      ensures data == old(data) || fresh(data)
      ensures Contents() == [item] + old(Contents())
    {
      var r := InsertAt(item, 0);
      SequenceContract.InsertAtEnds(old(Contents()), item);
    }

    // -------------------------------------------------------------------
    // Operations that return a new sequence and leave this one unchanged
    // -------------------------------------------------------------------

    /** `GetSubsequence(start, end)`: a fresh sequence of the elements at
        start..end inclusive, or IndexOutOfRange. */
    method GetSubsequence(start: int, end: int) returns (r: Result<ArraySequence<T>>)
      requires Valid()
      ensures r.Ok? <==> SequenceContract.GetSubsequence(Contents(), start, end).Ok?
      ensures r.Err? ==> r.error == IndexOutOfRange
      ensures r.Ok? ==> fresh(r.value) && fresh(r.value.data) && r.value.Valid()
      ensures r.Ok? ==> r.value.Contents() == SequenceContract.GetSubsequence(Contents(), start, end).value
    {
      if start < 0 || end >= size || start > end {
        return Err(IndexOutOfRange);
      }
      var sub := new ArraySequence.FromItems(data[start..end + 1]);
      r := Ok(sub);
    }

    /** `Slice(start, count, replacement)`: a fresh sequence with up to `count`
        elements removed from the resolved start and `replacement` spliced in
        there; IndexOutOfRange when the resolved start is outside [0, n). */
    method Slice(start: int, count: nat, replacement: Option<seq<T>>) returns (r: Result<ArraySequence<T>>)
      requires Valid()
      ensures r.Ok? <==> SequenceContract.Slice(Contents(), start, count, replacement).Ok?
      ensures r.Err? ==> r.error == IndexOutOfRange
      ensures r.Ok? ==> fresh(r.value) && fresh(r.value.data) && r.value.Valid()
      ensures r.Ok? ==> r.value.Contents() == SequenceContract.Slice(Contents(), start, count, replacement).value
    {
      var sliced := SequenceContract.Slice(data[..size], start, count, replacement);
      if sliced.Err? {
        return Err(sliced.error);
      }
      var result := new ArraySequence.FromItems(sliced.value);
      r := Ok(result);
    }
  }

  /** `x` copies of `x`, and none when x <= 0. */
  function Copies(x: int): (r: seq<int>)
    ensures |r| == if x > 0 then x else 0
    ensures forall k :: 0 <= k < |r| ==> r[k] == x
  {
    seq(if x > 0 then x else 0, _ => x)
  }

  /** The flat-map helper that builds a sequence of `x` copies of `x` by
      repeated Append. */
  method RepeatSelf(x: int) returns (r: ArraySequence<int>)
    ensures fresh(r) && fresh(r.data) && r.Valid()
    ensures r.Contents() == Copies(x)
  {
    r := new ArraySequence.Empty();
    var i := 0;
    while i < x
      invariant fresh(r) && fresh(r.data) && r.Valid()
      invariant 0 <= i && (x > 0 ==> i <= x) && (x <= 0 ==> i == 0)
      invariant r.Contents() == seq(i, _ => x)
    {
      r.Append(x);
      i := i + 1;
    }
  }

  /** A copy is independent of its original: appending to the original
      changes neither the copy's length nor its elements. */
  method CopyIsIndependent<T>(items: seq<T>, extra: T)
    returns (originalLength: nat, copyLength: nat, originalContents: seq<T>, copyContents: seq<T>)
    ensures originalLength == |items| + 1
    ensures copyLength == |items|
    ensures originalContents == items + [extra]
    ensures copyContents == items
  {
    var original := new ArraySequence.FromItems(items);
    var copy := new ArraySequence.Copy(original);
    original.Append(extra);
    assert copy.Contents() == items;
    originalLength := original.GetLength();
    copyLength := copy.GetLength();
    originalContents := original.data[..original.size];
    copyContents := copy.data[..copy.size];
  }

  /** The sequence of mutations and failed accesses applied to a fresh,
      empty mutable sequence, with the outcomes they produce. */
  method MutationScenario() returns (contents: seq<int>, outOfRange: Outcome)
    ensures contents == [0, 2, 1]
    ensures outOfRange == Fail(IndexOutOfRange)
  {
    var s := new ArraySequence<int>.Empty();
    s.Append(1);
    s.Prepend(0);
    var ok := s.InsertAt(2, 1);
    assert s.Contents() == [0, 2, 1];
    outOfRange := s.InsertAt(3, 4);
    contents := s.data[..s.size];
  }
}
