/** The immutable Sequence: the represented value never changes after
    construction.  The in-place mutators are rejected outright, and the
    `*New` forms return a new, independent sequence instead.  Being a value,
    the receiver of every operation is unchanged by construction. */
module ImmutableSequences {
  import opened Wrappers
  import SequenceContract

  datatype ImmutableSequence<T> = ImmutableSequence(items: seq<T>) {

    /** `Append` on an immutable sequence always fails with InvalidOperation. */
    function Append(item: T): (r: Outcome)
      ensures r == Fail(InvalidOperation)
    {
      Fail(InvalidOperation)
    }

    /** `Prepend` on an immutable sequence always fails with InvalidOperation. */
    function Prepend(item: T): (r: Outcome)
      ensures r == Fail(InvalidOperation)
    {
      Fail(InvalidOperation)
    }

    /** `InsertAt` fails with InvalidOperation whatever the index, valid or not. */
    function InsertAt(item: T, index: int): (r: Outcome)
      ensures r == Fail(InvalidOperation)
    {
      Fail(InvalidOperation)
    }

    /** `AppendNew(item)`: a new sequence one longer, with `item` last and the
        receiver's elements before it. */
    function AppendNew(item: T): (r: ImmutableSequence<T>)
      ensures |r.items| == |items| + 1
      ensures r.items[|items|] == item
      ensures forall k :: 0 <= k < |items| ==> r.items[k] == items[k]
    {
      ImmutableSequence(items + [item])
    }

    /** `PrependNew(item)`: a new sequence one longer, with `item` at index 0
        and the receiver's elements after it. */
    function PrependNew(item: T): (r: ImmutableSequence<T>)
      ensures |r.items| == |items| + 1
      ensures r.items[0] == item
      ensures forall k :: 0 <= k < |items| ==> r.items[k + 1] == items[k]
    {
      ImmutableSequence([item] + items)
    }
  }

  /** The `*New` forms produce exactly what the matching in-place mutation
      of a mutable sequence makes of the same contents: insertion at the end
      and at index 0, which never fail. */
  lemma NewFormsAreInsertions<T>(s: ImmutableSequence<T>, item: T)
    ensures SequenceContract.Insert(s.items, item, |s.items|) == Ok(s.AppendNew(item).items)
    ensures SequenceContract.Insert(s.items, item, 0) == Ok(s.PrependNew(item).items)
  {
    SequenceContract.InsertAtEnds(s.items, item);
  }

  /** The flat-map helper that doubles an element by two AppendNew calls on
      an empty immutable sequence. */
  function DoubleSequence(x: int): (r: ImmutableSequence<int>)
    ensures r.items == [x, x]
  {
    ImmutableSequence([]).AppendNew(x).AppendNew(x)
  }

  /** The immutability cases: every in-place mutator is refused, the `*New`
      forms give a longer sequence with the new element at the right end. */
  lemma ImmutabilityExamples()
    ensures ImmutableSequence([1, 2, 3]).Append(4) == Fail(InvalidOperation)
    ensures ImmutableSequence([1, 2, 3]).Prepend(0) == Fail(InvalidOperation)
    ensures ImmutableSequence([1, 2, 3]).InsertAt(4, 1) == Fail(InvalidOperation)
    ensures ImmutableSequence([1, 2, 3]).AppendNew(4).items == [1, 2, 3, 4]
    ensures ImmutableSequence([1, 2, 3]).PrependNew(0).items == [0, 1, 2, 3]
  {
  }
}
