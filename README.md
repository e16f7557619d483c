# Sequence library — a Dafny model

This project models a generic ordered-collection library built around one
abstract **Sequence** contract. The contract has two storage strategies
(a growable array or a linked list) and two mutability models. In the mutable
model `Append`, `Prepend` and `InsertAt` change the receiver in place. In the
immutable model they are refused with InvalidOperation, and `AppendNew` and
`PrependNew` return a new sequence instead. On top of the contract sit the derived operations
`GetSubsequence`, `Slice`, `Map`, `Where`, `Reduce`, `FlatMap`, `Find` and
`Split`, and the free combinators `Zip` and `Unzip`.

The model follows tests/Tests.cpp: the `MockSequence` accessors at lines
20-41 and the assertions of the tests. Exceptions become
values: the error taxonomy is the datatype `Wrappers.Error`, fallible
operations return `Result`/`Outcome`, and the non-raising lookups return
`Option`.

Files and modules:

- `wrappers.dfy` (`Wrappers`): `Error`, `Option` (with `GetValue`, which
  fails with InvalidArgument on None), `Result`, `Outcome`.
- `sequence.dfy` (`SequenceContract`): the contract stated once over a
  sequence's contents as `seq<T>`. It holds the accessors, the shared
  insertion shape `Insert`, and the derived operations with their lemmas.
- `pairs.dfy` (`SequencePairOperations`): `Zip`, `Unzip` and the two
  round-trip lemmas.
- `array_sequence.dfy` (`ArraySequences`): the mutable class
  `ArraySequence`, a buffer `data` with a `size`. `Reserve` grows the buffer
  by a copy loop; it has no counterpart in the contract. It keeps the
  contents and the size and leaves room for at least one more element. `InsertAt` shifts elements up by a loop
  and is proved equal to the contract's `Insert` of the old contents. `Append`
  and `Prepend` state their new contents as `old(Contents()) + [item]` and
  `[item] + old(Contents())`. The read methods, `GetSubsequence` and `Slice`
  are proved equal to the contract function of the same name applied to
  `Contents()`.
- `immutable_sequence.dfy` (`ImmutableSequences`): the immutable variant as
  the datatype `ImmutableSequence`. Its in-place mutators always fail with
  InvalidOperation.
- `examples.dfy` (`SequenceExamples`): the concrete inputs and outputs the
  test suite asserts, proved about the contract functions.

Derived operations behave the same on every variant. `Map`, `Where`,
`Reduce`, `FlatMap`, `Find` and `Split` are therefore stated once, as the
`SequenceContract` functions. For an `ImmutableSequence` they apply to
`items`. For an `ArraySequence` they apply, in specifications, to the ghost
`Contents()`. `ArraySequence` also carries `GetSubsequence` and
`Slice` as methods. They return a fresh sequence and, having no `modifies`
clause, leave the receiver unchanged.

## Model

| member | source | states |
|---|---|---|
| `Wrappers.Option.GetValue` | tests/Tests.cpp:84-91 | the value of a Some; on None it fails with InvalidArgument |
| `Wrappers.Option.IsSome` | tests/Tests.cpp:86 | true exactly when the option holds a value |
| `Wrappers.Option.IsNone` | tests/Tests.cpp:89 | true exactly when IsSome is false |
| `SequenceContract.Get` | tests/Tests.cpp:20 | Ok with s[i] exactly when 0 <= i < n; otherwise IndexOutOfRange, including i = -1 and i = n |
| `SequenceContract.TryGet` | tests/Tests.cpp:29-32 | Some(s[i]) exactly when 0 <= i < n, None otherwise |
| `SequenceContract.GetFirst` | tests/Tests.cpp:21-24 | Ok(s[0]) when non-empty; EmptySequence on an empty sequence |
| `SequenceContract.GetLast` | tests/Tests.cpp:25-28 | Ok(s[n-1]) when non-empty; EmptySequence on an empty sequence |
| `SequenceContract.TryGetFirst` | tests/Tests.cpp:33-36 | Some(s[0]) when non-empty, None on an empty sequence |
| `SequenceContract.TryGetLast` | tests/Tests.cpp:37-40 | Some(s[n-1]) when non-empty, None on an empty sequence |
| `SequenceContract.GetLength` | tests/Tests.cpp:41 | the number of elements of the contents |
| `SequenceContract.TryGetAgreesWithGet` | tests/Tests.cpp:204-216 | TryGet is Some exactly where Get succeeds, with the same element, and None exactly where Get fails with IndexOutOfRange; the same for first and last; TryGetFirst/TryGetLast are TryGet at 0 and n-1 |
| `SequenceContract.Insert` | tests/Tests.cpp:133-136 | fails with IndexOutOfRange unless 0 <= i <= n; otherwise length n+1, the item at i, the elements before i in place and those from i on moved one up |
| `SequenceContract.InsertAtEnds` | tests/Tests.cpp:127-132 | insertion at n is appending the item last, and insertion at 0 is prepending it; neither can fail |
| `SequenceContract.GetSubsequence` | tests/Tests.cpp:834-849 | IndexOutOfRange exactly when start < 0, end >= n or start > end; otherwise length end-start+1 with element k equal to s[start+k] |
| `SequenceContract.Slice` | tests/Tests.cpp:687-708 | a negative start is resolved to n+start; IndexOutOfRange exactly when the resolved start b is outside [0, n); otherwise removed = min(count, n-b), and the result is s[..b], then the replacement, then s[b+removed..], with length n - removed + m |
| `SequenceContract.SliceRestoresRemoved` | tests/Tests.cpp:520-537 | splicing back exactly the removed elements as the replacement gives the input back |
| `SequenceContract.SliceInserts` | tests/Tests.cpp:520-537 | removing nothing and splicing in one element is an insertion at the resolved start |
| `SequenceContract.Map` | tests/Tests.cpp:223-232 | same length, and result[i] == f(s[i]) for every i |
| `SequenceContract.MapAppend` | tests/Tests.cpp:664-672 | mapping a concatenation is the concatenation of the mapped parts |
| `SequenceContract.Where` | tests/Tests.cpp:234-242 | no longer than the input; every kept element satisfies p and occurs in the input; every input element satisfying p is kept |
| `SequenceContract.WhereAppend` | tests/Tests.cpp:674-679 | filtering a concatenation filters each part in turn, so the kept elements stay in source order |
| `SequenceContract.WhereExtremes` | tests/Tests.cpp:747-754 | when every element satisfies p nothing is dropped; when none does the result is empty |
| `SequenceContract.Reduce` | tests/Tests.cpp:244-249 | the fold of an empty sequence is the initial value; the left-fold order is stated in ReduceSnoc and ReduceCons |
| `SequenceContract.ReduceEmpty` | tests/Tests.cpp:244-249 | the fold of an empty sequence is the initial value, for any f |
| `SequenceContract.ReduceSnoc` | tests/Tests.cpp:681-683 | left fold: folding s + [x] combines the fold of s with x |
| `SequenceContract.ReduceCons` | tests/Tests.cpp:244-249 | left fold from the front: the first element is combined with the initial value before all others |
| `SequenceContract.FlatMap` | tests/Tests.cpp:710-720 | when f gives an empty sequence for every element, the result is empty |
| `SequenceContract.FlatMapAppend` | tests/Tests.cpp:338-348 | flat-mapping a concatenation concatenates the flat-maps of the parts, so the per-element results appear in source order |
| `SequenceContract.FlatMapSingle` | tests/Tests.cpp:338-348 | one element contributes its block f(x) exactly as f gives it; with FlatMapAppend this makes FlatMap the in-order concatenation of the blocks f(e) |
| `SequenceContract.FlatMapLength` | tests/Tests.cpp:405-415 | the result's length is the sum of the lengths of f(e) over all elements |
| `SequenceContract.FlatMapSingleton` | tests/Tests.cpp:722-731 | flat-mapping with the one-element function gives back the input |
| `SequenceContract.Find` | tests/Tests.cpp:350-361 | Some exactly when some element satisfies p; then its value is the element at the lowest index satisfying p |
| `SequenceContract.FindIsFirstOfWhere` | tests/Tests.cpp:417-428 | Find is the first element of Where, and None when Where is empty |
| `SequenceContract.Split` | tests/Tests.cpp:363-377 | the lengths of the two halves sum to n |
| `SequenceContract.SplitIsPartition` | tests/Tests.cpp:430-444 | the first half is Where(p) and the second Where(not p), both in source order; together they hold each input element exactly as often as the input does |
| `SequencePairOperations.Zip` | tests/Tests.cpp:471-484 | length min(len a, len b), truncating the longer input, and result[i] == (a[i], b[i]) |
| `SequencePairOperations.Unzip` | tests/Tests.cpp:379-393 | both outputs have the input's length and hold the first and second components, in order |
| `SequencePairOperations.UnzipZip` | tests/Tests.cpp:782-809 | for inputs of equal length, Unzip(Zip(a, b)) == (a, b) |
| `SequencePairOperations.ZipUnzip` | tests/Tests.cpp:379-393 | the converse law of UnzipZip: zipping the two outputs of Unzip gives back the pairs |
| `SequencePairOperations.PairExamples` | tests/Tests.cpp:139-495 | the asserted cases: [1,2,3] with [4,5,6], truncation to length 2, two empty inputs giving an empty result, Unzip of an empty and of a two-pair input |
| `ArraySequences.ArraySequence.Empty` | tests/Tests.cpp:617-621 | a new empty sequence with a buffer of its own |
| `ArraySequences.ArraySequence.FromItems` | tests/Tests.cpp:115-118 | a new sequence holding the given elements in order |
| `ArraySequences.ArraySequence.Copy` | tests/Tests.cpp:818-823 | a new sequence with the same elements in a freshly allocated buffer |
| `ArraySequences.ArraySequence.Get` | tests/Tests.cpp:115-123 | the contract's Get of the contents |
| `ArraySequences.ArraySequence.TryGet` | tests/Tests.cpp:626-627 | the contract's TryGet of the contents |
| `ArraySequences.ArraySequence.GetFirst` | tests/Tests.cpp:622-624 | the contract's GetFirst of the contents |
| `ArraySequences.ArraySequence.GetLast` | tests/Tests.cpp:624 | the contract's GetLast of the contents |
| `ArraySequences.ArraySequence.TryGetFirst` | tests/Tests.cpp:628 | the contract's TryGetFirst of the contents |
| `ArraySequences.ArraySequence.TryGetLast` | tests/Tests.cpp:629 | the contract's TryGetLast of the contents |
| `ArraySequences.ArraySequence.GetLength` | tests/Tests.cpp:118 | the number of elements |
| `ArraySequences.ArraySequence.Reserve` | tests/Tests.cpp:125-128 | growing the buffer keeps the elements and the length, and leaves room for one more |
| `ArraySequences.ArraySequence.InsertAt` | tests/Tests.cpp:133-136 | for 0 <= i <= n the new contents are the contract's Insert of the old; otherwise IndexOutOfRange with the object and its buffer unchanged |
| `ArraySequences.ArraySequence.Append` | tests/Tests.cpp:125-129 | the new contents are the old with the item added last |
| `ArraySequences.ArraySequence.Prepend` | tests/Tests.cpp:130-132 | the new contents are the item followed by the old contents |
| `ArraySequences.ArraySequence.GetSubsequence` | tests/Tests.cpp:834-849 | fails exactly when the contract's GetSubsequence fails, with IndexOutOfRange; otherwise a fresh sequence holding its result; the receiver is unchanged |
| `ArraySequences.ArraySequence.Slice` | tests/Tests.cpp:498-537 | fails exactly when the contract's Slice fails, with IndexOutOfRange; otherwise a fresh sequence holding its result; the receiver is unchanged |
| `ArraySequences.Copies` | tests/Tests.cpp:722-728 | x elements, each equal to x, and none when x <= 0 |
| `ArraySequences.RepeatSelf` | tests/Tests.cpp:722-728 | the Append loop yields `Copies(x)`: x copies of x, or an empty sequence when x <= 0 |
| `ArraySequences.CopyIsIndependent` | tests/Tests.cpp:812-831 | after appending to the original, the original holds the items followed by the new one (n+1 elements), while its copy still holds exactly the items (n elements) |
| `ArraySequences.MutationScenario` | tests/Tests.cpp:125-137 | Append 1, Prepend 0, then InsertAt(2, 1) on an empty sequence gives [0, 2, 1]; InsertAt(3, 4) then fails with IndexOutOfRange |
| `ImmutableSequences.ImmutableSequence.Append` | tests/Tests.cpp:282 | always fails with InvalidOperation, whatever the item |
| `ImmutableSequences.ImmutableSequence.Prepend` | tests/Tests.cpp:283 | always fails with InvalidOperation, whatever the item |
| `ImmutableSequences.ImmutableSequence.InsertAt` | tests/Tests.cpp:284 | always fails with InvalidOperation, whatever the item and index |
| `ImmutableSequences.ImmutableSequence.AppendNew` | tests/Tests.cpp:287-291 | a new sequence of length n+1 with the item last and the receiver's elements before it |
| `ImmutableSequences.ImmutableSequence.PrependNew` | tests/Tests.cpp:774-778 | a new sequence of length n+1 with the item at index 0 and the receiver's elements after it |
| `ImmutableSequences.NewFormsAreInsertions` | tests/Tests.cpp:758-779 | AppendNew and PrependNew yield exactly the contents the mutable Append and Prepend produce, namely Insert at n and at 0 |
| `ImmutableSequences.DoubleSequence` | tests/Tests.cpp:319-322 | two AppendNew calls on an empty immutable sequence give [x, x] |
| `ImmutableSequences.ImmutabilityExamples` | tests/Tests.cpp:758-779 | the asserted cases: the three mutators refused on [1,2,3], AppendNew(4) giving [1,2,3,4], and PrependNew(0) giving [0,1,2,3] |
| `SequenceExamples.Square` | tests/Tests.cpp:219 | never negative, and the same for x and -x |
| `SequenceExamples.IsPositive` | tests/Tests.cpp:220 | true exactly for x >= 1 |
| `SequenceExamples.Add` | tests/Tests.cpp:221 | subtracting either operand gives back the other |
| `SequenceExamples.Multiply2` | tests/Tests.cpp:660 | an even result that halving maps back to x |
| `SequenceExamples.IsNegative` | tests/Tests.cpp:661 | true exactly for x <= -1, and never together with IsPositive |
| `SequenceExamples.Subtract` | tests/Tests.cpp:662 | adding b back to the result gives a |
| `SequenceExamples.IsEven` | tests/Tests.cpp:324-326 | true exactly when halving and doubling back gives x, negative x included |
| `SequenceExamples.NoElements` | tests/Tests.cpp:715-717 | the empty sequence, for every element |
| `SequenceExamples.MapExamples` | tests/Tests.cpp:223-672 | squaring [1,2,3] gives [1,4,9]; doubling [-2..2] gives [-4,-2,0,2,4] |
| `SequenceExamples.WhereExamples` | tests/Tests.cpp:234-679 | the positives of [-1,2,-3,4] are [2,4]; the negatives of [-2..2] are [-2,-1] |
| `SequenceExamples.ReduceExamples` | tests/Tests.cpp:244-683 | summing [1,2,3] from 0 gives 6; subtracting over [-2..2] from 0 gives 0-(-2)-(-1)-0-1-2 |
| `SequenceExamples.FlatMapExamples` | tests/Tests.cpp:338-728 | doubling each of [1,2] with DoubleSequence gives [1,1,2,2]; a function giving empty sequences gives an empty result; flat-mapping [1] with x copies of x gives [1] |
| `SequenceExamples.FindExamples` | tests/Tests.cpp:350-361 | the first even of [1,2,3,4] is 2; [1,3,5] and the empty sequence give None |
| `SequenceExamples.SplitCons` | tests/Tests.cpp:363-377 | a proof step for SplitExamples and SplitEdgeExamples: in one Split step, the head goes to the half its predicate value selects |
| `SequenceExamples.SplitExamples` | tests/Tests.cpp:363-377 | splitting [1,2,3,4] by evenness gives ([2,4], [1,3]) |
| `SequenceExamples.SplitEdgeExamples` | tests/Tests.cpp:740-754 | the empty sequence splits into two empty halves; [2,4,6] splits into ([2,4,6], []) |
| `SequenceExamples.SliceExamples` | tests/Tests.cpp:498-537 | the asserted slices of [1..5]: (1,2) gives [1,4,5]; (-2,1) gives [1,2,3,5]; (-1,1) gives [1,2,3,4]; (3,10) gives [1,2,3]; (1,2,[10,20]) gives [1,10,20,4,5]; (10,1) and (-10,1) fail |
| `SequenceExamples.GetSubsequenceExamples` | tests/Tests.cpp:839-848 | (1,3) on [1..5] gives [2,3,4]; (-1,2), (3,2) and (0,5) fail with IndexOutOfRange |

## Left out

- ListSequence and ImmutableListSequence: the linked-node storage is not modelled. Both list classes show the same behaviour as the array classes, so `ArraySequence` and `ImmutableSequence` stand for them. Walking and splicing nodes is therefore not modelled.
- DynamicArray and LinkedList internals: their headers are not part of this model. `ArraySequence` uses its own growable buffer in their place.
- InvalidSize: constructors take a `seq<T>`, whose length cannot be negative. The raw-array constructor's rejection of a negative size (tests/Tests.cpp:101) therefore has no counterpart.
- `SequenceContract.Slice`: the count is a `nat`. No test calls Slice with a negative count, so that case is not modelled.
- `SequenceContract.Split`: its own ensures states only the length sum. The partition and order facts are stated and proved in `SplitIsPartition`.
- `SequenceContract.FlatMap`: its own ensures states only the all-empty case. That each block f(e) appears unchanged is stated in `FlatMapSingle`, the order of the blocks in `FlatMapAppend`, and the length in `FlatMapLength`.
- Derived operations on `ArraySequence` other than `GetSubsequence` and `Slice` are not separate methods. Specifications apply the contract functions to the ghost `Contents()`.
- `InsertAtNew`: no test calls it, so it is not modelled.
- `ImmutableSequence.InsertAt`: it is refused whatever the index. Every test call passes an in-range index (tests/Tests.cpp:284, 308, 765), so refusing an out-of-range index too is a modelling choice.
- Exceptions' messages and `what()`, the gtest harness and `main`, and the `MockSequence` stub methods that return `nullptr` or `initial` are not modelled, since none of them is sequence behaviour.
- Heap ownership and `delete` of returned sequences: results are values or freshly allocated objects.
- C++ `int` overflow in the element functions (`square`, `multiply2`) and `std::string` specifics are not modelled. Elements are Dafny `int`s or a generic `T`, and function pointers are Dafny function values.
