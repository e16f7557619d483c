/** The concrete inputs and outputs the library's behaviour is pinned down by,
    stated as lemmas over the contract, together with the small element
    functions they use. */
module SequenceExamples {
  import opened Wrappers
  import opened SequenceContract
  import ImmutableSequences
  import ArraySequences

  /** Squares are never negative and do not depend on the sign. */
  function Square(x: int): (r: int)
    ensures r >= 0 && r == (-x) * (-x)
  {
    x * x
  }

  function IsPositive(x: int): (b: bool)
    ensures b <==> x >= 1
  {
    x > 0
  }

  /** Addition is commutative and Subtract undoes it. */
  function Add(a: int, b: int): (r: int)
    ensures r - b == a && r - a == b
  {
    a + b
  }

  /** Doubling gives an even number that halving takes back. */
  function Multiply2(x: int): (r: int)
    ensures IsEven(r) && r / 2 == x
  {
    x * 2
  }

  /** No number is both negative and positive. */
  function IsNegative(x: int): (b: bool)
    ensures b <==> x <= -1
    ensures b ==> !IsPositive(x)
  {
    x < 0
  }

  function Subtract(a: int, b: int): (r: int)
    ensures Add(r, b) == a
  {
    a - b
  }

  /** The remainder test agrees with halving and doubling back, also for
      negative numbers. */
  function IsEven(x: int): (b: bool)
    ensures b <==> x / 2 * 2 == x
  {
    x % 2 == 0
  }

  /** The elements of `DoubleSequence(x)`, as FlatMap consumes them. */
  function Doubled(x: int): seq<int> { ImmutableSequences.DoubleSequence(x).items }

  /** The lambda that gives an empty sequence for every element. */
  function NoElements(x: int): (r: seq<int>)
    ensures |r| == 0
  {
    []
  }

  lemma MapExamples()
    ensures Map([1, 2, 3], Square) == [1, 4, 9]
    ensures Map([-2, -1, 0, 1, 2], Multiply2) == [-4, -2, 0, 2, 4]
  {
    var m := Map([1, 2, 3], Square);
    assert m[0] == 1 && m[1] == 4 && m[2] == 9;
    var m2 := Map([-2, -1, 0, 1, 2], Multiply2);
    assert m2[0] == -4 && m2[1] == -2 && m2[2] == 0 && m2[3] == 2 && m2[4] == 4;
  }

  lemma WhereExamples()
    ensures Where([-1, 2, -3, 4], IsPositive) == [2, 4]
    ensures Where([-2, -1, 0, 1, 2], IsNegative) == [-2, -1]
  {
    assert Where([4], IsPositive) == [4] by { assert [4][1..] == []; }
    assert Where([-3, 4], IsPositive) == [4] by { assert [-3, 4][1..] == [4]; }
    assert Where([2, -3, 4], IsPositive) == [2, 4] by { assert [2, -3, 4][1..] == [-3, 4]; }
    assert [-1, 2, -3, 4][1..] == [2, -3, 4];
    WhereAppend([-2, -1], [0, 1, 2], IsNegative);
    assert [-2, -1] + [0, 1, 2] == [-2, -1, 0, 1, 2];
    WhereExtremes([-2, -1], IsNegative);
    WhereExtremes([0, 1, 2], IsNegative);
  }

  lemma ReduceExamples()
    ensures Reduce([1, 2, 3], Add, 0) == 6
    ensures Reduce([-2, -1, 0, 1, 2], Subtract, 0) == 0 - (-2) - (-1) - 0 - 1 - 2
  {
    ReduceSnoc([], 1, Add, 0);
    ReduceSnoc([1], 2, Add, 0);
    ReduceSnoc([1, 2], 3, Add, 0);
    assert [] + [-2] == [-2] && [-2] + [-1] == [-2, -1] && [-2, -1] + [0] == [-2, -1, 0];
    assert [-2, -1, 0] + [1] == [-2, -1, 0, 1] && [-2, -1, 0, 1] + [2] == [-2, -1, 0, 1, 2];
    ReduceSnoc([], -2, Subtract, 0);
    ReduceSnoc([-2], -1, Subtract, 0);
    ReduceSnoc([-2, -1], 0, Subtract, 0);
    ReduceSnoc([-2, -1, 0], 1, Subtract, 0);
    ReduceSnoc([-2, -1, 0, 1], 2, Subtract, 0);
  }

  lemma FlatMapExamples()
    ensures FlatMap([1, 2], Doubled) == [1, 1, 2, 2]
    ensures FlatMap([1], NoElements) == []
    ensures FlatMap([1], ArraySequences.Copies) == [1]
  {
    assert Doubled(1) == [1, 1] && Doubled(2) == [2, 2];
    assert FlatMap([2], Doubled) == [2, 2] by { assert [2][1..] == []; }
    assert [1, 2][1..] == [2];
    var c := ArraySequences.Copies(1);
    assert c == [1];
    assert [1][1..] == [];
  }

  lemma FindExamples()
    ensures Find([1, 2, 3, 4], IsEven) == Some(2)
    ensures Find([1, 3, 5], IsEven) == None
    ensures Find([], IsEven) == None
  {
    assert [1, 2, 3, 4][1..] == [2, 3, 4];
    assert !IsEven(1) && !IsEven(3) && !IsEven(5);
  }

  /** One step of Split: the head goes to the half its predicate value selects. */
  lemma SplitCons(x: int, s: seq<int>, p: int -> bool)
    ensures Split([x] + s, p) == if p(x) then ([x] + Split(s, p).0, Split(s, p).1)
                                 else (Split(s, p).0, [x] + Split(s, p).1)
  {
    assert ([x] + s)[1..] == s;
  }

  lemma SplitExamples()
    ensures Split([1, 2, 3, 4], IsEven) == ([2, 4], [1, 3])
  {
    SplitCons(4, [], IsEven);
    assert [4] + [] == [4];
    assert Split([4], IsEven) == ([4], []);
    SplitCons(3, [4], IsEven);
    assert [3] + [4] == [3, 4] && [3] + [] == [3];
    assert Split([3, 4], IsEven) == ([4], [3]);
    SplitCons(2, [3, 4], IsEven);
    assert [2] + [3, 4] == [2, 3, 4] && [2] + [4] == [2, 4];
    assert Split([2, 3, 4], IsEven) == ([2, 4], [3]);
    SplitCons(1, [2, 3, 4], IsEven);
    assert [1] + [2, 3, 4] == [1, 2, 3, 4] && [1] + [3] == [1, 3];
  }

  lemma SplitEdgeExamples()
    ensures Split([], IsEven) == ([], [])
    ensures Split([2, 4, 6], IsEven) == ([2, 4, 6], [])
  {
    SplitCons(6, [], IsEven);
    assert [6] + [] == [6];
    SplitCons(4, [6], IsEven);
    assert [4] + [6] == [4, 6];
    SplitCons(2, [4, 6], IsEven);
    assert [2] + [4, 6] == [2, 4, 6];
  }

  lemma SliceExamples()
    ensures Slice([1, 2, 3, 4, 5], 1, 2, None) == Ok([1, 4, 5])
    ensures Slice([1, 2, 3, 4, 5], -2, 1, None) == Ok([1, 2, 3, 5])
    ensures Slice([1, 2, 3, 4, 5], -1, 1, None) == Ok([1, 2, 3, 4])
    ensures Slice([1, 2, 3, 4, 5], 3, 10, None) == Ok([1, 2, 3])
    ensures Slice([1, 2, 3, 4, 5], 1, 2, Some([10, 20])) == Ok([1, 10, 20, 4, 5])
    ensures Slice([1, 2, 3, 4, 5], 10, 1, None) == Err(IndexOutOfRange)
    ensures Slice([1, 2, 3, 4, 5], -10, 1, None) == Err(IndexOutOfRange)
  {
    var s := [1, 2, 3, 4, 5];
    assert s[..1] + [] + s[3..] == [1, 4, 5];
    assert s[..3] + [] + s[4..] == [1, 2, 3, 5];
    assert s[..4] + [] + s[5..] == [1, 2, 3, 4];
    assert s[..3] + [] + s[5..] == [1, 2, 3];
    assert s[..1] + [10, 20] + s[3..] == [1, 10, 20, 4, 5];
  }

  lemma GetSubsequenceExamples()
    ensures GetSubsequence([1, 2, 3, 4, 5], 1, 3) == Ok([2, 3, 4])
    ensures GetSubsequence([1, 2, 3, 4, 5], -1, 2) == Err(IndexOutOfRange)
    ensures GetSubsequence([1, 2, 3, 4, 5], 3, 2) == Err(IndexOutOfRange)
    ensures GetSubsequence([1, 2, 3, 4, 5], 0, 5) == Err(IndexOutOfRange)
  {
    assert [1, 2, 3, 4, 5][1..4] == [2, 3, 4];
  }
}
