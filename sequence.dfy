/** The Sequence contract: the observable behaviour that every variant
    (mutable or immutable, array- or list-backed) shares, stated once over
    the variant's contents as a `seq<T>`.  Indices are C++ `int`s, so they
    are `int` here and may be negative. */
module SequenceContract {
  import opened Wrappers

  // ---------------------------------------------------------------------
  // Element access
  // ---------------------------------------------------------------------

  /** `Get(i)`: the element at index i, or IndexOutOfRange outside [0, n). */
  function Get<T>(s: seq<T>, i: int): (r: Result<T>)
    ensures r.Ok? <==> 0 <= i < |s|
    ensures r.Ok? ==> r.value == s[i]
    ensures r.Err? ==> r.error == IndexOutOfRange
  {
    if i < 0 || i >= |s| then Err(IndexOutOfRange) else Ok(s[i])
  }

  /** `TryGet(i)`: the non-raising form of Get. */
  function TryGet<T>(s: seq<T>, i: int): (r: Option<T>)
    ensures r.Some? <==> 0 <= i < |s|
    ensures r.Some? ==> r.value == s[i]
  {
    if i < 0 || i >= |s| then None else Some(s[i])
  }

  /** `GetFirst()`: the element at index 0, or EmptySequence. */
  function GetFirst<T>(s: seq<T>): (r: Result<T>)
    ensures r.Ok? <==> |s| > 0
    ensures r.Ok? ==> r.value == s[0]
    ensures r.Err? ==> r.error == EmptySequence
  {
    if |s| == 0 then Err(EmptySequence) else Ok(s[0])
  }

  /** `GetLast()`: the element at index n-1, or EmptySequence. */
  function GetLast<T>(s: seq<T>): (r: Result<T>)
    ensures r.Ok? <==> |s| > 0
    ensures r.Ok? ==> r.value == s[|s| - 1]
    ensures r.Err? ==> r.error == EmptySequence
  {
    if |s| == 0 then Err(EmptySequence) else Ok(s[|s| - 1])
  }

  function TryGetFirst<T>(s: seq<T>): (r: Option<T>)
    ensures r.Some? <==> |s| > 0
    ensures r.Some? ==> r.value == s[0]
  {
    if |s| == 0 then None else Some(s[0])
  }

  function TryGetLast<T>(s: seq<T>): (r: Option<T>)
    ensures r.Some? <==> |s| > 0
    ensures r.Some? ==> r.value == s[|s| - 1]
  {
    if |s| == 0 then None else Some(s[|s| - 1])
  }

  /** `GetLength()`: the number of elements. */
  function GetLength<T>(s: seq<T>): (n: nat)
    ensures n == |s|
  {
    |s|
  }

  /** The fallible and the non-raising accessors agree: TryGet is Some exactly
      where Get succeeds, with the same element, and None exactly where Get
      fails with IndexOutOfRange; likewise for the first and last element. */
  lemma TryGetAgreesWithGet<T>(s: seq<T>, i: int)
    ensures TryGet(s, i).Some? <==> Get(s, i).Ok?
    ensures TryGet(s, i).Some? ==> Get(s, i) == Ok(TryGet(s, i).value)
    ensures TryGet(s, i).None? ==> Get(s, i) == Err(IndexOutOfRange)
    ensures TryGetFirst(s).Some? <==> GetFirst(s).Ok?
    ensures TryGetFirst(s).Some? ==> GetFirst(s) == Ok(TryGetFirst(s).value)
    ensures TryGetLast(s).Some? <==> GetLast(s).Ok?
    ensures TryGetLast(s).Some? ==> GetLast(s) == Ok(TryGetLast(s).value)
    ensures TryGetFirst(s) == TryGet(s, 0)
    ensures TryGetLast(s) == TryGet(s, |s| - 1)
  {
  }

  // ---------------------------------------------------------------------
  // Insertion (the shape shared by the mutable mutators and the *New forms)
  // ---------------------------------------------------------------------

  /** The contents after inserting `item` so that it ends up at `index`;
      IndexOutOfRange unless 0 <= index <= n (index n appends). */
  function Insert<T>(s: seq<T>, item: T, index: int): (r: Result<seq<T>>)
    ensures r.Ok? <==> 0 <= index <= |s|
    ensures r.Err? ==> r.error == IndexOutOfRange
    ensures r.Ok? ==> |r.value| == |s| + 1 && r.value[index] == item
    ensures r.Ok? ==> forall k :: 0 <= k < index ==> r.value[k] == s[k]
    ensures r.Ok? ==> forall k :: index <= k < |s| ==> r.value[k + 1] == s[k]
  {
    if index < 0 || index > |s| then Err(IndexOutOfRange)
    else Ok(s[..index] + [item] + s[index..])
  }

  /** Append and Prepend are insertion at the two ends, and cannot fail. */
  lemma InsertAtEnds<T>(s: seq<T>, item: T)
    ensures Insert(s, item, |s|) == Ok(s + [item])
    ensures Insert(s, item, 0) == Ok([item] + s)
  {
    assert s[..|s|] + [item] + s[|s|..] == s + [item];
    assert s[..0] + [item] + s[0..] == [item] + s;
  }

  // ---------------------------------------------------------------------
  // Subsequences
  // ---------------------------------------------------------------------

  /** `GetSubsequence(start, end)`: the elements at start..end INCLUSIVE;
      IndexOutOfRange if start < 0, end >= n or start > end. */
  function GetSubsequence<T>(s: seq<T>, start: int, end: int): (r: Result<seq<T>>)
    ensures r.Ok? <==> 0 <= start <= end < |s|
    ensures r.Err? ==> r.error == IndexOutOfRange
    ensures r.Ok? ==> |r.value| == end - start + 1
    ensures r.Ok? ==> forall k :: 0 <= k < |r.value| ==> r.value[k] == s[start + k]
  {
    if start < 0 || end >= |s| || start > end then Err(IndexOutOfRange)
    else Ok(s[start..end + 1])
  }

  /** The start index Slice works from: a negative start counts from the end. */
  function ResolveStart(n: nat, start: int): int {
    if start < 0 then n + start else start
  }

  /** `Slice(start, count, replacement)`: removes up to `count` elements from
      the resolved start and splices in `replacement` (if given) at that
      position.  The resolved start must lie in [0, n); a count larger than
      what remains removes only what remains.  The receiver is a value and
      is never changed. */
  function Slice<T>(s: seq<T>, start: int, count: nat, replacement: Option<seq<T>>): (r: Result<seq<T>>)
    ensures var b := ResolveStart(|s|, start);
      r.Ok? <==> 0 <= b < |s|
    ensures r.Err? ==> r.error == IndexOutOfRange
    ensures r.Ok? ==>
      var b := ResolveStart(|s|, start);
      var removed := if count <= |s| - b then count else |s| - b;
      var ins := if replacement.Some? then replacement.value else [];
      && |r.value| == |s| - removed + |ins|
      && (forall k :: 0 <= k < b ==> r.value[k] == s[k])
      && (forall k :: 0 <= k < |ins| ==> r.value[b + k] == ins[k])
      && (forall k :: b + removed <= k < |s| ==> r.value[k - removed + |ins|] == s[k])
  {
    var b := ResolveStart(|s|, start);
    if b < 0 || b >= |s| then Err(IndexOutOfRange)
    else
      var removed := if count <= |s| - b then count else |s| - b;
      var ins := if replacement.Some? then replacement.value else [];
      Ok(s[..b] + ins + s[b + removed..])
  }

  /** Splicing back exactly the elements a Slice removes restores the input. */
  lemma SliceRestoresRemoved<T>(s: seq<T>, start: int, count: nat)
    requires 0 <= ResolveStart(|s|, start) < |s|
    ensures var b := ResolveStart(|s|, start);
      var removed := if count <= |s| - b then count else |s| - b;
      Slice(s, start, count, Some(s[b..b + removed])) == Ok(s)
  {
    var b := ResolveStart(|s|, start);
    var removed := if count <= |s| - b then count else |s| - b;
    assert s[..b] + s[b..b + removed] + s[b + removed..] == s;
  }

  /** A Slice that removes nothing and splices in one element is an insertion
      at the resolved start. */
  lemma SliceInserts<T>(s: seq<T>, start: int, item: T)
    requires 0 <= ResolveStart(|s|, start) < |s|
    ensures Slice(s, start, 0, Some([item])) == Insert(s, item, ResolveStart(|s|, start))
  {
    var b := ResolveStart(|s|, start);
    assert s[b + 0..] == s[b..];
  }

  // ---------------------------------------------------------------------
  // Map, Where, Reduce
  // ---------------------------------------------------------------------

  /** `Map(f)`: f applied to every element, in order. */
  function Map<T>(s: seq<T>, f: T -> T): (r: seq<T>)
    ensures |r| == |s|
    ensures forall i :: 0 <= i < |s| ==> r[i] == f(s[i])
  {
    if s == [] then [] else [f(s[0])] + Map(s[1..], f)
  }

  /** Map works element by element: mapping a concatenation maps each part. */
  lemma {:induction false} MapAppend<T>(a: seq<T>, b: seq<T>, f: T -> T)
    ensures Map(a + b, f) == Map(a, f) + Map(b, f)
  {
    if a == [] {
      assert a + b == b;
    } else {
      assert (a + b)[1..] == a[1..] + b;
      MapAppend(a[1..], b, f);
    }
  }

  /** `Where(p)`: the elements satisfying p, in their original order. */
  function Where<T>(s: seq<T>, p: T -> bool): (r: seq<T>)
    ensures |r| <= |s|
    ensures forall i :: 0 <= i < |r| ==> r[i] in s && p(r[i])
    ensures forall i :: 0 <= i < |s| && p(s[i]) ==> s[i] in r
  {
    if s == [] then []
    else if p(s[0]) then [s[0]] + Where(s[1..], p)
    else Where(s[1..], p)
  }

  /** `Reduce(f, initial)`: the left fold f(...f(f(initial, s0), s1)..., s(n-1)). */
  function Reduce<T>(s: seq<T>, f: (T, T) -> T, initial: T): (r: T)
    ensures s == [] ==> r == initial
    decreases |s|
  {
    if s == [] then initial else f(Reduce(s[..|s| - 1], f, initial), s[|s| - 1])
  }

  /** Where is order-preserving: filtering a concatenation filters each part. */
  lemma {:induction false} WhereAppend<T>(a: seq<T>, b: seq<T>, p: T -> bool)
    ensures Where(a + b, p) == Where(a, p) + Where(b, p)
  {
    if a == [] {
      assert a + b == b;
    } else {
      assert (a + b)[1..] == a[1..] + b;
      WhereAppend(a[1..], b, p);
    }
  }

  /** Where keeps everything when every element passes, and nothing when none does. */
  lemma {:induction false} WhereExtremes<T>(s: seq<T>, p: T -> bool)
    ensures (forall i :: 0 <= i < |s| ==> p(s[i])) ==> Where(s, p) == s
    ensures (forall i :: 0 <= i < |s| ==> !p(s[i])) ==> Where(s, p) == []
  {
    if s != [] {
      WhereExtremes(s[1..], p);
      if forall i :: 0 <= i < |s| ==> p(s[i]) {
        assert forall i :: 0 <= i < |s[1..]| ==> p(s[1..][i]) by {
          forall i | 0 <= i < |s[1..]| ensures p(s[1..][i]) { assert s[1..][i] == s[i + 1]; }
        }
        assert Where(s, p) == [s[0]] + s[1..];
      }
      if forall i :: 0 <= i < |s| ==> !p(s[i]) {
        assert forall i :: 0 <= i < |s[1..]| ==> !p(s[1..][i]) by {
          forall i | 0 <= i < |s[1..]| ensures !p(s[1..][i]) { assert s[1..][i] == s[i + 1]; }
        }
      }
    }
  }

  /** Reduce on an empty sequence returns `initial`, for any f. */
  lemma ReduceEmpty<T>(f: (T, T) -> T, initial: T)
    ensures Reduce([], f, initial) == initial
  {
  }

  /** Reduce is a left fold: folding a longer sequence folds the prefix first
      and then combines the accumulated value with the last element. */
  lemma ReduceSnoc<T>(s: seq<T>, x: T, f: (T, T) -> T, initial: T)
    ensures Reduce(s + [x], f, initial) == f(Reduce(s, f, initial), x)
  {
    assert (s + [x])[..|s + [x]| - 1] == s;
  }

  /** The left fold, seen from the front: the first element is combined with
      `initial` before anything else. */
  lemma {:induction false} ReduceCons<T>(x: T, s: seq<T>, f: (T, T) -> T, initial: T)
    ensures Reduce([x] + s, f, initial) == Reduce(s, f, f(initial, x))
    decreases |s|
  {
    if s == [] {
      assert [x] + s == [x];
      assert [x][..0] == [];
    } else {
      var s' := s[..|s| - 1];
      var last := s[|s| - 1];
      assert s == s' + [last];
      assert [x] + s == ([x] + s') + [last];
      ReduceSnoc([x] + s', last, f, initial);
      ReduceCons(x, s', f, initial);
      ReduceSnoc(s', last, f, f(initial, x));
    }
  }

  // ---------------------------------------------------------------------
  // FlatMap, Find, Split
  // ---------------------------------------------------------------------

  /** `FlatMap(f)`: the sequences f(e) for every element e, concatenated in order. */
  function FlatMap<T>(s: seq<T>, f: T -> seq<T>): (r: seq<T>)
    ensures (forall i :: 0 <= i < |s| ==> f(s[i]) == []) ==> r == []
  {
    if s == [] then [] else f(s[0]) + FlatMap(s[1..], f)
  }

  /** FlatMap distributes over concatenation of its input. */
  lemma {:induction false} FlatMapAppend<T>(a: seq<T>, b: seq<T>, f: T -> seq<T>)
    ensures FlatMap(a + b, f) == FlatMap(a, f) + FlatMap(b, f)
  {
    if a == [] {
      assert a + b == b;
    } else {
      assert (a + b)[1..] == a[1..] + b;
      FlatMapAppend(a[1..], b, f);
    }
  }

  /** A single element contributes its block f(x) unchanged.  With
      FlatMapAppend this determines FlatMap on every input: the blocks f(e),
      each as f gives it, concatenated in source order. */
  lemma FlatMapSingle<T>(x: T, f: T -> seq<T>)
    ensures FlatMap([x], f) == f(x)
  {
    assert [x][1..] == [];
  }

  /** The total of the lengths of f(e) over the elements e. */
  function TotalLength<T>(s: seq<T>, f: T -> seq<T>): nat {
    if s == [] then 0 else |f(s[0])| + TotalLength(s[1..], f)
  }

  lemma {:induction false} FlatMapLength<T>(s: seq<T>, f: T -> seq<T>)
    ensures |FlatMap(s, f)| == TotalLength(s, f)
  {
    if s != [] { FlatMapLength(s[1..], f); }
  }

  /** FlatMap with the singleton function gives back the input. */
  lemma {:induction false} FlatMapSingleton<T>(s: seq<T>)
    ensures FlatMap(s, x => [x]) == s
  {
    if s != [] {
      FlatMapSingleton(s[1..]);
      assert [s[0]] + s[1..] == s;
    }
  }

  /** `Find(p)`: the first element in index order that satisfies p, or None. */
  function Find<T>(s: seq<T>, p: T -> bool): (r: Option<T>)
    ensures r.Some? <==> exists i :: 0 <= i < |s| && p(s[i])
    ensures r.Some? ==> exists i :: 0 <= i < |s| && s[i] == r.value && p(s[i])
                                    && forall j :: 0 <= j < i ==> !p(s[j])
  {
    if s == [] then None
    else if p(s[0]) then Some(s[0])
    else
      var r := Find(s[1..], p);
      assert forall i :: 1 <= i < |s| ==> s[i] == s[1..][i - 1];
      assert r.Some? ==> exists i :: 1 <= i < |s| && s[i] == r.value && p(s[i])
                                     && forall j :: 0 <= j < i ==> !p(s[j]) by {
        if r.Some? {
          var i' :| 0 <= i' < |s[1..]| && s[1..][i'] == r.value && p(s[1..][i'])
                    && forall j :: 0 <= j < i' ==> !p(s[1..][j]);
          assert forall j :: 0 <= j < i' + 1 ==> !p(s[j]) by {
            forall j | 0 <= j < i' + 1 ensures !p(s[j]) {
              if j > 0 { assert s[j] == s[1..][j - 1]; }
            }
          }
        }
      }
      r
  }

  /** Find is the first element that Where keeps. */
  lemma {:induction false} FindIsFirstOfWhere<T>(s: seq<T>, p: T -> bool)
    ensures Find(s, p) == TryGetFirst(Where(s, p))
  {
    if s != [] && !p(s[0]) {
      FindIsFirstOfWhere(s[1..], p);
    }
  }

  /** `Split(p)`: the stable partition into the elements satisfying p and
      those that do not; each half keeps the original relative order. */
  function Split<T>(s: seq<T>, p: T -> bool): (r: (seq<T>, seq<T>))
    ensures |r.0| + |r.1| == |s|
  {
    if s == [] then ([], [])
    else
      var rest := Split(s[1..], p);
      if p(s[0]) then ([s[0]] + rest.0, rest.1) else (rest.0, [s[0]] + rest.1)
  }

  /** Split is exactly Where and its complement: the first half is Where(p),
      the second Where(not p), and together they hold every element of the
      input exactly as often as it occurs there. */
  lemma {:induction false} SplitIsPartition<T>(s: seq<T>, p: T -> bool)
    ensures Split(s, p).0 == Where(s, p)
    ensures Split(s, p).1 == Where(s, x => !p(x))
    ensures multiset(Split(s, p).0) + multiset(Split(s, p).1) == multiset(s)
  {
    if s != [] {
      SplitIsPartition(s[1..], p);
      assert s == [s[0]] + s[1..];
    }
  }
}
