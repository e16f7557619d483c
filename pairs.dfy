/** The pairwise combinators, free operations that work on any two Sequences
    through the contract alone. */
module SequencePairOperations {

  /** `Zip(a, b)`: pairs elements at matching indices; the longer input is
      silently truncated, which is policy and not an error. */
  function Zip<A, B>(a: seq<A>, b: seq<B>): (r: seq<(A, B)>)
    ensures |r| == if |a| <= |b| then |a| else |b|
    ensures forall i :: 0 <= i < |r| ==> r[i] == (a[i], b[i])
  {
    if a == [] || b == [] then [] else [(a[0], b[0])] + Zip(a[1..], b[1..])
  }

  /** `Unzip(s)`: the first and the second projection of every pair, each of
      the input's length; an empty input gives two empty sequences. */
  function Unzip<A, B>(s: seq<(A, B)>): (r: (seq<A>, seq<B>))
    ensures |r.0| == |s| && |r.1| == |s|
    ensures forall i :: 0 <= i < |s| ==> r.0[i] == s[i].0 && r.1[i] == s[i].1
  {
    if s == [] then ([], [])
    else
      var rest := Unzip(s[1..]);
      ([s[0].0] + rest.0, [s[0].1] + rest.1)
  }

  /** Unzip undoes Zip when the inputs have the same length. */
  lemma {:induction false} UnzipZip<A, B>(a: seq<A>, b: seq<B>)
    requires |a| == |b|
    ensures Unzip(Zip(a, b)) == (a, b)
  {
    if a != [] {
      UnzipZip(a[1..], b[1..]);
      assert Zip(a, b) == [(a[0], b[0])] + Zip(a[1..], b[1..]);
      assert Zip(a, b)[1..] == Zip(a[1..], b[1..]);
      assert [a[0]] + a[1..] == a;
      assert [b[0]] + b[1..] == b;
    }
  }

  /** Zip undoes Unzip: zipping the two projections gives back the pairs. */
  lemma {:induction false} ZipUnzip<A, B>(s: seq<(A, B)>)
    ensures Zip(Unzip(s).0, Unzip(s).1) == s
  {
    if s != [] {
      ZipUnzip(s[1..]);
      var u := Unzip(s);
      assert u.0[1..] == Unzip(s[1..]).0;
      assert u.1[1..] == Unzip(s[1..]).1;
      assert [(s[0].0, s[0].1)] + s[1..] == s;
    }
  }

  /** The concrete cases: equal lengths, a shorter second input, two empty
      inputs, and an empty Unzip. */
  lemma PairExamples()
    ensures Zip([1, 2, 3], [4, 5, 6]) == [(1, 4), (2, 5), (3, 6)]
    ensures Zip([1, 2, 3], [4, 5]) == [(1, 4), (2, 5)]
    ensures Zip<int, int>([], []) == []
    ensures Unzip<int, string>([]) == ([], [])
    ensures Unzip([(1, "one"), (2, "two")]) == ([1, 2], ["one", "two"])
  {
    var z := Zip([1, 2, 3], [4, 5, 6]);
    assert z[0] == (1, 4) && z[1] == (2, 5) && z[2] == (3, 6);
    var z2 := Zip([1, 2, 3], [4, 5]);
    assert z2[0] == (1, 4) && z2[1] == (2, 5);
    var u := Unzip([(1, "one"), (2, "two")]);
    assert u.0[0] == 1 && u.0[1] == 2;
    assert u.1[0] == "one" && u.1[1] == "two";
    assert u.0 == [1, 2];
    assert u.1 == ["one", "two"];
  }
}
