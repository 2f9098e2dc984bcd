/**
 * The order-statistic median of a latency sample, as `np.median` computes it:
 * sort the sample, take the middle element, or the mean of the two middle
 * elements when the sample has even length.
 */
module SampleMedian {

  /** Every element is at most every later element. */
  predicate Sorted(s: seq<real>) {
    forall i, j :: 0 <= i < j < |s| ==> s[i] <= s[j]
  }

  /** A sorted sequence stays sorted with a lower bound of all its elements in front. */
  lemma PrependSorted(h: real, r: seq<real>)
    requires Sorted(r)
    requires forall k :: 0 <= k < |r| ==> h <= r[k]
    ensures Sorted([h] + r)
  {
  }

  /** Puts `x` into its place in the sorted sequence `s`. */
  function Insert(x: real, s: seq<real>): (r: seq<real>)
    requires Sorted(s)
    ensures Sorted(r)
    ensures multiset(r) == multiset(s) + multiset{x}
  {
    if s == [] || x <= s[0] then
      [x] + s
    else
      var rest := Insert(x, s[1..]);
      assert s == [s[0]] + s[1..];
      forall k | 0 <= k < |rest| ensures s[0] <= rest[k] {
        assert rest[k] in multiset(rest);
        assert rest[k] == x || rest[k] in s[1..];
      }
      PrependSorted(s[0], rest);
      assert multiset([s[0]] + rest) == multiset{s[0]} + multiset(rest);
      [s[0]] + rest
  }

  /** The sample in ascending order (insertion sort). */
  function Sort(s: seq<real>): (r: seq<real>)
    ensures Sorted(r)
    ensures multiset(r) == multiset(s)
  {
    if s == [] then
      []
    else
      assert s == [s[0]] + s[1..];
      Insert(s[0], Sort(s[1..]))
  }

  /** The first element of a sorted sequence is its least element. */
  lemma SortedHeadIsLeast(t: seq<real>, x: real)
    requires Sorted(t) && x in multiset(t)
    ensures t[0] <= x
  {
  }

  /** Two sorted sequences with the same elements (counting repetitions) are equal. */
  lemma {:induction false} SortedUnique(a: seq<real>, b: seq<real>)
    requires Sorted(a) && Sorted(b)
    requires multiset(a) == multiset(b)
    ensures a == b
  {
    assert |a| == |multiset(a)| == |multiset(b)| == |b|;
    if a != [] {
      SortedHeadIsLeast(a, b[0]);
      SortedHeadIsLeast(b, a[0]);
      assert a[0] == b[0];
      assert a == [a[0]] + a[1..] && b == [b[0]] + b[1..];
      assert multiset(a[1..]) == multiset(a) - multiset{a[0]};
      assert multiset(b[1..]) == multiset(b) - multiset{b[0]};
      SortedUnique(a[1..], b[1..]);
    }
  }

  /** Sorting only depends on which values occur how often, not on their order. */
  lemma SortPermutationInvariant(a: seq<real>, b: seq<real>)
    requires multiset(a) == multiset(b)
    ensures Sort(a) == Sort(b)
  {
    SortedUnique(Sort(a), Sort(b));
  }

  /** The middle element of a sorted sequence, or the mean of its two middle elements. */
  function MedianOfSorted(t: seq<real>): (m: real)
    requires Sorted(t) && |t| > 0
    ensures t[0] <= m <= t[|t| - 1]
  {
    var k := |t| / 2;
    if |t| % 2 == 1 then t[k] else (t[k - 1] + t[k]) / 2.0
  }

  /** Which side of a candidate median an observation lies strictly on. */
  datatype Side = Below | Above

  predicate Beyond(x: real, m: real, side: Side) {
    match side
    case Below => x < m
    case Above => x > m
  }

  /** How many observations of `s` lie strictly on `side` of `m`. */
  function Count(s: seq<real>, m: real, side: Side): (n: nat)
    ensures n <= |s|
  {
    if s == [] then 0 else (if Beyond(s[0], m, side) then 1 else 0) + Count(s[1..], m, side)
  }

  lemma {:induction false} CountConcat(a: seq<real>, b: seq<real>, m: real, side: Side)
    ensures Count(a + b, m, side) == Count(a, m, side) + Count(b, m, side)
  {
    if a == [] {
      assert a + b == b;
    } else {
      assert (a + b)[0] == a[0];
      assert (a + b)[1..] == a[1..] + b;
      CountConcat(a[1..], b, m, side);
    }
  }

  lemma {:induction false} CountNone(s: seq<real>, m: real, side: Side)
    requires forall k :: 0 <= k < |s| ==> !Beyond(s[k], m, side)
    ensures Count(s, m, side) == 0
  {
    if s != [] {
      CountNone(s[1..], m, side);
    }
  }

  /** Removing the observation at index `j` removes exactly its own contribution to the count. */
  lemma CountRemove(b: seq<real>, j: nat, m: real, side: Side)
    requires j < |b|
    ensures Count(b, m, side) == Count(b[..j] + b[j + 1..], m, side) + Count([b[j]], m, side)
  {
    assert b == b[..j] + [b[j]] + b[j + 1..];
    CountConcat(b[..j] + [b[j]], b[j + 1..], m, side);
    CountConcat(b[..j], [b[j]], m, side);
    CountConcat(b[..j], b[j + 1..], m, side);
  }

  lemma MultisetRemove(b: seq<real>, j: nat)
    requires j < |b|
    ensures multiset(b[..j] + b[j + 1..]) == multiset(b) - multiset{b[j]}
  {
    assert b == b[..j] + [b[j]] + b[j + 1..];
  }

  /** The count only depends on which values occur how often. */
  lemma {:induction false} CountPermutation(a: seq<real>, b: seq<real>, m: real, side: Side)
    requires multiset(a) == multiset(b)
    ensures Count(a, m, side) == Count(b, m, side)
  {
    if a != [] {
      assert a[0] in multiset(b);
      var j :| 0 <= j < |b| && b[j] == a[0];
      var rest := b[..j] + b[j + 1..];
      assert a == [a[0]] + a[1..];
      assert multiset(a[1..]) == multiset(a) - multiset{a[0]};
      MultisetRemove(b, j);
      CountPermutation(a[1..], rest, m, side);
      CountRemove(b, j, m, side);
    }
  }

  /** In a sorted sequence, at most half of the observations lie strictly below the middle value. */
  lemma SortedMedianSplitsBelow(t: seq<real>)
    requires Sorted(t) && |t| > 0
    ensures Count(t, MedianOfSorted(t), Below) <= |t| / 2
  {
    var m, k := MedianOfSorted(t), |t| / 2;
    var upper := t[k..];
    assert t == t[..k] + upper;
    forall i | 0 <= i < |upper|
      ensures !Beyond(upper[i], m, Below)
    {
      assert upper[i] == t[k + i] && t[k] <= t[k + i];
    }
    CountConcat(t[..k], upper, m, Below);
    CountNone(upper, m, Below);
  }

  /** In a sorted sequence, at most half of the observations lie strictly above the middle value. */
  lemma SortedMedianSplitsAbove(t: seq<real>)
    requires Sorted(t) && |t| > 0
    ensures Count(t, MedianOfSorted(t), Above) <= |t| / 2
  {
    var m, k := MedianOfSorted(t), |t| - |t| / 2;
    var lower := t[..k];
    assert t == lower + t[k..];
    forall i | 0 <= i < |lower|
      ensures !Beyond(lower[i], m, Above)
    {
      assert lower[i] == t[i] && t[i] <= t[k - 1];
    }
    CountConcat(lower, t[k..], m, Above);
    CountNone(lower, m, Above);
  }

  /**
   * The median of a non-empty sample (`np.median`): the middle value of the
   * sample in ascending order, or the mean of its two middle values. It also
   * splits the sample: at most half of it lies strictly below the median and
   * at most half strictly above (which fixes the value for odd length only).
   */
  function Median(s: seq<real>): (m: real)
    requires |s| > 0
    ensures forall t :: Sorted(t) && multiset(t) == multiset(s) && |t| == |s| ==> m == MedianOfSorted(t)
    ensures Count(s, m, Below) <= |s| / 2
    ensures Count(s, m, Above) <= |s| / 2
  {
    var t := Sort(s);
    assert |t| == |multiset(t)| == |multiset(s)| == |s|;
    assert forall u :: Sorted(u) && multiset(u) == multiset(s) && |u| == |s| ==> u == t by {
      forall u | Sorted(u) && multiset(u) == multiset(s) && |u| == |s| ensures u == t {
        SortedUnique(u, t);
      }
    }
    SortedMedianSplitsBelow(t);
    SortedMedianSplitsAbove(t);
    CountPermutation(t, s, MedianOfSorted(t), Below);
    CountPermutation(t, s, MedianOfSorted(t), Above);
    MedianOfSorted(t)
  }

  /** Reordering a sample does not change its median. */
  lemma MedianPermutationInvariant(a: seq<real>, b: seq<real>)
    requires |a| > 0 && multiset(a) == multiset(b)
    ensures |b| > 0 && Median(a) == Median(b)
  {
    assert |a| == |multiset(a)| == |multiset(b)| == |b|;
    SortPermutationInvariant(a, b);
  }

  /** The median of a one-element sample is that element. */
  lemma MedianSingleton(x: real)
    ensures Median([x]) == x
  {
  }

  /** The median is at least any lower bound of every observation. */
  lemma MedianAtLeast(s: seq<real>, lo: real)
    requires |s| > 0
    requires forall k :: 0 <= k < |s| ==> lo <= s[k]
    ensures lo <= Median(s)
  {
    var t := Sort(s);
    assert |t| == |multiset(t)| == |multiset(s)| == |s|;
    assert t[0] in multiset(s);
    assert t[0] in s;
  }

  /** The median is at most any upper bound of every observation. */
  lemma MedianAtMost(s: seq<real>, hi: real)
    requires |s| > 0
    requires forall k :: 0 <= k < |s| ==> s[k] <= hi
    ensures Median(s) <= hi
  {
    var t := Sort(s);
    assert |t| == |multiset(t)| == |multiset(s)| == |s|;
    assert t[|t| - 1] in multiset(s);
    assert t[|t| - 1] in s;
  }

  /** A sample whose observations are all equal has that value as its median. */
  lemma MedianOfConstant(s: seq<real>, c: real)
    requires |s| > 0
    requires forall k :: 0 <= k < |s| ==> s[k] == c
    ensures Median(s) == c
  {
    MedianAtLeast(s, c);
    MedianAtMost(s, c);
  }

  /** A sample of odd length has one of its own observations as its median. */
  lemma MedianOfOddIsObservation(s: seq<real>)
    requires |s| % 2 == 1
    ensures Median(s) in s
  {
    var t := Sort(s);
    assert |t| == |multiset(t)| == |multiset(s)| == |s|;
    assert t[|t| / 2] in multiset(s);
  }

  /** The median of any reordering of a sorted sequence is that sequence's middle value. */
  lemma MedianOfReordering(s: seq<real>, t: seq<real>)
    requires Sorted(t) && |t| > 0 && multiset(s) == multiset(t)
    ensures |s| > 0 && Median(s) == MedianOfSorted(t)
  {
    assert |s| == |multiset(s)| == |multiset(t)| == |t|;
    SortedUnique(Sort(s), t);
  }

  /** Any ordering of three observations `a <= b <= c` has median `b` (so `median([3, 1, 2]) = 2`). */
  lemma MedianOfThree(s: seq<real>, a: real, b: real, c: real)
    requires a <= b <= c && multiset(s) == multiset{a, b, c}
    ensures |s| == 3 && Median(s) == b
  {
    var t := [a, b, c];
    assert Sorted(t) && multiset(t) == multiset{a, b, c};
    MedianOfReordering(s, t);
  }

  /**
   * Any ordering of four observations `a <= b <= c <= d` has median `(b + c) / 2`,
   * the mean of the two middle ones (so `median([4, 1, 3, 2]) = 2.5`).
   */
  lemma MedianOfFour(s: seq<real>, a: real, b: real, c: real, d: real)
    requires a <= b <= c <= d && multiset(s) == multiset{a, b, c, d}
    ensures |s| == 4 && Median(s) == (b + c) / 2.0
  {
    var t := [a, b, c, d];
    assert Sorted(t) && multiset(t) == multiset{a, b, c, d};
    MedianOfReordering(s, t);
  }
}
