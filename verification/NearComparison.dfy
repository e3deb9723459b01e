/** Whole near comparisons: what the result says, and that the two traversals agree. */
module NearComparison {
  import opened ErrorMeasure
  import opened ComparisonTally
  import opened NearComparator
  import opened RowMajor
  import opened Strides
  import opened IndexUtil
  import opened Options

  // ----- the result of a run -----

  /** No pair is out of bounds. */
  ghost predicate AllNear(c: Context, pairs: seq<Pair>)
    requires AllValid(pairs)
  {
    forall k | 0 <= k < |pairs| :: !pairs[k].Bad(c)
  }

  lemma {:induction false} CountTrueZero(flags: seq<bool>)
    ensures CountTrue(flags) == 0 <==> forall k | 0 <= k < |flags| :: !flags[k]
  {
    if flags != [] {
      CountTrueZero(flags[1..]);
      assert forall k | 1 <= k < |flags| :: flags[k] == flags[1..][k - 1];
    }
  }

  lemma NoneFlagged(c: Context, n: nat, pairs: seq<Pair>)
    requires Listed(pairs, n)
    ensures CountTrue(Flags(c, n, pairs)) == 0 <==> AllNear(c, pairs)
  {
    var flags := Flags(c, n, pairs);
    CountTrueZero(flags);
    forall i | 0 <= i < n ensures flags[i] <==> exists k :: 0 <= k < |pairs| && pairs[k].linearIndex == i && pairs[k].Bad(c) {
      FlagMeaning(c, n, pairs, i);
    }
    if k :| 0 <= k < |pairs| && pairs[k].Bad(c) {
      assert flags[pairs[k].linearIndex];
    }
  }

  /** With a float distance accepted, all finite parts are near; whatever else there is does not count. */
  ghost predicate FinitePartsNear(c: Context, pairs: seq<Pair>)
    requires AcceptsClose(c)
  {
    forall k | 0 <= k < |pairs| :: PairNear(c, pairs[k])
  }

  predicate PairNear(c: Context, pair: Pair)
    requires AcceptsClose(c)
  {
    match (pair.expected, pair.actual)
    case (Real(x), Real(y)) => FiniteNear(c, x, y)
    case (Complex(re, im), Complex(re', im')) => FiniteNear(c, re, re') && FiniteNear(c, im, im')
    case _ => false
  }

  lemma PairNearIff(c: Context, pair: Pair)
    requires AcceptsClose(c) && pair.Valid()
    ensures PairNear(c, pair) <==> !pair.Bad(c)
  {
    match pair.expected
    case Real(x) =>
      OnlyFiniteFlagged(c, x, pair.actual.value);
      assert pair.Bad(c) <==> pair.Outcomes(c)[0].Bad();
    case Complex(re, im) =>
      OnlyFiniteFlagged(c, re, pair.actual.re);
      OnlyFiniteFlagged(c, im, pair.actual.im);
      assert pair.Bad(c) <==> pair.Outcomes(c)[0].Bad() || pair.Outcomes(c)[1].Bad();
  }

  lemma OnlyFiniteCount(c: Context, pairs: seq<Pair>)
    requires AcceptsClose(c) && AllValid(pairs)
    ensures AllNear(c, pairs) <==> FinitePartsNear(c, pairs)
  {
    forall k | 0 <= k < |pairs| ensures PairNear(c, pairs[k]) <==> !pairs[k].Bad(c) {
      PairNearIff(c, pairs[k]);
    }
  }

  /** Bounds of 0, and values within 0 low-precision floats of each other. */
  const STRICT := Context(ErrorSpec(Amount(0.0), Amount(0.0), false, false, false, Some(0)), 1.0, (x, y) => 1)

  function Single(x: Float): Literal {
    Literal([1], [0], [None], [Real(x)])
  }

  /** Even then a NaN is near to 1. */
  lemma NanAccepted()
    ensures var expected, actual := Single(Finite(1.0, 0)), Single(NaN(0));
      Comparable(expected, actual) && AllNear(STRICT, PairsOf(expected, actual)) && PairsOf(expected, actual) != []
  {
    var expected, actual := Single(Finite(1.0, 0)), Single(NaN(0));
    ProductOne(1);
    assert Comparable(expected, actual);
    OnlyFiniteCount(STRICT, PairsOf(expected, actual));
  }

  lemma {:induction false} FlattenBuckets(c: Context, pairs: seq<Pair>)
    requires AllValid(pairs)
    ensures forall k | 0 <= k < |Flatten(c, pairs)| :: Flatten(c, pairs)[k].bucket < MAGNITUDE_BUCKETS
  {
    if pairs != [] {
      FlattenBuckets(c, pairs[..|pairs| - 1]);
    }
  }

  function SumTo(buckets: seq<nat>, n: nat): nat
    requires n <= |buckets|
  {
    if n == 0 then 0 else SumTo(buckets, n - 1) + buckets[n - 1]
  }

  lemma {:induction false} SumIsBucketSum(parts: seq<Outcome>, buckets: seq<nat>, failures: bool, n: nat)
    requires n <= |buckets|
    requires forall i | 0 <= i < n :: buckets[i] == Count(if failures then MismatchedInBucket(i) else InBucket(i), parts)
    ensures SumTo(buckets, n) == BucketSum(parts, failures, n)
  {
    if n > 0 {
      SumIsBucketSum(parts, buckets, failures, n - 1);
    }
  }

  /** The magnitude buckets of a comparator sum to the values compared, their failures to the part
      mismatches. */
  lemma BucketsSum(comparator: Comparator, pairs: seq<Pair>)
    requires Listed(pairs, |comparator.mismatches|) && comparator.Compared(pairs)
    ensures |comparator.absValueBuckets| == |comparator.absValueFailures| == MAGNITUDE_BUCKETS
    ensures SumTo(comparator.absValueBuckets, MAGNITUDE_BUCKETS) == |comparator.parts|
    ensures SumTo(comparator.absValueFailures, MAGNITUDE_BUCKETS) == Count(Mismatched, comparator.parts)
  {
    var parts := comparator.parts;
    FlattenBuckets(comparator.context, pairs);
    BucketsSplit(parts);
    SumIsBucketSum(parts, comparator.absValueBuckets, false, MAGNITUDE_BUCKETS);
    SumIsBucketSum(parts, comparator.absValueFailures, true, MAGNITUDE_BUCKETS);
  }

  // ----- the two traversals -----

  /** How often the comparisons of each pair are of the kind. */
  function Weights(c: Context, kind: Kind, pairs: seq<Pair>): (w: Dims)
    requires AllValid(pairs)
    ensures |w| == |pairs|
  {
    seq(|pairs|, k requires 0 <= k < |pairs| => Count(kind, pairs[k].Outcomes(c)))
  }

  lemma CountNext(kind: Kind, a: seq<Outcome>, o: seq<Outcome>, w: Dims)
    requires Count(kind, a) == Sum(w)
    ensures Count(kind, a + o) == Sum(w + [Count(kind, o)])
  {
    CountConcat(kind, a, o);
    SumConcat(w, [Count(kind, o)]);
    SumOne(Count(kind, o));
  }

  lemma WeightsSnoc(c: Context, kind: Kind, pairs: seq<Pair>)
    requires AllValid(pairs) && pairs != []
    ensures var n := |pairs| - 1; Weights(c, kind, pairs) == Weights(c, kind, pairs[..n]) + [Count(kind, pairs[n].Outcomes(c))]
  {
  }

  lemma {:induction false} CountIsSum(c: Context, kind: Kind, pairs: seq<Pair>)
    requires AllValid(pairs)
    ensures Count(kind, Flatten(c, pairs)) == Sum(Weights(c, kind, pairs))
  {
    if pairs != [] {
      var n := |pairs| - 1;
      CountIsSum(c, kind, pairs[..n]);
      WeightsSnoc(c, kind, pairs);
      CountNext(kind, Flatten(c, pairs[..n]), pairs[n].Outcomes(c), Weights(c, kind, pairs[..n]));
    }
  }

  /** The cell that the slow traversal visits at each step. */
  function VisitOrder(l: Literal): (p: seq<nat>)
    requires l.Valid() && l.IsStatic()
    ensures |p| == |l.data|
  {
    seq(|l.data|, n requires 0 <= n < |l.data| => VisitedCell(l, n))
  }

  function VisitedCell(l: Literal, n: nat): (k: nat)
    requires l.Valid() && n < |l.data|
    ensures k < |l.data|
  {
    ProductPositive(l.dimensions);
    OffsetUnoffset(l.dimensions, n);
    LinearDistinct(l.dimensions, l.minorToMajor, Unoffset(l.dimensions, n), Unoffset(l.dimensions, n));
    l.Linear(Unoffset(l.dimensions, n))
  }

  lemma VisitDistinct(l: Literal, j: nat, k: nat)
    requires l.Valid() && j < k < |l.data|
    ensures VisitedCell(l, j) != VisitedCell(l, k)
  {
    ProductPositive(l.dimensions);
    OffsetUnoffset(l.dimensions, j);
    OffsetUnoffset(l.dimensions, k);
    LinearDistinct(l.dimensions, l.minorToMajor, Unoffset(l.dimensions, j), Unoffset(l.dimensions, k));
  }

  /** On static shapes of one layout the slow traversal permutes the fast one. */
  lemma SlowPermutesFast(expected: Literal, actual: Literal)
    requires Comparable(expected, actual) && UsesFastPath(expected, actual)
    ensures IsPermutation(VisitOrder(actual), |actual.data|)
    ensures SlowPairs(expected, actual) == Apply(VisitOrder(actual), FastPairs(expected, actual))
  {
    forall j, k | 0 <= j < k < |actual.data| ensures VisitOrder(actual)[j] != VisitOrder(actual)[k] {
      VisitDistinct(actual, j, k);
    }
    assert expected.Sizes() == expected.dimensions;
    forall n | 0 <= n < |actual.data|
      ensures SlowPairs(expected, actual)[n] == Apply(VisitOrder(actual), FastPairs(expected, actual))[n]
    {
      assert SlowPair(expected, actual, n).linearIndex == VisitedCell(actual, n);
    }
  }

  lemma WeightsPermuted(c: Context, kind: Kind, pairs: seq<Pair>, p: seq<nat>)
    requires AllValid(pairs) && IsPermutation(p, |pairs|)
    ensures AllValid(Apply(p, pairs)) && Weights(c, kind, Apply(p, pairs)) == Apply(p, Weights(c, kind, pairs))
  {
  }

  /** Both traversals count the same of every kind. */
  lemma SameCounts(c: Context, kind: Kind, expected: Literal, actual: Literal)
    requires Comparable(expected, actual) && UsesFastPath(expected, actual)
    ensures AllValid(SlowPairs(expected, actual))
    ensures Count(kind, Flatten(c, SlowPairs(expected, actual))) == Count(kind, Flatten(c, FastPairs(expected, actual)))
  {
    var slow, fast, p := SlowPairs(expected, actual), FastPairs(expected, actual), VisitOrder(actual);
    SlowPermutesFast(expected, actual);
    CountIsSum(c, kind, slow);
    CountIsSum(c, kind, fast);
    WeightsPermuted(c, kind, fast, p);
    SumPermuted(p, Weights(c, kind, fast));
  }

  // ----- the kept relative errors are determined -----

  /** In a sorted list, an entry reaches a bound exactly if enough entries do. */
  lemma {:induction false} SortedCount(top: seq<Mismatch>, k: nat, x: Error)
    requires SortedByError(top) && k < |top|
    ensures AtLeast(top[k].relError, x) <==> CountAtLeast(top, x) >= |top| - k
  {
    if k == 0 {
      CountAtLeastBound(top, x);
      if AtLeast(top[0].relError, x) {
        forall j | 0 <= j < |top| ensures AtLeast(top[j].relError, x) {
          if j > 0 {
            assert AtLeast(top[j].relError, top[0].relError);
          }
        }
      }
    } else {
      SortedCount(top[1..], k - 1, x);
      if AtLeast(top[0].relError, x) {
        assert AtLeast(top[k].relError, top[0].relError);
      }
    }
  }

  /** Two comparators that met the same mismatches keep the same relative errors. */
  lemma SameTop(parts: seq<Outcome>, top: seq<Mismatch>, parts': seq<Outcome>, top': seq<Mismatch>)
    requires KeepsLargest(parts, top) && KeepsLargest(parts', top')
    requires Count(Mismatched, parts) == Count(Mismatched, parts')
    requires forall x: Error {:trigger Count(MismatchedAtLeast(x), parts)} ::
               Count(MismatchedAtLeast(x), parts) == Count(MismatchedAtLeast(x), parts')
    ensures |top| == |top'| && forall k | 0 <= k < |top| :: top[k].relError == top'[k].relError
  {
    forall k | 0 <= k < |top| ensures top[k].relError == top'[k].relError {
      var x, y := top[k].relError, top'[k].relError;
      SortedCount(top, k, x);
      SortedCount(top', k, x);
      SortedCount(top, k, y);
      SortedCount(top', k, y);
      assert CountAtLeast(top, x) == CountAtLeast(top', x) && CountAtLeast(top, y) == CountAtLeast(top', y);
    }
  }

  /** The slow traversal of two literals the fast one would take leaves the same counters, buckets,
      flags and kept relative errors. */
  lemma TraversalsAgree(expected: Literal, actual: Literal, fast: Comparator, slow: Comparator)
    requires Comparable(expected, actual) && UsesFastPath(expected, actual) && fast.context == slow.context
    requires Listed(FastPairs(expected, actual), |fast.mismatches|) && fast.Compared(FastPairs(expected, actual))
    requires Listed(SlowPairs(expected, actual), |slow.mismatches|) && slow.Compared(SlowPairs(expected, actual))
    requires |fast.mismatches| == |slow.mismatches| == |actual.data|
    ensures fast.mismatches == slow.mismatches && fast.numMismatches == slow.numMismatches
    ensures fast.numNanMismatches == slow.numNanMismatches
    ensures fast.numAbsMismatches == slow.numAbsMismatches && fast.numRelMismatches == slow.numRelMismatches
    ensures fast.absValueBuckets == slow.absValueBuckets && fast.absValueFailures == slow.absValueFailures
    ensures fast.absErrorBuckets == slow.absErrorBuckets && fast.relErrorBuckets == slow.relErrorBuckets
    ensures |fast.topRelMismatches| == |slow.topRelMismatches|
    ensures forall k | 0 <= k < |fast.topRelMismatches| :: fast.topRelMismatches[k].relError == slow.topRelMismatches[k].relError
  {
    var c := fast.context;
    forall kind {:trigger Count(kind, fast.parts)} ensures Count(kind, fast.parts) == Count(kind, slow.parts) {
      SameCounts(c, kind, expected, actual);
    }
    SameTop(fast.parts, fast.topRelMismatches, slow.parts, slow.topRelMismatches);
    SameFlags(c, expected, actual);
  }

  lemma SameFlags(c: Context, expected: Literal, actual: Literal)
    requires Comparable(expected, actual) && UsesFastPath(expected, actual)
    requires Listed(FastPairs(expected, actual), |actual.data|) && Listed(SlowPairs(expected, actual), |actual.data|)
    ensures Flags(c, |actual.data|, FastPairs(expected, actual)) == Flags(c, |actual.data|, SlowPairs(expected, actual))
  {
    SlowPermutesFast(expected, actual);
    FlagsPermuted(c, |actual.data|, FastPairs(expected, actual), VisitOrder(actual));
  }

  lemma FlagsPermuted(c: Context, n: nat, pairs: seq<Pair>, p: seq<nat>)
    requires |pairs| == n && Listed(pairs, n) && forall i | 0 <= i < n :: pairs[i].linearIndex == i
    requires IsPermutation(p, n) && Listed(Apply(p, pairs), n)
    ensures Flags(c, n, pairs) == Flags(c, n, Apply(p, pairs))
  {
    var moved := Apply(p, pairs);
    forall i | 0 <= i < n ensures Flags(c, n, pairs)[i] == Flags(c, n, moved)[i] {
      var k := PermutationOnto(p, n, i);
      assert moved[k] == pairs[i];
      FlagOf(c, n, pairs, i);
      FlagOf(c, n, moved, k);
    }
  }

  /** The flag at the position of a pair is that pair's. */
  lemma FlagOf(c: Context, n: nat, pairs: seq<Pair>, k: nat)
    requires Listed(pairs, n) && k < |pairs|
    ensures Flags(c, n, pairs)[pairs[k].linearIndex] == pairs[k].Bad(c)
  {
    FlagMeaning(c, n, pairs, pairs[k].linearIndex);
  }

  // ----- the comparison on the literals themselves -----

  /** No part of an actual element is out of the bounds around the expected one. */
  predicate ElementsNear(c: Context, expected: Element, actual: Element) {
    match (expected, actual)
    case (Real(x), Real(y)) => !IsMismatch(c, MeasureOf(c, x, y))
    case (Complex(re, im), Complex(re', im')) =>
      !IsMismatch(c, MeasureOf(c, re, re')) && !IsMismatch(c, MeasureOf(c, im, im'))
    case _ => false
  }

  lemma ElementsNearIff(c: Context, pair: Pair)
    requires pair.Valid()
    ensures ElementsNear(c, pair.expected, pair.actual) <==> !pair.Bad(c)
  {
    match pair.expected
    case Real(x) =>
      assert pair.Bad(c) <==> pair.Outcomes(c)[0].Bad();
    case Complex(re, im) =>
      assert pair.Bad(c) <==> pair.Outcomes(c)[0].Bad() || pair.Outcomes(c)[1].Bad();
  }

  /** Whether the elements at an index are near. */
  ghost predicate NearAt(c: Context, expected: Literal, actual: Literal, i: Dims)
    requires Comparable(expected, actual) && InBounds(i, expected.Sizes())
  {
    SizesWithin(expected, i);
    !PairAt(expected, actual, i).Bad(c)
  }

  lemma SlowMeaning(c: Context, expected: Literal, actual: Literal)
    requires Comparable(expected, actual)
    ensures Listed(SlowPairs(expected, actual), |actual.data|)
    ensures AllNear(c, SlowPairs(expected, actual)) <==> forall i | InBounds(i, expected.Sizes()) :: NearAt(c, expected, actual, i)
  {
    var b, s := expected.Sizes(), SlowPairs(expected, actual);
    SlowListed(expected, actual);
    ProductPositive(b);
    forall i | InBounds(i, b)
      ensures Offset(b, i) < |s| && (NearAt(c, expected, actual, i) <==> !s[Offset(b, i)].Bad(c))
    {
      OffsetBound(b, i);
      UnoffsetOffset(b, i);
      SizesWithin(expected, i);
    }
    forall n | 0 <= n < |s| ensures InBounds(Unoffset(b, n), b) && Offset(b, Unoffset(b, n)) == n {
      OffsetUnoffset(b, n);
    }
  }

  /** The fast traversal finds all near exactly if the slow one would. */
  lemma FastMeaning(c: Context, expected: Literal, actual: Literal)
    requires Comparable(expected, actual) && UsesFastPath(expected, actual)
    ensures Listed(SlowPairs(expected, actual), |actual.data|)
    ensures AllNear(c, FastPairs(expected, actual)) <==> AllNear(c, SlowPairs(expected, actual))
  {
    var p, slow, fast := VisitOrder(actual), SlowPairs(expected, actual), FastPairs(expected, actual);
    SlowListed(expected, actual);
    SlowPermutesFast(expected, actual);
    if AllNear(c, slow) {
      forall k | 0 <= k < |fast| ensures !fast[k].Bad(c) {
        var j := PermutationOnto(p, |fast|, k);
        assert slow[j] == fast[k];
      }
    }
  }

  lemma WithinSizes(l: Literal, i: Dims)
    requires l.Valid()
    ensures InBounds(i, l.Sizes())
            <==> InBounds(i, l.dimensions) && forall k | 0 <= k < |i| && l.dynamicSizes[k].Some? :: i[k] < l.dynamicSizes[k].value
  {
  }

  lemma NearAtMeaning(c: Context, expected: Literal, actual: Literal, i: Dims)
    requires Comparable(expected, actual) && InBounds(i, expected.Sizes())
    ensures var x := LinearOf(expected.dimensions, expected.minorToMajor, i);
      var y := LinearOf(actual.dimensions, actual.minorToMajor, i);
      && x < |expected.data| && y < |actual.data|
      && (NearAt(c, expected, actual, i) <==> ElementsNear(c, expected.data[x], actual.data[y]))
  {
    SizesWithin(expected, i);
    ElementsNearIff(c, PairAt(expected, actual, i));
  }

  /** All pairs are near exactly if the elements at every index within the expected literal's sizes are. */
  lemma NearMeaning(c: Context, expected: Literal, actual: Literal)
    requires Comparable(expected, actual) && Listed(PairsOf(expected, actual), |actual.data|)
    ensures AllNear(c, PairsOf(expected, actual)) <==>
            forall i {:trigger InBounds(i, expected.dimensions)} |
              && InBounds(i, expected.dimensions)
              && (forall k | 0 <= k < |i| && expected.dynamicSizes[k].Some? :: i[k] < expected.dynamicSizes[k].value) ::
              var x := LinearOf(expected.dimensions, expected.minorToMajor, i);
              var y := LinearOf(actual.dimensions, actual.minorToMajor, i);
              x < |expected.data| && y < |actual.data| && ElementsNear(c, expected.data[x], actual.data[y])
  {
    SlowMeaning(c, expected, actual);
    if UsesFastPath(expected, actual) {
      FastMeaning(c, expected, actual);
    }
    forall i ensures InBounds(i, expected.Sizes()) <==>
      && InBounds(i, expected.dimensions)
      && forall k | 0 <= k < |i| && expected.dynamicSizes[k].Some? :: i[k] < expected.dynamicSizes[k].value
    {
      WithinSizes(expected, i);
    }
    forall i | InBounds(i, expected.Sizes())
      ensures var x := LinearOf(expected.dimensions, expected.minorToMajor, i);
        var y := LinearOf(actual.dimensions, actual.minorToMajor, i);
        && x < |expected.data| && y < |actual.data|
        && (NearAt(c, expected, actual, i) <==> ElementsNear(c, expected.data[x], actual.data[y]))
    {
      NearAtMeaning(c, expected, actual, i);
    }
  }

  /** The flag at the position of an actual element says whether the elements there are not near. */
  lemma FlagAt(c: Context, expected: Literal, actual: Literal, i: Dims)
    requires Comparable(expected, actual) && Listed(PairsOf(expected, actual), |actual.data|) && InBounds(i, expected.Sizes())
    ensures var x := LinearOf(expected.dimensions, expected.minorToMajor, i);
      var y := LinearOf(actual.dimensions, actual.minorToMajor, i);
      && x < |expected.data| && y < |actual.data|
      && (Flags(c, |actual.data|, PairsOf(expected, actual))[y] <==> !ElementsNear(c, expected.data[x], actual.data[y]))
  {
    var b := expected.Sizes();
    NearAtMeaning(c, expected, actual, i);
    SizesWithin(expected, i);
    if UsesFastPath(expected, actual) {
      FlagOf(c, |actual.data|, FastPairs(expected, actual), LinearOf(actual.dimensions, actual.minorToMajor, i));
    } else {
      OffsetBound(b, i);
      UnoffsetOffset(b, i);
      FlagOf(c, |actual.data|, SlowPairs(expected, actual), Offset(b, i));
    }
  }

  lemma FlagsMeaning(c: Context, expected: Literal, actual: Literal)
    requires Comparable(expected, actual) && Listed(PairsOf(expected, actual), |actual.data|)
    ensures forall i {:trigger InBounds(i, expected.dimensions)} |
              && InBounds(i, expected.dimensions)
              && (forall k | 0 <= k < |i| && expected.dynamicSizes[k].Some? :: i[k] < expected.dynamicSizes[k].value) ::
              var x := LinearOf(expected.dimensions, expected.minorToMajor, i);
              var y := LinearOf(actual.dimensions, actual.minorToMajor, i);
              && x < |expected.data| && y < |actual.data|
              && (Flags(c, |actual.data|, PairsOf(expected, actual))[y] <==> !ElementsNear(c, expected.data[x], actual.data[y]))
  {
    forall i |
      && InBounds(i, expected.dimensions)
      && (forall k | 0 <= k < |i| && expected.dynamicSizes[k].Some? :: i[k] < expected.dynamicSizes[k].value)
      ensures var x := LinearOf(expected.dimensions, expected.minorToMajor, i);
        var y := LinearOf(actual.dimensions, actual.minorToMajor, i);
        && x < |expected.data| && y < |actual.data|
        && (Flags(c, |actual.data|, PairsOf(expected, actual))[y] <==> !ElementsNear(c, expected.data[x], actual.data[y]))
    {
      WithinSizes(expected, i);
      FlagAt(c, expected, actual, i);
    }
  }

  datatype Verdict = ShapeMismatch | Near | Mismatches

  /** Compares two literals; `comparator` then holds the counts of all pairs compared. */
  method Run(c: Context, expected: Literal, actual: Literal) returns (verdict: Verdict, comparator: Comparator)
    requires expected.Valid() && actual.Valid()
    ensures verdict == ShapeMismatch <==> !Comparable(expected, actual)
    ensures Comparable(expected, actual) ==>
              var pairs := PairsOf(expected, actual);
              && comparator.context == c && Listed(pairs, |comparator.mismatches|) && comparator.Compared(pairs)
              && (verdict == Near <==> AllNear(c, pairs))
              && (AcceptsClose(c) ==> (verdict == Near <==> FinitePartsNear(c, pairs)))
    ensures Comparable(expected, actual) ==>
              (verdict == Near <==>
               forall i {:trigger InBounds(i, expected.dimensions)} |
                 && InBounds(i, expected.dimensions)
                 && (forall k | 0 <= k < |i| && expected.dynamicSizes[k].Some? :: i[k] < expected.dynamicSizes[k].value) ::
                 var x := LinearOf(expected.dimensions, expected.minorToMajor, i);
                 var y := LinearOf(actual.dimensions, actual.minorToMajor, i);
                 x < |expected.data| && y < |actual.data| && ElementsNear(c, expected.data[x], actual.data[y]))
    ensures Comparable(expected, actual) ==>
              forall i {:trigger InBounds(i, expected.dimensions)} |
                && InBounds(i, expected.dimensions)
                && (forall k | 0 <= k < |i| && expected.dynamicSizes[k].Some? :: i[k] < expected.dynamicSizes[k].value) ::
                var x := LinearOf(expected.dimensions, expected.minorToMajor, i);
                var y := LinearOf(actual.dimensions, actual.minorToMajor, i);
                && x < |expected.data| && y < |actual.data| == |comparator.mismatches|
                && (comparator.mismatches[y] <==> !ElementsNear(c, expected.data[x], actual.data[y]))
  {
    comparator := new Comparator(c, |actual.data|);
    if !Comparable(expected, actual) {
      return ShapeMismatch, comparator;
    }
    CountTrueNone(|actual.data|);
    comparator.CompareLiterals(expected, actual);
    NoneFlagged(c, |comparator.mismatches|, PairsOf(expected, actual));
    if AcceptsClose(c) {
      OnlyFiniteCount(c, PairsOf(expected, actual));
    }
    NearMeaning(c, expected, actual);
    FlagsMeaning(c, expected, actual);
    verdict := if comparator.numMismatches == 0 then Near else Mismatches;
  }
}
