/** The accumulator that compares two literals element by element within an error bound. */
module NearComparator {
  import opened Arithmetic
  import opened ErrorMeasure
  import opened ComparisonTally
  import opened RowMajor
  import opened IndexUtil
  import opened Options

  // Some invariants are conjunctions compared with `true`: the verifier then proves them as a whole, and
  // not conjunct by conjunct, at every place that establishes them.

  /** A real or a complex element. */
  datatype Element = Real(value: Float) | Complex(re: Float, im: Float)

  datatype Pair = Pair(expected: Element, actual: Element, linearIndex: nat) {
    predicate Valid() {
      expected.Real? == actual.Real?
    }

    /** The comparisons of real values this pair takes. */
    function Outcomes(c: Context): seq<Outcome>
      requires Valid()
    {
      if expected.Real? then [OutcomeOf(c, expected.value, actual.value, linearIndex)]
      else [OutcomeOf(c, expected.re, actual.re, linearIndex), OutcomeOf(c, expected.im, actual.im, linearIndex)]
    }

    /** Whether some part is out of bounds. */
    predicate Bad(c: Context)
      requires Valid()
    {
      exists k | 0 <= k < |Outcomes(c)| :: Outcomes(c)[k].Bad()
    }
  }

  /** An array literal; a dynamic dimension has its own current size. */
  datatype Literal = Literal(dimensions: Dims, minorToMajor: seq<nat>, dynamicSizes: seq<Option<nat>>, data: seq<Element>) {
    predicate Valid() {
      && IsPermutation(minorToMajor, |dimensions|) && |data| == Product(dimensions) && |dynamicSizes| == |dimensions|
      && forall k | 0 <= k < |dimensions| :: dynamicSizes[k].Some? ==> dynamicSizes[k].value <= dimensions[k]
    }

    predicate IsStatic() {
      forall k | 0 <= k < |dynamicSizes| :: dynamicSizes[k].None?
    }

    /** The sizes the comparison runs over. */
    function Sizes(): (b: Dims)
      requires |dynamicSizes| == |dimensions|
      ensures |b| == |dimensions|
    {
      seq(|dimensions|, k requires 0 <= k < |dimensions| =>
        if dynamicSizes[k].Some? then dynamicSizes[k].value else dimensions[k])
    }

    function Linear(i: Dims): nat
      requires Valid() && |i| == |dimensions|
    {
      LinearOf(dimensions, minorToMajor, i)
    }
  }

  /** Two literals of the same dimensions, both real or both complex. */
  predicate Comparable(expected: Literal, actual: Literal) {
    (&& expected.Valid() && actual.Valid() && expected.dimensions == actual.dimensions
     && forall j, k | 0 <= j < |expected.data| && 0 <= k < |actual.data| ::
          expected.data[j].Real? == actual.data[k].Real?) == true
  }

  lemma SizesWithin(l: Literal, i: Dims)
    requires l.Valid() && InBounds(i, l.Sizes())
    ensures InBounds(i, l.dimensions) && l.Linear(i) < |l.data|
  {
    LinearDistinct(l.dimensions, l.minorToMajor, i, i);
  }

  function PairAt(expected: Literal, actual: Literal, i: Dims): (p: Pair)
    requires Comparable(expected, actual) && InBounds(i, expected.dimensions)
    ensures p.Valid() && p.linearIndex < |actual.data|
  {
    LinearDistinct(expected.dimensions, expected.minorToMajor, i, i);
    LinearDistinct(actual.dimensions, actual.minorToMajor, i, i);
    Pair(expected.data[expected.Linear(i)], actual.data[actual.Linear(i)], actual.Linear(i))
  }

  /** The pairs of the slow traversal: all indices in logical row-major order. */
  function SlowPairs(expected: Literal, actual: Literal): (s: seq<Pair>)
    requires Comparable(expected, actual)
    ensures |s| == Product(expected.Sizes())
  {
    var b := expected.Sizes();
    seq(Product(b), n requires 0 <= n < Product(b) => SlowPair(expected, actual, n))
  }

  function SlowPair(expected: Literal, actual: Literal, n: nat): (p: Pair)
    requires Comparable(expected, actual) && n < Product(expected.Sizes())
    ensures p.Valid() && p.linearIndex < |actual.data|
  {
    var b := expected.Sizes();
    ProductPositive(b);
    OffsetUnoffset(b, n);
    SizesWithin(expected, Unoffset(b, n));
    PairAt(expected, actual, Unoffset(b, n))
  }

  /** The pairs of the fast traversal: all cells in memory order. */
  function FastPairs(expected: Literal, actual: Literal): (s: seq<Pair>)
    requires Comparable(expected, actual)
    ensures |s| == |actual.data| && AllValid(s)
  {
    seq(|actual.data|, i requires 0 <= i < |actual.data| => Pair(expected.data[i], actual.data[i], i))
  }

  lemma SlowListed(expected: Literal, actual: Literal)
    requires Comparable(expected, actual)
    ensures Listed(SlowPairs(expected, actual), |actual.data|)
  {
    var s, b := SlowPairs(expected, actual), expected.Sizes();
    forall j, k | 0 <= j < k < |s| ensures s[j].linearIndex != s[k].linearIndex {
      SlowDistinct(expected, actual, j, k);
    }
  }

  lemma SlowDistinct(expected: Literal, actual: Literal, j: nat, k: nat)
    requires Comparable(expected, actual) && j < k < Product(expected.Sizes())
    ensures SlowPair(expected, actual, j).linearIndex != SlowPair(expected, actual, k).linearIndex
  {
    var b := expected.Sizes();
    ProductPositive(b);
    OffsetUnoffset(b, j);
    OffsetUnoffset(b, k);
    SizesWithin(expected, Unoffset(b, j));
    SizesWithin(expected, Unoffset(b, k));
    LinearDistinct(actual.dimensions, actual.minorToMajor, Unoffset(b, j), Unoffset(b, k));
  }

  predicate UsesFastPath(expected: Literal, actual: Literal) {
    expected.minorToMajor == actual.minorToMajor && expected.IsStatic() && actual.IsStatic()
  }

  /** The pairs a comparison covers, in order. */
  function PairsOf(expected: Literal, actual: Literal): (s: seq<Pair>)
    requires Comparable(expected, actual)
  {
    if UsesFastPath(expected, actual) then FastPairs(expected, actual) else SlowPairs(expected, actual)
  }

  function CountTrue(flags: seq<bool>): nat {
    if flags == [] then 0 else One(flags[0]) + CountTrue(flags[1..])
  }

  lemma {:induction false} CountTrueUpdate(flags: seq<bool>, i: nat, b: bool)
    requires i < |flags|
    ensures CountTrue(flags[i := b]) + One(flags[i]) == CountTrue(flags) + One(b)
  {
    if i > 0 {
      CountTrueUpdate(flags[1..], i - 1, b);
      assert flags[i := b][1..] == flags[1..][i - 1 := b];
    } else {
      assert flags[0 := b][1..] == flags[1..];
    }
  }

  lemma {:induction false} CountTrueNone(n: nat)
    ensures CountTrue(seq(n, _ => false)) == 0
  {
    if n > 0 {
      CountTrueNone(n - 1);
      assert seq(n, _ => false)[1..] == seq(n - 1, _ => false);
    }
  }

  /** Every magnitude bucket counts its values and its failures. */
  ghost predicate BucketsTallied(ps: seq<Outcome>, values: seq<nat>, failures: seq<nat>) {
    (&& |values| == |failures| == MAGNITUDE_BUCKETS
     && (forall i | 0 <= i < MAGNITUDE_BUCKETS :: values[i] == Count(InBucket(i), ps))
     && (forall i | 0 <= i < MAGNITUDE_BUCKETS :: failures[i] == Count(MismatchedInBucket(i), ps))) == true
  }

  /** Every error bucket counts the recorded errors at or above its bound. */
  ghost predicate ErrorsTallied(ps: seq<Outcome>, numAbs: nat, numRel: nat, absErrors: seq<nat>, relErrors: seq<nat>) {
    (&& numAbs == Count(AbsMismatched, ps) && numRel == Count(RelMismatched, ps)
     && |absErrors| == |relErrors| == ERROR_BUCKETS
     && (forall i | 0 <= i < ERROR_BUCKETS :: absErrors[i] == Count(AbsErrorAtLeast(ErrorBound(i)), ps))
     && (forall i | 0 <= i < ERROR_BUCKETS :: relErrors[i] == Count(RelErrorAtLeast(ErrorBound(i)), ps))) == true
  }

  class Comparator {
    const context: Context
    var numMismatches: nat
    var numNanMismatches: nat
    var numAbsMismatches: nat
    var numRelMismatches: nat
    var absValueBuckets: seq<nat>
    var absValueFailures: seq<nat>
    var absErrorBuckets: seq<nat>
    var relErrorBuckets: seq<nat>
    var topRelMismatches: seq<Mismatch>
    var mismatches: seq<bool>
    ghost var parts: seq<Outcome> // every comparison of two real values so far

    /** The counters, buckets and the kept mismatches say what the comparisons so far come to. */
    ghost predicate Tallied()
      reads this
    {
      && numNanMismatches == Count(NanMismatched, parts)
      && BucketsTallied(parts, absValueBuckets, absValueFailures)
      && ErrorsTallied(parts, numAbsMismatches, numRelMismatches, absErrorBuckets, relErrorBuckets)
      && KeepsLargest(parts, topRelMismatches)
    }

    constructor (context: Context, elements: nat)
      ensures this.context == context && parts == [] && Tallied() && numMismatches == 0
      ensures mismatches == seq(elements, _ => false)
    {
      this.context := context;
      numMismatches, numNanMismatches, numAbsMismatches, numRelMismatches := 0, 0, 0, 0;
      absValueBuckets, absValueFailures := [0, 0, 0, 0, 0, 0], [0, 0, 0, 0, 0, 0];
      absErrorBuckets, relErrorBuckets := [0, 0, 0, 0, 0], [0, 0, 0, 0, 0];
      topRelMismatches := [];
      mismatches := seq(elements, _ => false);
      parts := [];
    }

    /** Counts the value in the bucket of its magnitude. */
    method UpdateAbsValueBucket(value: Float, isMismatch: bool)
      requires |absValueBuckets| == |absValueFailures| == MAGNITUDE_BUCKETS
      modifies `absValueBuckets, `absValueFailures
      ensures var i := BucketOf(value);
        && absValueBuckets == old(absValueBuckets)[i := old(absValueBuckets)[i] + 1]
        && absValueFailures == old(absValueFailures)[i := old(absValueFailures)[i] + One(isMismatch)]
    {
      for i := 0 to |absValueBuckets|
        invariant i <= BucketOf(value)
        invariant absValueBuckets == old(absValueBuckets) && absValueFailures == old(absValueFailures)
      {
        if i == |absValueBuckets| - 1 || InMagnitude(value, i) {
          absValueBuckets := absValueBuckets[i := absValueBuckets[i] + 1];
          if isMismatch {
            absValueFailures := absValueFailures[i := absValueFailures[i] + 1];
          }
          return;
        }
      }
    }

    method RecordMagnitude(o: Outcome, ghost ps: seq<Outcome>)
      requires BucketsTallied(ps, absValueBuckets, absValueFailures) && o.bucket == BucketOf(o.actual)
      modifies `absValueBuckets, `absValueFailures
      ensures BucketsTallied(ps + [o], absValueBuckets, absValueFailures)
    {
      UpdateAbsValueBucket(o.actual, o.Bad());
      forall i | 0 <= i < MAGNITUDE_BUCKETS
        ensures absValueBuckets[i] == Count(InBucket(i), ps + [o])
        ensures absValueFailures[i] == Count(MismatchedInBucket(i), ps + [o])
      {
        CountSnoc(InBucket(i), ps, o);
        CountSnoc(MismatchedInBucket(i), ps, o);
      }
    }

    /** Counts an absolute mismatch with its relative error, and a relative one with its absolute error. */
    method RecordErrors(o: Outcome, ghost ps: seq<Outcome>)
      requires ErrorsTallied(ps, numAbsMismatches, numRelMismatches, absErrorBuckets, relErrorBuckets)
      modifies `numAbsMismatches, `numRelMismatches, `absErrorBuckets, `relErrorBuckets
      ensures ErrorsTallied(ps + [o], numAbsMismatches, numRelMismatches, absErrorBuckets, relErrorBuckets)
    {
      if o.absMismatch {
        numAbsMismatches := numAbsMismatches + 1;
        relErrorBuckets := UpdateErrorBucket(o.measure.relError, relErrorBuckets);
      }
      if o.relMismatch {
        numRelMismatches := numRelMismatches + 1;
        absErrorBuckets := UpdateErrorBucket(o.measure.absError, absErrorBuckets);
      }
      CountSnoc(AbsMismatched, ps, o);
      CountSnoc(RelMismatched, ps, o);
      forall i | 0 <= i < ERROR_BUCKETS
        ensures absErrorBuckets[i] == Count(AbsErrorAtLeast(ErrorBound(i)), ps + [o])
        ensures relErrorBuckets[i] == Count(RelErrorAtLeast(ErrorBound(i)), ps + [o])
      {
        CountSnoc(AbsErrorAtLeast(ErrorBound(i)), ps, o);
        CountSnoc(RelErrorAtLeast(ErrorBound(i)), ps, o);
      }
    }

    /** Records the outcome of comparing two real values. */
    method Record(o: Outcome)
      requires Tallied() && o.linearIndex < |mismatches| && o.bucket == BucketOf(o.actual)
      modifies this
      ensures Tallied() && parts == old(parts) + [o]
      ensures numMismatches == old(numMismatches) + One(o.Bad())
      ensures mismatches == if o.Bad() then old(mismatches)[o.linearIndex := true] else old(mismatches)
    {
      ghost var ps := parts;
      RecordErrors(o, ps);
      RecordMagnitude(o, ps);
      topRelMismatches := KeepTop(ps, o, topRelMismatches);
      CountSnoc(NanMismatched, ps, o);
      if o.measure.nanMismatch {
        numNanMismatches := numNanMismatches + 1;
      }
      if o.Bad() {
        numMismatches := numMismatches + 1;
        mismatches := mismatches[o.linearIndex := true];
      }
      parts := ps + [o];
    }

    method CompareParts(expected: Float, actual: Float, linearIndex: nat)
      requires Tallied() && linearIndex < |mismatches|
      modifies this
      ensures var o := OutcomeOf(context, expected, actual, linearIndex);
        && Tallied() && parts == old(parts) + [o]
        && numMismatches == old(numMismatches) + One(o.Bad())
        && mismatches == if o.Bad() then old(mismatches)[linearIndex := true] else old(mismatches)
    {
      Record(OutcomeOf(context, expected, actual, linearIndex));
    }

    /** Exactly these pairs have been compared. */
    ghost predicate Compared(pairs: seq<Pair>)
      requires Listed(pairs, |mismatches|)
      reads this
    {
      && Tallied() && parts == Flatten(context, pairs)
      && mismatches == Flags(context, |mismatches|, pairs) && numMismatches == CountTrue(mismatches)
    }

    /** Compares two elements; a complex pair counts as one mismatch even if both parts are. */
    method CompareValues(pair: Pair)
      requires Tallied() && pair.Valid() && pair.linearIndex < |mismatches| && !mismatches[pair.linearIndex]
      modifies this
      ensures Tallied() && parts == old(parts) + pair.Outcomes(context)
      ensures mismatches == old(mismatches)[pair.linearIndex := pair.Bad(context)]
      ensures numMismatches == old(numMismatches) + One(pair.Bad(context))
    {
      match pair.expected
      case Real(x) =>
        CompareParts(x, pair.actual.value, pair.linearIndex);
        assert pair.Bad(context) <==> pair.Outcomes(context)[0].Bad();
      case Complex(re, im) =>
        var bothPartsMismatch := numMismatches + 2;
        CompareParts(re, pair.actual.re, pair.linearIndex);
        CompareParts(im, pair.actual.im, pair.linearIndex);
        if numMismatches == bothPartsMismatch {
          numMismatches := numMismatches - 1;
        }
        assert pair.Bad(context) <==> pair.Outcomes(context)[0].Bad() || pair.Outcomes(context)[1].Bad();
    }

    /** Compares the next of the listed pairs. */
    method CompareNext(ghost pairs: seq<Pair>, ghost n: nat, pair: Pair)
      requires Listed(pairs, |mismatches|) && n < |pairs| && pair == pairs[n]
      requires Listed(pairs[..n], |mismatches|) && Compared(pairs[..n])
      modifies this
      ensures |mismatches| == old(|mismatches|) && Listed(pairs[..n + 1], |mismatches|) && Compared(pairs[..n + 1])
    {
      FlagMeaning(context, |mismatches|, pairs[..n], pair.linearIndex);
      CountTrueUpdate(mismatches, pair.linearIndex, pair.Bad(context));
      assert pairs[..n + 1][..n] == pairs[..n];
      CompareValues(pair);
    }

    /** Compares two literals, in memory order if layouts agree and shapes are static. */
    method CompareLiterals(expected: Literal, actual: Literal)
      requires Comparable(expected, actual) && |mismatches| == |actual.data| && Compared([])
      modifies this
      ensures |mismatches| == |actual.data| && Listed(PairsOf(expected, actual), |mismatches|)
      ensures Compared(PairsOf(expected, actual))
    {
      if UsesFastPath(expected, actual) {
        ghost var pairs := FastPairs(expected, actual);
        for i := 0 to |expected.data|
          invariant |mismatches| == |actual.data| && Listed(pairs[..i], |mismatches|) && Compared(pairs[..i])
        {
          CompareNext(pairs, i, Pair(expected.data[i], actual.data[i], i));
        }
        assert pairs[..|pairs|] == pairs;
      } else {
        SlowListed(expected, actual);
        ghost var pairs := SlowPairs(expected, actual);
        var multiIndex := new nat[|actual.dimensions|](_ => 0);
        assert pairs[..0] == [];
        WholeBox(expected.Sizes());
        CompareLiteralsSlow(expected, actual, 0, multiIndex, [], 0, |pairs|);
        assert pairs[..|pairs|] == pairs;
      }
    }

    /** The first `n` pairs of the slow traversal have been compared. */
    ghost predicate Covered(expected: Literal, actual: Literal, n: nat)
      requires Comparable(expected, actual)
      reads this
    {
      (&& |mismatches| == |actual.data| && n <= |SlowPairs(expected, actual)|
       && Listed(SlowPairs(expected, actual)[..n], |mismatches|) && Compared(SlowPairs(expected, actual)[..n])) == true
    }

    method CompareAt(expected: Literal, actual: Literal, i: Dims, ghost n: nat)
      requires Comparable(expected, actual) && InBounds(i, expected.Sizes()) && n == Offset(expected.Sizes(), i)
      requires Covered(expected, actual, n)
      modifies this
      ensures Covered(expected, actual, n + 1)
    {
      ghost var pairs := SlowPairs(expected, actual);
      SlowListed(expected, actual);
      OffsetBound(expected.Sizes(), i);
      UnoffsetOffset(expected.Sizes(), i);
      SizesWithin(expected, i);
      CompareNext(pairs, n, PairAt(expected, actual, i));
    }

    /** Compares all elements whose index starts with the first `dimension` coordinates. */
    method CompareLiteralsSlow(expected: Literal, actual: Literal, dimension: nat, multiIndex: array<nat>,
                               ghost prefix: Dims, ghost n: nat, ghost end: nat)
      requires Comparable(expected, actual) && multiIndex.Length == |actual.dimensions| && dimension <= multiIndex.Length
      requires multiIndex[..dimension] == prefix && StartsAt(expected.Sizes(), prefix, n)
      requires end == n + Product(expected.Sizes()[dimension..]) && Covered(expected, actual, n)
      modifies this, multiIndex
      ensures multiIndex[..dimension] == prefix && Covered(expected, actual, end)
      decreases multiIndex.Length - dimension, 2
    {
      if dimension == multiIndex.Length {
        CompareIndex(expected, actual, multiIndex, prefix, n, end);
      } else {
        RowEnd(expected.Sizes(), prefix, n);
        CompareRows(expected, actual, dimension, multiIndex, prefix, n, end);
      }
    }

    method CompareIndex(expected: Literal, actual: Literal, multiIndex: array<nat>, ghost prefix: Dims, ghost n: nat, ghost end: nat)
      requires Comparable(expected, actual) && multiIndex.Length == |actual.dimensions| && multiIndex[..multiIndex.Length] == prefix
      requires StartsAt(expected.Sizes(), prefix, n) && end == n + Product(expected.Sizes()[multiIndex.Length..])
      requires Covered(expected, actual, n)
      modifies this
      ensures Covered(expected, actual, end)
    {
      var i := multiIndex[..];
      assert i == prefix;
      IndexReached(expected.Sizes(), prefix, n);
      assert end == n + 1;
      CompareAt(expected, actual, i, n);
    }

    method CompareRows(expected: Literal, actual: Literal, dimension: nat, multiIndex: array<nat>,
                       ghost prefix: Dims, ghost n: nat, ghost end: nat)
      requires Comparable(expected, actual) && multiIndex.Length == |actual.dimensions| && dimension < multiIndex.Length
      requires multiIndex[..dimension] == prefix && StartsAt(expected.Sizes(), prefix, n)
      requires end == RowStart(expected.Sizes(), dimension, n, expected.Sizes()[dimension]) && Covered(expected, actual, n)
      modifies this, multiIndex
      ensures multiIndex[..dimension] == prefix && Covered(expected, actual, end)
      decreases multiIndex.Length - dimension, 1
    {
      var upperBound := expected.dimensions[dimension];
      if expected.dynamicSizes[dimension].Some? {
        upperBound := expected.dynamicSizes[dimension].value;
      }
      for i := 0 to upperBound
        invariant multiIndex[..dimension] == prefix && Covered(expected, actual, RowStart(expected.Sizes(), dimension, n, i))
      {
        CompareRow(expected, actual, dimension, multiIndex, prefix, n, i, RowStart(expected.Sizes(), dimension, n, i));
      }
    }

    method CompareRow(expected: Literal, actual: Literal, dimension: nat, multiIndex: array<nat>,
                      ghost prefix: Dims, ghost n: nat, i: nat, ghost start: nat)
      requires Comparable(expected, actual) && multiIndex.Length == |actual.dimensions| && dimension < multiIndex.Length
      requires multiIndex[..dimension] == prefix && StartsAt(expected.Sizes(), prefix, n) && i < expected.Sizes()[dimension]
      requires start == RowStart(expected.Sizes(), dimension, n, i) && Covered(expected, actual, start)
      modifies this, multiIndex
      ensures multiIndex[..dimension] == prefix
      ensures Covered(expected, actual, RowStart(expected.Sizes(), dimension, n, i + 1))
      decreases multiIndex.Length - dimension, 0
    {
      multiIndex[dimension] := i;
      assert multiIndex[..dimension + 1] == prefix + [i];
      NextStart(expected.Sizes(), prefix, i, n);
      CompareLiteralsSlow(expected, actual, dimension + 1, multiIndex, prefix + [i], start,
        RowStart(expected.Sizes(), dimension, n, i + 1));
      assert multiIndex[..dimension] == multiIndex[..dimension + 1][..dimension];
    }
  }

  /** Where row `i` along a dimension starts, if the first starts at `n`. */
  ghost function RowStart(b: Dims, dimension: nat, n: nat, i: nat): nat
    requires dimension < |b|
  {
    if i == 0 then n else RowStart(b, dimension, n, i - 1) + Product(b[dimension + 1..])
  }

  lemma {:induction false} RowStartIs(b: Dims, dimension: nat, n: nat, i: nat)
    requires dimension < |b|
    ensures RowStart(b, dimension, n, i) == n + i * Product(b[dimension + 1..])
  {
    if i > 0 {
      RowStartIs(b, dimension, n, i - 1);
    }
  }

  lemma RowEnd(b: Dims, prefix: Dims, n: nat)
    requires |prefix| < |b|
    ensures RowStart(b, |prefix|, n, b[|prefix|]) == n + Product(b[|prefix|..])
  {
    RowStartIs(b, |prefix|, n, b[|prefix|]);
    OffsetSuffix(b, b, |prefix|);
  }

  /** The indices with this in-bounds prefix start at position `n` of the row-major order. */
  ghost predicate StartsAt(b: Dims, prefix: Dims, n: nat) {
    (&& |prefix| <= |b| && InBounds(prefix, b[..|prefix|])
     && n == Offset(b[..|prefix|], prefix) * Product(b[|prefix|..])) == true
  }

  lemma WholeBox(b: Dims)
    ensures StartsAt(b, [], 0) && b[0..] == b
  {
    assert InBounds([], b[..0]);
  }

  lemma IndexReached(b: Dims, i: Dims, n: nat)
    requires |i| == |b| && StartsAt(b, i, n)
    ensures InBounds(i, b) && n == Offset(b, i) && Product(b[|b|..]) == 1
  {
    assert b[..|b|] == b && b[|b|..] == [];
    assert Product([]) == 1 && Offset(b, i) * 1 == Offset(b, i);
  }

  lemma NextStart(b: Dims, prefix: Dims, i: nat, n: nat)
    requires |prefix| < |b| && i < b[|prefix|] && StartsAt(b, prefix, n)
    ensures StartsAt(b, prefix + [i], RowStart(b, |prefix|, n, i))
  {
    var d := |prefix|;
    var p := Product(b[d + 1..]);
    RowStartIs(b, d, n, i);
    OffsetSuffix(b, b, d);
    assert b[..d + 1] == b[..d] + [b[d]];
    OffsetSnoc(b[..d], prefix, b[d], i);
    Distribute(Offset(b[..d], prefix), b[d], i, p);
  }

  // ----- the pairs a comparison has covered -----

  predicate AllValid(pairs: seq<Pair>) {
    forall k | 0 <= k < |pairs| :: pairs[k].Valid()
  }

  function Flatten(c: Context, pairs: seq<Pair>): seq<Outcome>
    requires AllValid(pairs)
  {
    if pairs == [] then [] else Flatten(c, pairs[..|pairs| - 1]) + pairs[|pairs| - 1].Outcomes(c)
  }

  /** The positions flagged after the pairs. */
  function Flags(c: Context, n: nat, pairs: seq<Pair>): (flags: seq<bool>)
    requires AllValid(pairs) && forall k | 0 <= k < |pairs| :: pairs[k].linearIndex < n
    ensures |flags| == n
  {
    if pairs == [] then seq(n, _ => false) else
      var last := pairs[|pairs| - 1];
      Flags(c, n, pairs[..|pairs| - 1])[last.linearIndex := last.Bad(c)]
  }

  predicate DistinctIndices(pairs: seq<Pair>) {
    forall j, k | 0 <= j < k < |pairs| :: pairs[j].linearIndex != pairs[k].linearIndex
  }

  predicate Listed(pairs: seq<Pair>, n: nat) {
    AllValid(pairs) && DistinctIndices(pairs) && forall k | 0 <= k < |pairs| :: pairs[k].linearIndex < n
  }

  /** A position is flagged exactly if its pair is out of bounds. */
  lemma {:induction false} FlagMeaning(c: Context, n: nat, pairs: seq<Pair>, i: nat)
    requires Listed(pairs, n) && i < n
    ensures Flags(c, n, pairs)[i] <==> exists k :: 0 <= k < |pairs| && pairs[k].linearIndex == i && pairs[k].Bad(c)
  {
    if pairs != [] {
      var m := |pairs| - 1;
      FlagMeaning(c, n, pairs[..m], i);
      if pairs[m].linearIndex == i {
        assert forall k | 0 <= k < m :: pairs[k].linearIndex != i;
      } else if k :| 0 <= k < m && pairs[..m][k].linearIndex == i && pairs[..m][k].Bad(c) {
        assert pairs[k].linearIndex == i && pairs[k].Bad(c);
      }
    }
  }

  predicate InMagnitude(value: Float, i: nat)
    requires i < MAGNITUDE_BUCKETS - 1
  {
    value.Finite? && MagnitudeBound(i) <= Abs(value.value) < MagnitudeBound(i + 1)
  }

  /** Counts the error in every bucket whose bound it reaches. */
  method UpdateErrorBucket(error: Error, buckets: seq<nat>) returns (r: seq<nat>)
    requires |buckets| == ERROR_BUCKETS
    ensures |r| == |buckets|
    ensures forall i | 0 <= i < |buckets| :: r[i] == buckets[i] + One(AtLeast(error, Amount(ErrorBound(i))))
  {
    r := buckets;
    for i := 0 to |buckets|
      invariant |r| == |buckets|
      invariant forall j | 0 <= j < |buckets| ::
                  r[j] == buckets[j] + if j < i then One(AtLeast(error, Amount(ErrorBound(j)))) else 0
    {
      if AtLeast(error, Amount(ErrorBound(i))) {
        r := r[i := r[i] + 1];
      }
    }
  }

  /** Keeps a mismatch if there is room or it is larger than the smallest kept, which then goes. */
  method KeepTop(ghost parts: seq<Outcome>, o: Outcome, top: seq<Mismatch>) returns (kept: seq<Mismatch>)
    requires KeepsLargest(parts, top)
    ensures KeepsLargest(parts + [o], kept)
    ensures !o.Bad() ==> kept == top
  {
    CountSnoc(Mismatched, parts, o);
    kept := top;
    var m := o.measure;
    if o.Bad() && (|top| < TOP || Exceeds(m.relError, top[0].relError)) {
      var mismatch := RecordOf(o);
      var with := Insert(top, mismatch);
      forall x: Error
        ensures CountAtLeast(if |with| > TOP then with[1..] else with, x) == Min(TOP, Count(MismatchedAtLeast(x), parts + [o]))
      {
        KeepInserted(parts, o, top, mismatch, with, x);
      }
      kept := if |with| > TOP then with[1..] else with;
      forall x ensures Copies(kept, x) <= Copies(top, x) + One(mismatch == x) {
        assert Copies(with, x) == Copies(top, x) + One(mismatch == x);
      }
    } else {
      forall x: Error ensures CountAtLeast(top, x) == Min(TOP, Count(MismatchedAtLeast(x), parts + [o])) {
        KeepUnchanged(parts, o, top, x);
      }
    }
    MetKept(parts, o, top, kept);
  }

  lemma SortedInsert(a: seq<Mismatch>, m: Mismatch, b: seq<Mismatch>)
    requires SortedByError(a + b) && forall k | 0 <= k < |a| :: AtLeast(m.relError, a[k].relError)
    requires b != [] ==> !AtLeast(m.relError, b[0].relError)
    ensures SortedByError(a + [m] + b)
  {
    var s := a + b;
    forall j, k | 0 <= j < k < |s| + 1
      ensures AtLeast((a + [m] + b)[k].relError, (a + [m] + b)[j].relError)
    {
      if j < |a| && k > |a| {
        assert AtLeast(s[k - 1].relError, s[j].relError);
      } else if j == |a| {
        assert s[|a|] == b[0] && (k - 1 == |a| || AtLeast(s[k - 1].relError, s[|a|].relError));
      } else if j > |a| {
        assert AtLeast(s[k - 1].relError, s[j - 1].relError);
      } else if k < |a| {
        assert AtLeast(s[k].relError, s[j].relError);
      }
    }
  }

  /** Inserts behind all mismatches that are not larger. */
  method Insert(top: seq<Mismatch>, m: Mismatch) returns (with: seq<Mismatch>)
    requires SortedByError(top)
    ensures SortedByError(with) && |with| == |top| + 1
    ensures forall x: Mismatch {:trigger Copies(with, x)} :: Copies(with, x) == Copies(top, x) + One(m == x)
    ensures forall x: Error {:trigger CountAtLeast(with, x)} :: CountAtLeast(with, x) == CountAtLeast(top, x) + One(AtLeast(m.relError, x))
    ensures top != [] && Exceeds(m.relError, top[0].relError) ==> with[0] == top[0]
  {
    var i := 0;
    while i < |top| && AtLeast(m.relError, top[i].relError)
      invariant i <= |top|
      invariant forall k | 0 <= k < i :: AtLeast(m.relError, top[k].relError)
    {
      i := i + 1;
    }
    with := top[..i] + [m] + top[i..];
    assert top == top[..i] + top[i..];
    SortedInsert(top[..i], m, top[i..]);
    forall x: Mismatch ensures Copies(with, x) == Copies(top, x) + One(m == x) {
      CopiesInsert(top[..i], m, top[i..], x);
    }
    forall x: Error ensures CountAtLeast(with, x) == CountAtLeast(top, x) + One(AtLeast(m.relError, x)) {
      CountAtLeastInsert(top[..i], m, top[i..], x);
    }
  }
}
