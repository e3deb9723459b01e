/** What the near comparator should have counted after comparing a list of value pairs. */
module ComparisonTally {
  import opened Arithmetic
  import opened ErrorMeasure

  /** What one comparison of two real values comes to: of real elements, or of one part of complex ones. */
  datatype Outcome = Outcome(expected: Float, actual: Float, measure: Measure, absMismatch: bool, relMismatch: bool,
                             bucket: nat, linearIndex: nat) {
    predicate Bad() {
      absMismatch && relMismatch
    }
  }

  function OutcomeOf(c: Context, expected: Float, actual: Float, linearIndex: nat): (o: Outcome)
    ensures o.Bad() <==> IsMismatch(c, MeasureOf(c, expected, actual))
    ensures o.bucket < MAGNITUDE_BUCKETS
  {
    var m := MeasureOf(c, expected, actual);
    Outcome(expected, actual, m, AbsMismatch(c, m), RelMismatch(c, m), BucketOf(actual), linearIndex)
  }

  const ERROR_BUCKETS: nat := 5
  const MAGNITUDE_BUCKETS: nat := 6
  const TOP: nat := 5

  /** The lower bounds of the error buckets; a bucket counts all errors from its bound on. */
  function ErrorBound(i: nat): real
    requires i < ERROR_BUCKETS
  {
    if i == 0 then 0.0001 else if i == 1 then 0.001 else if i == 2 then 0.01 else if i == 3 then 0.1 else 1.0
  }

  /** The lower bounds of the magnitude buckets; the last has no upper bound. */
  function MagnitudeBound(i: nat): real
    requires i < MAGNITUDE_BUCKETS
  {
    if i == 0 then 0.0 else ErrorBound(i - 1)
  }

  /** The bucket of an absolute value; what fits none, as a NaN, goes to the last. */
  function BucketOf(x: Float): (i: nat)
    ensures i < MAGNITUDE_BUCKETS
    ensures x.Finite? && i + 1 < MAGNITUDE_BUCKETS ==> MagnitudeBound(i) <= Abs(x.value) < MagnitudeBound(i + 1)
    ensures x.Finite? && i + 1 == MAGNITUDE_BUCKETS ==> Abs(x.value) >= MagnitudeBound(i)
  {
    if !x.Finite? then 5
    else
      var a := Abs(x.value);
      if a < 0.0001 then 0 else if a < 0.001 then 1 else if a < 0.01 then 2 else if a < 0.1 then 3
      else if a < 1.0 then 4 else 5
  }

  /** What is counted. */
  datatype Kind =
    | Mismatched
    | NanMismatched
    | AbsMismatched
    | RelMismatched
    | InBucket(bucket: nat)
    | MismatchedInBucket(bucket: nat)
    | RelErrorAtLeast(bound: real) // among absolute mismatches
    | AbsErrorAtLeast(bound: real) // among relative mismatches
    | MismatchedAtLeast(relError: Error)
    | Recorded(mismatch: Mismatch)

  predicate Is(kind: Kind, o: Outcome) {
    match kind
    case Mismatched => o.Bad()
    case NanMismatched => o.measure.nanMismatch
    case AbsMismatched => o.absMismatch
    case RelMismatched => o.relMismatch
    case InBucket(i) => o.bucket == i
    case MismatchedInBucket(i) => o.bucket == i && o.Bad()
    case RelErrorAtLeast(b) => o.absMismatch && AtLeast(o.measure.relError, Amount(b))
    case AbsErrorAtLeast(b) => o.relMismatch && AtLeast(o.measure.absError, Amount(b))
    case MismatchedAtLeast(x) => o.Bad() && AtLeast(o.measure.relError, x)
    case Recorded(m) => o.Bad() && RecordOf(o) == m
  }

  /** The pairs counted as NaN mismatches: a NaN on one side, and with relaxed NaNs only an actual one. */
  lemma NanKind(c: Context, expected: Float, actual: Float, linearIndex: nat)
    ensures Is(NanMismatched, OutcomeOf(c, expected, actual, linearIndex))
            <==> expected.NaN? != actual.NaN? && (c.spec.relaxedNans ==> actual.NaN?)
  {
  }

  /** A record names the values compared, each in its place, and where; it is filed by the size of the
      actual one. */
  lemma RecordFields(c: Context, expected: Float, actual: Float, linearIndex: nat)
    ensures var o := OutcomeOf(c, expected, actual, linearIndex);
      && RecordOf(o).expected == expected && RecordOf(o).actual == actual && RecordOf(o).linearIndex == linearIndex
      && RecordOf(o).absError == MeasureOf(c, expected, actual).absError
      && RecordOf(o).relError == MeasureOf(c, expected, actual).relError
      && RecordOf(o).floatDistance == MeasureOf(c, expected, actual).floatDistance
      && forall i :: Is(InBucket(i), o) <==> i == BucketOf(actual)
  {
  }

  lemma RelativeAtLeast(absError: real, expected: real, b: real)
    ensures AtLeast(Relative(absError, expected), Amount(b)) <==> expected == 0.0 || absError >= b * Abs(expected)
  {
    if expected != 0.0 {
      QuotientAtLeast(absError, Abs(expected), b);
    }
  }

  lemma QuotientAtLeast(a: real, b: real, r: real)
    requires b > 0.0
    ensures a / b >= r <==> a >= r * b
  {
    var q := a / b;
    assert q * b == a;
    if q >= r {
      assert (q - r) * b >= 0.0;
    } else {
      assert (r - q) * b > 0.0;
    }
  }

  /** What is counted of two different finite values: each bound is exceeded on its own, and each bucket
      takes its error only if the other bound is exceeded. */
  lemma FiniteKinds(c: Context, expected: Float, actual: Float, linearIndex: nat, b: real)
    requires expected.Finite? && actual.Finite? && expected != actual
    ensures var o, gap := OutcomeOf(c, expected, actual, linearIndex), Abs(actual.value - expected.value);
      var far := !(AcceptsClose(c) && c.distance(expected, actual) <= c.spec.within.value);
      && (Is(AbsMismatched, o) <==> far && c.spec.abs.Amount? && gap > c.spec.abs.value)
      && (Is(RelMismatched, o) <==> far && c.spec.rel.Amount? && (expected.value == 0.0 || gap > c.spec.rel.value * Abs(expected.value)))
      && (Is(RelErrorAtLeast(b), o) <==> Is(AbsMismatched, o) && (expected.value == 0.0 || gap >= b * Abs(expected.value)))
      && (Is(AbsErrorAtLeast(b), o) <==> Is(RelMismatched, o) && gap >= b)
  {
    var gap := Abs(actual.value - expected.value);
    assert MeasureOf(c, expected, actual).relError == Relative(gap, expected.value);
    RelativeExceeds(c, gap, expected.value);
    RelativeAtLeast(gap, expected.value, b);
  }

  /** How many of the comparisons are of the kind. */
  function Count(kind: Kind, parts: seq<Outcome>): nat {
    if parts == [] then 0 else Count(kind, parts[..|parts| - 1]) + One(Is(kind, parts[|parts| - 1]))
  }

  lemma CountSnoc(kind: Kind, parts: seq<Outcome>, p: Outcome)
    ensures Count(kind, parts + [p]) == Count(kind, parts) + One(Is(kind, p))
  {
    assert (parts + [p])[..|parts|] == parts;
  }

  lemma {:induction false} CountConcat(kind: Kind, a: seq<Outcome>, b: seq<Outcome>)
    ensures Count(kind, a + b) == Count(kind, a) + Count(kind, b)
  {
    if b == [] {
      assert a + b == a;
    } else {
      var n := |b| - 1;
      CountConcat(kind, a, b[..n]);
      assert a + b == (a + b[..n]) + [b[n]];
      CountSnoc(kind, a + b[..n], b[n]);
    }
  }

  /** The magnitude buckets split the values compared, and their failures the mismatches. */
  lemma {:induction false} BucketsSplit(parts: seq<Outcome>)
    requires forall k | 0 <= k < |parts| :: parts[k].bucket < MAGNITUDE_BUCKETS
    ensures BucketSum(parts, false, MAGNITUDE_BUCKETS) == |parts|
    ensures BucketSum(parts, true, MAGNITUDE_BUCKETS) == Count(Mismatched, parts)
  {
    if parts == [] {
      BucketSumEmpty(false, MAGNITUDE_BUCKETS);
      BucketSumEmpty(true, MAGNITUDE_BUCKETS);
    } else {
      var n := |parts| - 1;
      BucketsSplit(parts[..n]);
      assert parts == parts[..n] + [parts[n]];
      BucketSumSnoc(parts[..n], parts[n], false, MAGNITUDE_BUCKETS);
      BucketSumSnoc(parts[..n], parts[n], true, MAGNITUDE_BUCKETS);
    }
  }

  /** The sum of the first `n` buckets, of all values or of the failures only. */
  function BucketSum(parts: seq<Outcome>, failures: bool, n: nat): nat {
    if n == 0 then 0 else
      BucketSum(parts, failures, n - 1)
      + Count(if failures then MismatchedInBucket(n - 1) else InBucket(n - 1), parts)
  }

  lemma {:induction false} BucketSumEmpty(failures: bool, n: nat)
    ensures BucketSum([], failures, n) == 0
  {
    if n > 0 {
      BucketSumEmpty(failures, n - 1);
    }
  }

  lemma {:induction false} BucketSumSnoc(parts: seq<Outcome>, p: Outcome, failures: bool, n: nat)
    ensures BucketSum(parts + [p], failures, n)
            == BucketSum(parts, failures, n) + One(p.bucket < n && (failures ==> Is(Mismatched, p)))
  {
    if n > 0 {
      BucketSumSnoc(parts, p, failures, n - 1);
      CountSnoc(if failures then MismatchedInBucket(n - 1) else InBucket(n - 1), parts, p);
    }
  }

  // ----- the largest relative errors -----

  datatype Mismatch = Mismatch(actual: Float, expected: Float, relError: Error, absError: Error, linearIndex: nat, floatDistance: int)

  function RecordOf(o: Outcome): Mismatch {
    Mismatch(o.actual, o.expected, o.measure.relError, o.measure.absError, o.linearIndex, o.measure.floatDistance)
  }

  /** How often exactly this mismatch is kept. */
  function Copies(top: seq<Mismatch>, m: Mismatch): nat {
    if top == [] then 0 else One(top[0] == m) + Copies(top[1..], m)
  }

  function CountAtLeast(top: seq<Mismatch>, x: Error): nat {
    if top == [] then 0 else One(AtLeast(top[0].relError, x)) + CountAtLeast(top[1..], x)
  }

  predicate SortedByError(top: seq<Mismatch>) {
    forall j, k | 0 <= j < k < |top| :: AtLeast(top[k].relError, top[j].relError)
  }

  /** Every mismatch was met at least as often as it is kept. */
  ghost predicate KeepsMet(parts: seq<Outcome>, top: seq<Mismatch>) {
    forall m {:trigger Copies(top, m)} :: Copies(top, m) <= Count(Recorded(m), parts)
  }

  /** The kept mismatches are mismatches met, and the `TOP` with the largest relative errors: above every
      bound there are as many as were met, up to `TOP`. */
  ghost predicate KeepsLargest(parts: seq<Outcome>, top: seq<Mismatch>) {
    && KeepsMet(parts, top) && SortedByError(top) && |top| == Min(TOP, Count(Mismatched, parts))
    && forall x: Error {:trigger CountAtLeast(top, x)} :: CountAtLeast(top, x) == Min(TOP, Count(MismatchedAtLeast(x), parts))
  }

  lemma {:induction false} CopiesConcat(a: seq<Mismatch>, b: seq<Mismatch>, m: Mismatch)
    ensures Copies(a + b, m) == Copies(a, m) + Copies(b, m)
  {
    if a == [] {
      assert a + b == b;
    } else {
      assert (a + b)[1..] == a[1..] + b;
      CopiesConcat(a[1..], b, m);
    }
  }

  lemma CopiesInsert(a: seq<Mismatch>, x: Mismatch, b: seq<Mismatch>, m: Mismatch)
    ensures Copies(a + [x] + b, m) == Copies(a + b, m) + One(x == m)
  {
    CopiesConcat(a + [x], b, m);
    CopiesConcat(a, [x], m);
    CopiesConcat(a, b, m);
    assert [x][1..] == [];
  }

  /** Keeping a mismatch just met, or nothing new, keeps only what was met. */
  lemma MetKept(parts: seq<Outcome>, o: Outcome, top: seq<Mismatch>, kept: seq<Mismatch>)
    requires KeepsMet(parts, top)
    requires forall m {:trigger Copies(kept, m)} :: Copies(kept, m) <= Copies(top, m) + One(o.Bad() && RecordOf(o) == m)
    ensures KeepsMet(parts + [o], kept)
  {
    forall m ensures Copies(kept, m) <= Count(Recorded(m), parts + [o]) {
      CountSnoc(Recorded(m), parts, o);
      assert Copies(top, m) <= Count(Recorded(m), parts);
    }
  }

  lemma {:induction false} CountAtLeastConcat(a: seq<Mismatch>, b: seq<Mismatch>, x: Error)
    ensures CountAtLeast(a + b, x) == CountAtLeast(a, x) + CountAtLeast(b, x)
  {
    if a == [] {
      assert a + b == b;
    } else {
      assert (a + b)[1..] == a[1..] + b;
      CountAtLeastConcat(a[1..], b, x);
    }
  }

  lemma CountAtLeastInsert(a: seq<Mismatch>, m: Mismatch, b: seq<Mismatch>, x: Error)
    ensures CountAtLeast(a + [m] + b, x) == CountAtLeast(a + b, x) + One(AtLeast(m.relError, x))
  {
    CountAtLeastConcat(a + [m], b, x);
    CountAtLeastConcat(a, [m], x);
    CountAtLeastConcat(a, b, x);
    assert [m][1..] == [];
  }

  lemma {:induction false} CountAtLeastBound(top: seq<Mismatch>, x: Error)
    ensures CountAtLeast(top, x) <= |top|
    ensures (forall k | 0 <= k < |top| :: AtLeast(top[k].relError, x)) <==> CountAtLeast(top, x) == |top|
  {
    if top != [] {
      CountAtLeastBound(top[1..], x);
    }
  }

  /** A new mismatch that finds room, or is larger than the smallest kept, which goes instead. */
  lemma KeepInserted(parts: seq<Outcome>, p: Outcome, top: seq<Mismatch>, m: Mismatch, with: seq<Mismatch>, x: Error)
    requires KeepsLargest(parts, top) && Is(Mismatched, p) && m.relError == p.measure.relError
    requires |top| < TOP || (|top| == TOP && Exceeds(m.relError, top[0].relError))
    requires SortedByError(with) && |with| == |top| + 1
    requires CountAtLeast(with, x) == CountAtLeast(top, x) + One(AtLeast(m.relError, x))
    requires top == [] || |top| < TOP || with[0] == top[0]
    ensures var kept := if |with| > TOP then with[1..] else with;
      CountAtLeast(kept, x) == Min(TOP, Count(MismatchedAtLeast(x), parts + [p]))
  {
    CountSnoc(MismatchedAtLeast(x), parts, p);
    CountAtLeastBound(top, x);
    CountsOrdered(parts, x);
    if |top| == TOP && AtLeast(top[0].relError, x) {
      forall k | 0 <= k < |top| ensures AtLeast(top[k].relError, x) {
        if k > 0 {
          assert AtLeast(top[k].relError, top[0].relError);
        }
      }
    }
  }

  lemma {:induction false} CountsOrdered(parts: seq<Outcome>, x: Error)
    ensures Count(MismatchedAtLeast(x), parts) <= Count(Mismatched, parts)
  {
    if parts != [] {
      CountsOrdered(parts[..|parts| - 1], x);
    }
  }

  /** A mismatch no larger than the smallest of a full set changes nothing. */
  lemma KeepUnchanged(parts: seq<Outcome>, p: Outcome, top: seq<Mismatch>, x: Error)
    requires KeepsLargest(parts, top)
    requires Is(Mismatched, p) ==>
               |top| == TOP && !Exceeds(p.measure.relError, top[0].relError)
    ensures CountAtLeast(top, x) == Min(TOP, Count(MismatchedAtLeast(x), parts + [p]))
  {
    CountSnoc(MismatchedAtLeast(x), parts, p);
    CountAtLeastBound(top, x);
    if Is(MismatchedAtLeast(x), p) {
      forall k | 0 <= k < |top| ensures AtLeast(top[k].relError, x) {
        if k > 0 {
          assert AtLeast(top[k].relError, top[0].relError);
        }
      }
    }
  }
}
