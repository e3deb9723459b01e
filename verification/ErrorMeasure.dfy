/** How the near comparison measures one pair of floating-point values. */
module ErrorMeasure {
  import opened Options

  /** Floating-point values; `bits` tells values apart that are equal as numbers. Arithmetic is exact. */
  datatype Float = NaN(bits: nat) | Infinite(negative: bool) | Finite(value: real, bits: nat)

  /** A non-negative error that is never NaN. */
  datatype Error = Amount(value: real) | Infinity

  predicate AtLeast(e: Error, bound: Error) {
    match bound
    case Infinity => e.Infinity?
    case Amount(b) => e.Infinity? || e.value >= b
  }

  predicate Exceeds(e: Error, bound: Error) {
    !AtLeast(bound, e)
  }

  /** `within` is the allowed distance in low-precision floats, if that comparison is asked for. */
  datatype ErrorSpec = ErrorSpec(abs: Error, rel: Error, relaxedNans: bool, allNansAreEquivalent: bool, fewerInfsOk: bool,
                                 within: Option<int>)

  /** The error bounds, the largest finite value of the type, and the low-precision float distance. */
  datatype Context = Context(spec: ErrorSpec, maxFinite: real, distance: (Float, Float) -> int)

  datatype Measure = Measure(absError: Error, relError: Error, floatDistance: int, nanMismatch: bool)

  function Abs(x: real): real {
    if x < 0.0 then -x else x
  }

  const Same := Measure(Amount(0.0), Amount(0.0), -1, false)
  const Apart := Measure(Infinity, Infinity, -1, false)

  /** The relative error, infinite for an expected zero. */
  function Relative(absError: real, expected: real): Error {
    if expected != 0.0 then Amount(absError / Abs(expected)) else Infinity
  }

  function MeasureOf(c: Context, expected: Float, actual: Float): Measure {
    var spec := c.spec;
    if expected == actual then Same
    else if expected.NaN? || actual.NaN? then
      if spec.allNansAreEquivalent && expected.NaN? && actual.NaN? then Same
      else if (!spec.relaxedNans && expected.NaN? != actual.NaN?) || (spec.relaxedNans && !expected.NaN? && actual.NaN?)
      then Apart.(nanMismatch := true)
      else Same
    else if actual.Infinite? && !expected.Infinite? && spec.fewerInfsOk then
      var finite := if actual.negative then -c.maxFinite else c.maxFinite;
      var absError := Abs(finite - expected.value);
      Measure(Amount(absError), Relative(absError, expected.value), -1, false)
    else if expected.Infinite? || actual.Infinite? then Apart
    else
      var absError := Abs(actual.value - expected.value);
      Measure(Amount(absError), Relative(absError, expected.value),
        if spec.within.Some? then c.distance(expected, actual) else -1, false)
  }

  predicate WithinFloats(c: Context, m: Measure) {
    c.spec.within.Some? && c.spec.within.value >= 0 && m.floatDistance <= c.spec.within.value
  }

  predicate AbsMismatch(c: Context, m: Measure) {
    !WithinFloats(c, m) && Exceeds(m.absError, c.spec.abs)
  }

  predicate RelMismatch(c: Context, m: Measure) {
    !WithinFloats(c, m) && Exceeds(m.relError, c.spec.rel)
  }

  predicate IsMismatch(c: Context, m: Measure) {
    AbsMismatch(c, m) && RelMismatch(c, m)
  }

  // ----- what is flagged -----

  /** Whether the comparison also accepts values within some number of low-precision floats. */
  predicate AcceptsClose(c: Context) {
    c.spec.within.Some? && c.spec.within.value >= 0
  }

  /** An error as large as this is out of both bounds. */
  predicate OutOfBounds(c: Context, absError: real, expected: real) {
    && c.spec.abs.Amount? && absError > c.spec.abs.value
    && c.spec.rel.Amount? && (expected == 0.0 || absError > c.spec.rel.value * Abs(expected))
  }

  /** Whether not even an error of 0 is accepted: with negative bounds only. */
  predicate AcceptsNothing(c: Context) {
    !AcceptsClose(c) && c.spec.abs.Amount? && c.spec.rel.Amount? && c.spec.abs.value < 0.0 && c.spec.rel.value < 0.0
  }

  /** A value is not flagged against itself, unless nothing is accepted. */
  lemma EqualFlagged(c: Context, x: Float)
    ensures IsMismatch(c, MeasureOf(c, x, x)) <==> AcceptsNothing(c)
  {
  }

  /** Two finite values are flagged exactly if they are further apart than both bounds allow, and, if
      that is asked for, not within the float distance. */
  lemma FiniteFlagged(c: Context, expected: Float, actual: Float)
    requires expected.Finite? && actual.Finite? && expected != actual
    ensures IsMismatch(c, MeasureOf(c, expected, actual))
            <==> && OutOfBounds(c, Abs(actual.value - expected.value), expected.value)
                 && !(AcceptsClose(c) && c.distance(expected, actual) <= c.spec.within.value)
  {
    RelativeExceeds(c, Abs(actual.value - expected.value), expected.value);
  }

  lemma RelativeExceeds(c: Context, absError: real, expected: real)
    ensures Exceeds(Relative(absError, expected), c.spec.rel)
            <==> c.spec.rel.Amount? && (expected == 0.0 || absError > c.spec.rel.value * Abs(expected))
  {
    if expected != 0.0 && c.spec.rel.Amount? {
      Quotient(absError, Abs(expected), c.spec.rel.value);
    }
  }

  lemma Quotient(a: real, b: real, r: real)
    requires b > 0.0
    ensures a / b > r <==> a > r * b
  {
    var q := a / b;
    assert q * b == a;
    if q > r {
      assert (q - r) * b > 0.0;
    } else {
      assert (r - q) * b >= 0.0;
    }
  }

  /** A NaN on one side counts as an infinite error exactly if NaNs are not relaxed or the actual value is
      the NaN, and otherwise, as on both sides, as none; with a float distance accepted it is never flagged. */
  lemma NanFlagged(c: Context, expected: Float, actual: Float)
    requires expected.NaN? || actual.NaN?
    ensures IsMismatch(c, MeasureOf(c, expected, actual))
            <==> if expected.NaN? != actual.NaN? && (!c.spec.relaxedNans || actual.NaN?)
                 then !AcceptsClose(c) && c.spec.abs.Amount? && c.spec.rel.Amount?
                 else AcceptsNothing(c)
  {
  }

  /** An infinity against something else that is no NaN counts as an infinite error, or, with fewer
      infinities allowed, an actual one as the largest finite value; with a float distance accepted it is
      never flagged. */
  lemma InfinityFlagged(c: Context, expected: Float, actual: Float)
    requires !expected.NaN? && !actual.NaN? && expected != actual && (expected.Infinite? || actual.Infinite?)
    ensures IsMismatch(c, MeasureOf(c, expected, actual))
            <==> && !AcceptsClose(c)
                 && if expected.Finite? && c.spec.fewerInfsOk
                    then OutOfBounds(c, Abs((if actual.negative then -c.maxFinite else c.maxFinite) - expected.value), expected.value)
                    else c.spec.abs.Amount? && c.spec.rel.Amount?
  {
    if expected.Finite? {
      var finite := if actual.negative then -c.maxFinite else c.maxFinite;
      RelativeExceeds(c, Abs(finite - expected.value), expected.value);
    }
  }

  /** What a comparison that accepts close floats looks at: finite values that differ. */
  predicate FiniteNear(c: Context, expected: Float, actual: Float)
    requires AcceptsClose(c)
  {
    expected.Finite? && actual.Finite? && expected != actual ==>
      || !OutOfBounds(c, Abs(actual.value - expected.value), expected.value)
      || c.distance(expected, actual) <= c.spec.within.value
  }

  /** With a float distance accepted, no pair with a NaN or an infinity is flagged: its distance stays at
      the initial -1, which is within any such bound. */
  lemma OnlyFiniteFlagged(c: Context, expected: Float, actual: Float)
    requires AcceptsClose(c)
    ensures IsMismatch(c, MeasureOf(c, expected, actual)) <==> !FiniteNear(c, expected, actual)
  {
    if expected == actual {
      EqualFlagged(c, expected);
    } else if expected.NaN? || actual.NaN? {
      NanFlagged(c, expected, actual);
    } else if expected.Infinite? || actual.Infinite? {
      InfinityFlagged(c, expected, actual);
    } else {
      FiniteFlagged(c, expected, actual);
    }
  }
}
