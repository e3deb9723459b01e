/** Copying a window of a row-major array by visiting all its cells in order and using consecutive
    cells on the other side. */
module WindowCopies {
  import opened Arithmetic
  import opened RowMajor
  import opened Odometer

  // ----- windows -----

  predicate Inside(i: Dims, starts: Dims, limits: Dims)
    requires |i| == |starts| == |limits|
  {
    forall k | 0 <= k < |i| :: starts[k] <= i[k] < limits[k]
  }

  function Clipped(d: nat, start: nat, limit: nat): nat {
    var end := if limit < d then limit else d;
    if end > start then end - start else 0
  }

  /** The part of the window within the array. */
  function Window(d: Dims, starts: Dims, limits: Dims): (w: Dims)
    requires |d| == |starts| == |limits|
    ensures |w| == |d|
  {
    seq(|d|, k requires 0 <= k < |d| => Clipped(d[k], starts[k], limits[k]))
  }

  function Minus(i: Dims, starts: Dims): (r: Dims)
    requires |i| == |starts|
    ensures |r| == |i| && forall k | 0 <= k < |i| :: i[k] >= starts[k] ==> r[k] + starts[k] == i[k]
  {
    seq(|i|, k requires 0 <= k < |i| => if i[k] >= starts[k] then i[k] - starts[k] else 0)
  }

  function Plus(i: Dims, starts: Dims): (r: Dims)
    requires |i| == |starts|
    ensures |r| == |i| && forall k | 0 <= k < |i| :: r[k] == i[k] + starts[k]
  {
    seq(|i|, k requires 0 <= k < |i| => i[k] + starts[k])
  }

  lemma InsideIsInWindow(d: Dims, starts: Dims, limits: Dims, i: Dims)
    requires |d| == |starts| == |limits| && InBounds(i, d) && Inside(i, starts, limits)
    ensures InBounds(Minus(i, starts), Window(d, starts, limits)) && Plus(Minus(i, starts), starts) == i
  {
  }

  lemma InWindowIsInside(d: Dims, starts: Dims, limits: Dims, j: Dims)
    requires |d| == |starts| == |limits| && InBounds(j, Window(d, starts, limits))
    ensures InBounds(Plus(j, starts), d) && Inside(Plus(j, starts), starts, limits) && Minus(Plus(j, starts), starts) == j
  {
  }

  // ----- how many cells of the window come before an index -----

  function Clamp(x: nat, start: nat, size: nat): nat {
    if x < start then 0 else if x - start < size then x - start else size
  }

  function Before(i: Dims, starts: Dims, limits: Dims, w: Dims): nat
    requires |i| == |starts| == |limits| == |w|
    decreases |i|
  {
    if i == [] then 0 else
      var m := |i| - 1;
      Before(i[..m], starts[..m], limits[..m], w[..m]) * w[m]
      + if Inside(i[..m], starts[..m], limits[..m]) then Clamp(i[m], starts[m], w[m]) else 0
  }

  lemma WindowSnoc(d: Dims, starts: Dims, limits: Dims)
    requires |d| == |starts| == |limits| > 0
    ensures var m := |d| - 1; Window(d, starts, limits)[..m] == Window(d[..m], starts[..m], limits[..m])
  {
  }

  lemma InsideSnoc(i: Dims, starts: Dims, limits: Dims)
    requires |i| == |starts| == |limits| > 0
    ensures var m := |i| - 1;
      Inside(i, starts, limits) <==> Inside(i[..m], starts[..m], limits[..m]) && starts[m] <= i[m] < limits[m]
  {
    var m := |i| - 1;
    if Inside(i[..m], starts[..m], limits[..m]) && starts[m] <= i[m] < limits[m] {
      forall k | 0 <= k < |i| ensures starts[k] <= i[k] < limits[k] {
        if k < m {
          assert starts[..m][k] <= i[..m][k] < limits[..m][k];
        }
      }
    }
  }

  lemma MinusSnoc(i: Dims, starts: Dims)
    requires |i| == |starts| > 0 && forall k | 0 <= k < |i| :: starts[k] <= i[k]
    ensures var m := |i| - 1; Minus(i, starts) == Minus(i[..m], starts[..m]) + [i[m] - starts[m]]
  {
  }

  /** Within the window, the count is the offset in the window. */
  lemma {:induction false} BeforeInside(d: Dims, starts: Dims, limits: Dims, i: Dims)
    requires |d| == |starts| == |limits| && InBounds(i, d) && Inside(i, starts, limits)
    ensures var w := Window(d, starts, limits); Before(i, starts, limits, w) == Offset(w, Minus(i, starts))
    decreases |d|
  {
    if d != [] {
      var m, w := |d| - 1, Window(d, starts, limits);
      WindowSnoc(d, starts, limits);
      InsideSnoc(i, starts, limits);
      BeforeInside(d[..m], starts[..m], limits[..m], i[..m]);
      MinusSnoc(i, starts);
      assert w == w[..m] + [w[m]];
      OffsetSnoc(w[..m], Minus(i[..m], starts[..m]), w[m], i[m] - starts[m]);
    }
  }

  lemma ClampStep(x: nat, d: nat, start: nat, limit: nat)
    requires x < d
    ensures var w := Clipped(d, start, limit);
      && (x + 1 < d ==> Clamp(x + 1, start, w) == Clamp(x, start, w) + One(start <= x < limit))
      && (x + 1 == d ==> Clamp(x, start, w) + One(start <= x < limit) == w)
      && Clamp(0, start, w) == 0
  {
  }

  lemma BeforeSnoc(j: Dims, x: nat, starts: Dims, limits: Dims, w: Dims)
    requires |j| + 1 == |starts| == |limits| == |w|
    ensures var m := |j|;
      Before(j + [x], starts, limits, w)
      == Before(j, starts[..m], limits[..m], w[..m]) * w[m]
         + if Inside(j, starts[..m], limits[..m]) then Clamp(x, starts[m], w[m]) else 0
  {
    assert (j + [x])[..|j|] == j;
  }

  lemma StepLast(b: nat, inside: bool, w: nat, c: nat, c': nat, here: bool)
    requires c' == c + One(here)
    ensures b * w + (if inside then c else 0) + One(inside && here) == b * w + (if inside then c' else 0)
  {
  }

  lemma StepCarry(b: nat, inside: bool, w: nat, c: nat, here: bool, b': nat)
    requires c + One(here) == w && b' == b + One(inside)
    ensures b * w + (if inside then c else 0) + One(inside && here) == b' * w
  {
    assert (b + 1) * w == b * w + w;
  }

  /** Each visited index of the window adds one; at the end all of the window has been seen. */
  lemma {:induction false} BeforeStep(d: Dims, starts: Dims, limits: Dims, i: Dims)
    requires |d| == |starts| == |limits| && InBounds(i, d)
    ensures Counted(d, starts, limits, i)
    decreases |d|
  {
    if d != [] {
      var m := |d| - 1;
      BeforeStep(d[..m], starts[..m], limits[..m], i[..m]);
      WindowSnoc(d, starts, limits);
      InsideSnoc(i, starts, limits);
      assert i == i[..m] + [i[m]];
      if i[m] + 1 < d[m] {
        CountLast(d, starts, limits, i[..m], i[m]);
      } else if LastBelow(d[..m], i[..m]) >= 0 {
        CountCarry(d, starts, limits, i[..m], i[m]);
      } else {
        CountEnd(d, starts, limits, i[..m], i[m]);
      }
    }
  }

  ghost predicate Counted(d: Dims, starts: Dims, limits: Dims, i: Dims)
    requires |d| == |starts| == |limits| == |i|
  {
    var w := Window(d, starts, limits);
    Before(i, starts, limits, w) + One(Inside(i, starts, limits))
    == if LastBelow(d, i) >= 0 then Before(Bumped(d, i), starts, limits, w) else Product(w)
  }

  lemma CountLast(d: Dims, starts: Dims, limits: Dims, j: Dims, x: nat)
    requires |d| == |starts| == |limits| == |j| + 1 && x + 1 < d[|j|]
    requires Inside(j + [x], starts, limits)
             <==> Inside(j, starts[..|j|], limits[..|j|]) && starts[|j|] <= x < limits[|j|]
    ensures Counted(d, starts, limits, j + [x])
  {
    var m, w := |j|, Window(d, starts, limits);
    assert Bumped(d, j + [x]) == j + [x + 1];
    BeforeSnoc(j, x, starts, limits, w);
    BeforeSnoc(j, x + 1, starts, limits, w);
    ClampStep(x, d[m], starts[m], limits[m]);
    StepLast(Before(j, starts[..m], limits[..m], w[..m]), Inside(j, starts[..m], limits[..m]), w[m],
      Clamp(x, starts[m], w[m]), Clamp(x + 1, starts[m], w[m]), starts[m] <= x < limits[m]);
  }

  lemma CountCarry(d: Dims, starts: Dims, limits: Dims, j: Dims, x: nat)
    requires |d| == |starts| == |limits| == |j| + 1 && x + 1 == d[|j|] && LastBelow(d[..|j|], j) >= 0
    requires Inside(j + [x], starts, limits)
             <==> Inside(j, starts[..|j|], limits[..|j|]) && starts[|j|] <= x < limits[|j|]
    requires Window(d, starts, limits)[..|j|] == Window(d[..|j|], starts[..|j|], limits[..|j|])
    requires Counted(d[..|j|], starts[..|j|], limits[..|j|], j)
    ensures Counted(d, starts, limits, j + [x])
  {
    var m, w := |j|, Window(d, starts, limits);
    var j' := Bumped(d[..m], j);
    assert (j + [x])[..m] == j && Bumped(d, j + [x]) == j' + [0];
    BeforeSnoc(j, x, starts, limits, w);
    BeforeSnoc(j', 0, starts, limits, w);
    ClampStep(x, d[m], starts[m], limits[m]);
    StepCarry(Before(j, starts[..m], limits[..m], w[..m]), Inside(j, starts[..m], limits[..m]), w[m],
      Clamp(x, starts[m], w[m]), starts[m] <= x < limits[m], Before(j', starts[..m], limits[..m], w[..m]));
  }

  lemma CountEnd(d: Dims, starts: Dims, limits: Dims, j: Dims, x: nat)
    requires |d| == |starts| == |limits| == |j| + 1 && x + 1 == d[|j|] && LastBelow(d[..|j|], j) < 0
    requires Inside(j + [x], starts, limits)
             <==> Inside(j, starts[..|j|], limits[..|j|]) && starts[|j|] <= x < limits[|j|]
    requires Window(d, starts, limits)[..|j|] == Window(d[..|j|], starts[..|j|], limits[..|j|])
    requires Counted(d[..|j|], starts[..|j|], limits[..|j|], j)
    ensures Counted(d, starts, limits, j + [x])
  {
    var m, w := |j|, Window(d, starts, limits);
    assert (j + [x])[..m] == j;
    BeforeSnoc(j, x, starts, limits, w);
    ClampStep(x, d[m], starts[m], limits[m]);
    StepCarry(Before(j, starts[..m], limits[..m], w[..m]), Inside(j, starts[..m], limits[..m]), w[m],
      Clamp(x, starts[m], w[m]), starts[m] <= x < limits[m], Product(w[..m]));
    assert w == w[..m] + [w[m]];
    ProductConcat(w[..m], [w[m]]);
    ProductOne(w[m]);
  }

  // ----- the copies -----

  /** The cells of the window, in order. */
  ghost function Sliced<T>(d: Dims, v: seq<T>, starts: Dims, limits: Dims): (r: seq<T>)
    requires |d| == |starts| == |limits| && |v| == Product(d)
    ensures |r| == Product(Window(d, starts, limits))
  {
    var w := Window(d, starts, limits);
    seq(Product(w), n requires 0 <= n < Product(w) => SlicedCell(d, v, starts, limits, n))
  }

  ghost function SlicedCell<T>(d: Dims, v: seq<T>, starts: Dims, limits: Dims, n: nat): T
    requires |d| == |starts| == |limits| && |v| == Product(d) && n < Product(Window(d, starts, limits))
  {
    var w := Window(d, starts, limits);
    ProductPositive(w);
    OffsetUnoffset(w, n);
    InWindowIsInside(d, starts, limits, Unoffset(w, n));
    OffsetBound(d, Plus(Unoffset(w, n), starts));
    v[Offset(d, Plus(Unoffset(w, n), starts))]
  }

  /** The array with the window replaced by consecutive cells of `u`. */
  ghost function Updated<T>(d: Dims, v: seq<T>, starts: Dims, limits: Dims, u: seq<T>): (r: seq<T>)
    requires |d| == |starts| == |limits| && |v| == Product(d) && |u| >= Product(Window(d, starts, limits))
    ensures |r| == |v|
  {
    seq(|v|, n requires 0 <= n < |v| => UpdatedCell(d, v, starts, limits, u, n))
  }

  ghost function UpdatedCell<T>(d: Dims, v: seq<T>, starts: Dims, limits: Dims, u: seq<T>, n: nat): T
    requires |d| == |starts| == |limits| && |v| == Product(d) && |u| >= Product(Window(d, starts, limits)) && n < |v|
  {
    ProductPositive(d);
    OffsetUnoffset(d, n);
    var i := Unoffset(d, n);
    if Inside(i, starts, limits) then
      var w := Window(d, starts, limits);
      InsideIsInWindow(d, starts, limits, i);
      OffsetBound(w, Minus(i, starts));
      u[Offset(w, Minus(i, starts))]
    else v[n]
  }

  lemma SlicedAt<T>(d: Dims, v: seq<T>, starts: Dims, limits: Dims, j: Dims)
    requires |d| == |starts| == |limits| && |v| == Product(d)
    requires InBounds(j, Window(d, starts, limits))
    ensures var w := Window(d, starts, limits);
      Offset(w, j) < Product(w) && Offset(d, Plus(j, starts)) < |v|
      && Sliced(d, v, starts, limits)[Offset(w, j)] == v[Offset(d, Plus(j, starts))]
  {
    var w := Window(d, starts, limits);
    OffsetBound(w, j);
    UnoffsetOffset(w, j);
    InWindowIsInside(d, starts, limits, j);
    OffsetBound(d, Plus(j, starts));
  }

  /** Slicing back what was just written returns it, for a window within the array. */
  lemma SliceOfUpdate<T>(d: Dims, v: seq<T>, starts: Dims, limits: Dims, u: seq<T>)
    requires |d| == |starts| == |limits| && |v| == Product(d) && |u| == Product(Window(d, starts, limits))
    ensures Sliced(d, Updated(d, v, starts, limits, u), starts, limits) == u
  {
    var w, x := Window(d, starts, limits), Updated(d, v, starts, limits, u);
    forall n | 0 <= n < Product(w) ensures Sliced(d, x, starts, limits)[n] == u[n] {
      ProductPositive(w);
      var j := Unoffset(w, n);
      OffsetUnoffset(w, n);
      SlicedAt(d, x, starts, limits, j);
      InWindowIsInside(d, starts, limits, j);
      UnoffsetOffset(d, Plus(j, starts));
    }
  }

  // ----- cells copied so far -----

  /** The cell of the window at index `i` has been copied. */
  ghost predicate Copied<T>(d: Dims, v: seq<T>, starts: Dims, limits: Dims, r: seq<T>, i: Dims)
    requires |d| == |starts| == |limits| == |i|
  {
    var from, to := Offset(d, i), Offset(Window(d, starts, limits), Minus(i, starts));
    from < |v| && to < |r| && r[to] == v[from]
  }

  ghost predicate CopiedBefore<T>(d: Dims, v: seq<T>, starts: Dims, limits: Dims, r: seq<T>, n: nat)
    requires |d| == |starts| == |limits|
  {
    forall i {:trigger Copied(d, v, starts, limits, r, i)} |
      InBounds(i, d) && Inside(i, starts, limits) && Offset(d, i) < n :: Copied(d, v, starts, limits, r, i)
  }

  /** One more cell in its place keeps the others. */
  lemma CopyOne<T>(d: Dims, v: seq<T>, starts: Dims, limits: Dims, r: seq<T>, r': seq<T>, i: Dims)
    requires |d| == |starts| == |limits| && InBounds(i, d) && Inside(i, starts, limits)
    requires CopiedBefore(d, v, starts, limits, r, Offset(d, i))
    requires var to := Offset(Window(d, starts, limits), Minus(i, starts));
      Offset(d, i) < |v| && to < |r| && r' == r[to := v[Offset(d, i)]]
    ensures CopiedBefore(d, v, starts, limits, r', Offset(d, i) + 1)
  {
    var w := Window(d, starts, limits);
    InsideIsInWindow(d, starts, limits, i);
    forall j | InBounds(j, d) && Inside(j, starts, limits) && Offset(d, j) < Offset(d, i) + 1
      ensures Copied(d, v, starts, limits, r', j)
    {
      if Offset(d, j) == Offset(d, i) {
        OffsetInjective(d, i, j);
      } else {
        assert Copied(d, v, starts, limits, r, j);
        InsideIsInWindow(d, starts, limits, j);
        if Offset(w, Minus(i, starts)) == Offset(w, Minus(j, starts)) {
          OffsetInjective(w, Minus(i, starts), Minus(j, starts));
        }
      }
    }
  }

  lemma SkipOne<T>(d: Dims, v: seq<T>, starts: Dims, limits: Dims, r: seq<T>, i: Dims)
    requires |d| == |starts| == |limits| && InBounds(i, d) && !Inside(i, starts, limits)
    requires CopiedBefore(d, v, starts, limits, r, Offset(d, i))
    ensures CopiedBefore(d, v, starts, limits, r, Offset(d, i) + 1)
  {
    forall j | InBounds(j, d) && Inside(j, starts, limits) && Offset(d, j) < Offset(d, i) + 1
      ensures Copied(d, v, starts, limits, r, j)
    {
      if Offset(d, j) == Offset(d, i) {
        OffsetInjective(d, i, j);
        assert false;
      }
    }
  }

  lemma AllCopied<T>(d: Dims, v: seq<T>, starts: Dims, limits: Dims, r: seq<T>)
    requires |d| == |starts| == |limits| && |v| == Product(d) && |r| >= Product(Window(d, starts, limits))
    requires CopiedBefore(d, v, starts, limits, r, |v|)
    ensures r[..Product(Window(d, starts, limits))] == Sliced(d, v, starts, limits)
  {
    var w := Window(d, starts, limits);
    forall n | 0 <= n < Product(w) ensures r[n] == Sliced(d, v, starts, limits)[n] {
      ProductPositive(w);
      OffsetUnoffset(w, n);
      var i := Plus(Unoffset(w, n), starts);
      InWindowIsInside(d, starts, limits, Unoffset(w, n));
      OffsetBound(d, i);
      assert Copied(d, v, starts, limits, r, i);
    }
  }

  // ----- where consecutive cells are the right cells -----

  predicate Within(w: Dims, s: Dims) {
    |w| == |s| && forall k | 0 <= k < |s| :: w[k] <= s[k]
  }

  lemma {:induction false} ProductWithin(w: Dims, s: Dims)
    requires Within(w, s)
    ensures Product(w) <= Product(s)
    ensures w != s && Product(w) > 0 ==> Product(w) < Product(s)
  {
    if s != [] {
      ProductWithin(w[1..], s[1..]);
      assert w == [w[0]] + w[1..] && s == [s[0]] + s[1..];
      ProductLess(w[0], s[0], Product(w[1..]), Product(s[1..]));
    }
  }

  lemma ProductLess(a: nat, b: nat, x: nat, y: nat)
    requires a <= b && x <= y
    ensures a * x <= b * y
    ensures a * x > 0 ==> a > 0 && x > 0 && (a < b || x < y ==> a * x < b * y)
  {
    MulMono(a, b, x);
    assert b * x <= b * y;
    if a * x > 0 {
      if a < b {
        MulMono(a + 1, b, x);
      } else if x < y {
        assert b * (x + 1) <= b * y;
      }
    }
  }

  /** Cut back to `w` in front only: every dimension behind the first of size over 1 is whole. */
  predicate Contiguous(s: Dims, w: Dims)
    requires |s| == |w|
  {
    s == [] || w[1..] == s[1..] || (w[0] <= 1 && Contiguous(s[1..], w[1..]))
  }

  lemma {:induction false} SamePlace(s: Dims, w: Dims, j: Dims)
    requires |s| == |w| && Contiguous(s, w) && InBounds(j, w)
    ensures Offset(s, j) == Offset(w, j)
  {
    if s != [] && w[1..] != s[1..] {
      SamePlace(s[1..], w[1..], j[1..]);
    }
  }

  lemma {:induction false} WrongPlace(s: Dims, w: Dims) returns (j: Dims)
    requires Within(w, s) && Product(w) > 0 && !Contiguous(s, w)
    ensures InBounds(j, w) && Offset(s, j) != Offset(w, j)
  {
    ProductPositive(w);
    ProductPositive(w[1..]);
    if w[0] <= 1 {
      var t := WrongPlace(s[1..], w[1..]);
      j := [0] + t;
      assert j[1..] == t;
    } else {
      j := [1] + Zeros(|s| - 1);
      assert j[1..] == Zeros(|s| - 1);
      OffsetZeros(s[1..]);
      OffsetZeros(w[1..]);
      ProductWithin(w[1..], s[1..]);
    }
  }

  // ----- exactly when a slice or an update is right -----

  ghost function Repeat<T>(n: nat, x: T): (r: seq<T>)
    ensures |r| == n
  {
    seq(n, _ => x)
  }

  /** What slicing with a value for the cells outside leaves. */
  ghost function SliceResult<T>(d: Dims, v: seq<T>, starts: Dims, limits: Dims, outside: T): (r: seq<T>)
    requires |d| == |starts| == |limits| && |v| == Product(d) && forall k | 0 <= k < |d| :: starts[k] <= limits[k]
    ensures |r| == Product(Minus(limits, starts))
  {
    ProductWithin(Window(d, starts, limits), Minus(limits, starts));
    Sliced(d, v, starts, limits) + Repeat(Product(Minus(limits, starts)) - Product(Window(d, starts, limits)), outside)
  }

  /** What a slice should hold at index `j`. */
  ghost predicate SliceCellRight<T>(d: Dims, v: seq<T>, starts: Dims, limits: Dims, r: seq<T>, outside: T, j: Dims)
    requires |d| == |starts| == |limits| == |j| && |v| == Product(d)
  {
    var at, i := Offset(Minus(limits, starts), j), Plus(j, starts);
    at < |r| && if InBounds(i, d) then Offset(d, i) < |v| && r[at] == v[Offset(d, i)] else r[at] == outside
  }

  ghost predicate SliceRight<T>(d: Dims, v: seq<T>, starts: Dims, limits: Dims, r: seq<T>, outside: T)
    requires |d| == |starts| == |limits| && |v| == Product(d)
  {
    forall j {:trigger SliceCellRight(d, v, starts, limits, r, outside, j)} |
      InBounds(j, Minus(limits, starts)) :: SliceCellRight(d, v, starts, limits, r, outside, j)
  }

  lemma InWindowIff(d: Dims, starts: Dims, limits: Dims, j: Dims)
    requires |d| == |starts| == |limits| && InBounds(j, Minus(limits, starts))
    ensures InBounds(j, Window(d, starts, limits)) <==> InBounds(Plus(j, starts), d)
  {
  }

  /** A contiguous window is sliced right. */
  lemma ContiguousRight<T>(d: Dims, v: seq<T>, starts: Dims, limits: Dims, outside: T)
    requires |d| == |starts| == |limits| && |v| == Product(d) && forall k | 0 <= k < |d| :: starts[k] <= limits[k]
    requires var w := Window(d, starts, limits); Product(w) == 0 || Contiguous(Minus(limits, starts), w)
    ensures SliceRight(d, v, starts, limits, SliceResult(d, v, starts, limits, outside), outside)
  {
    var s, w, r := Minus(limits, starts), Window(d, starts, limits), SliceResult(d, v, starts, limits, outside);
    forall j | InBounds(j, s) ensures SliceCellRight(d, v, starts, limits, r, outside, j) {
      OffsetBound(s, j);
      InWindowIff(d, starts, limits, j);
      if InBounds(j, w) {
        OffsetBound(w, j);
        SamePlace(s, w, j);
        SlicedAt(d, v, starts, limits, j);
      } else if Offset(s, j) < Product(w) {
        ProductPositive(w);
        var j' := Unoffset(w, Offset(s, j));
        OffsetUnoffset(w, Offset(s, j));
        SamePlace(s, w, j');
        OffsetInjective(s, j, j');
      }
    }
  }

  ghost function Marked<T>(n: nat, k: nat, mark: T, other: T): (r: seq<T>)
    ensures |r| == n
  {
    seq(n, x => if x == k then mark else other)
  }

  /** A window that is not contiguous is sliced wrong for some contents. */
  lemma ScatteredWrong<T>(d: Dims, starts: Dims, limits: Dims, mark: T, outside: T) returns (v: seq<T>)
    requires |d| == |starts| == |limits| && forall k | 0 <= k < |d| :: starts[k] <= limits[k]
    requires var w := Window(d, starts, limits); Product(w) > 0 && !Contiguous(Minus(limits, starts), w)
    requires mark != outside
    ensures |v| == Product(d) && !SliceRight(d, v, starts, limits, SliceResult(d, v, starts, limits, outside), outside)
  {
    var s, w := Minus(limits, starts), Window(d, starts, limits);
    var j := WrongPlace(s, w);
    var i := Plus(j, starts);
    InWindowIsInside(d, starts, limits, j);
    OffsetBound(d, i);
    v := Marked(Product(d), Offset(d, i), mark, outside);
    var r, at := SliceResult(d, v, starts, limits, outside), Offset(s, j);
    OffsetBound(s, j);
    if at < Product(w) {
      ProductPositive(w);
      OffsetUnoffset(w, at);
      var j' := Unoffset(w, at);
      SlicedAt(d, v, starts, limits, j');
      InWindowIsInside(d, starts, limits, j');
      if Offset(d, Plus(j', starts)) == Offset(d, i) {
        OffsetInjective(d, Plus(j', starts), i);
      }
    }
    assert r[at] == outside;
    assert !SliceCellRight(d, v, starts, limits, r, outside, j);
  }

  /** Slicing is right for all contents exactly if the part of the window within the array is empty or
      contiguous in the result. */
  lemma SliceExact<T(!new)>(d: Dims, starts: Dims, limits: Dims, mark: T, outside: T)
    requires |d| == |starts| == |limits| && mark != outside && forall k | 0 <= k < |d| :: starts[k] <= limits[k]
    ensures var w := Window(d, starts, limits);
      (forall v: seq<T> | |v| == Product(d) :: SliceRight(d, v, starts, limits, SliceResult(d, v, starts, limits, outside), outside))
      <==> Product(w) == 0 || Contiguous(Minus(limits, starts), w)
  {
    var w := Window(d, starts, limits);
    if Product(w) == 0 || Contiguous(Minus(limits, starts), w) {
      forall v: seq<T> | |v| == Product(d)
        ensures SliceRight(d, v, starts, limits, SliceResult(d, v, starts, limits, outside), outside)
      {
        ContiguousRight(d, v, starts, limits, outside);
      }
    } else {
      var v := ScatteredWrong(d, starts, limits, mark, outside);
    }
  }

  lemma {:induction false} ContiguousSame(s: Dims)
    ensures Contiguous(s, s)
  {
    if s != [] {
      assert s[1..] == s[1..];
    }
  }

  /** With limits within the array the slice is always right. */
  lemma SliceWithin<T>(d: Dims, v: seq<T>, starts: Dims, limits: Dims, outside: T)
    requires |d| == |starts| == |limits| && |v| == Product(d)
    requires forall k | 0 <= k < |d| :: starts[k] <= limits[k] <= d[k]
    ensures SliceRight(d, v, starts, limits, Sliced(d, v, starts, limits), outside)
  {
    assert Window(d, starts, limits) == Minus(limits, starts);
    ContiguousSame(Minus(limits, starts));
    ContiguousRight(d, v, starts, limits, outside);
    assert SliceResult(d, v, starts, limits, outside) == Sliced(d, v, starts, limits);
  }

  /** The cells of a slice with limits within the array, by their indices. */
  lemma SliceMeaning<T>(d: Dims, v: seq<T>, starts: Dims, limits: Dims)
    requires |d| == |starts| == |limits| && |v| == Product(d)
    requires forall k | 0 <= k < |d| :: starts[k] <= limits[k] <= d[k]
    ensures forall j {:trigger InBounds(j, Minus(limits, starts))} | InBounds(j, Minus(limits, starts)) ::
              var from, to := Offset(d, Plus(j, starts)), Offset(Minus(limits, starts), j);
              from < |v| && to < |Sliced(d, v, starts, limits)| && Sliced(d, v, starts, limits)[to] == v[from]
  {
    assert Window(d, starts, limits) == Minus(limits, starts);
    forall j | InBounds(j, Minus(limits, starts))
      ensures var from, to := Offset(d, Plus(j, starts)), Offset(Minus(limits, starts), j);
        from < |v| && to < |Sliced(d, v, starts, limits)| && Sliced(d, v, starts, limits)[to] == v[from]
    {
      SlicedAt(d, v, starts, limits, j);
      OffsetBound(Minus(limits, starts), j);
      OffsetBound(d, Plus(j, starts));
    }
  }

  // ----- updates -----

  /** The updated array holds `u`, of shape `s`, in the window at `starts`, and `v` elsewhere. */
  ghost predicate UpdateRight<T>(d: Dims, v: seq<T>, starts: Dims, s: Dims, u: seq<T>, r: seq<T>)
    requires |d| == |starts| == |s|
  {
    forall i {:trigger UpdateCellRight(d, v, starts, s, u, r, i)} | InBounds(i, d) :: UpdateCellRight(d, v, starts, s, u, r, i)
  }

  ghost predicate UpdateCellRight<T>(d: Dims, v: seq<T>, starts: Dims, s: Dims, u: seq<T>, r: seq<T>, i: Dims)
    requires |d| == |starts| == |s| == |i|
  {
    var at, from := Offset(d, i), Offset(s, Minus(i, starts));
    && at < |r| && at < |v|
    && if Inside(i, starts, Plus(s, starts)) then from < |u| && r[at] == u[from] else r[at] == v[at]
  }

  lemma UpdatedAt<T>(d: Dims, v: seq<T>, starts: Dims, limits: Dims, u: seq<T>, i: Dims)
    requires |d| == |starts| == |limits| && |v| == Product(d) && |u| >= Product(Window(d, starts, limits)) && InBounds(i, d)
    ensures Offset(d, i) < |v|
    ensures !Inside(i, starts, limits) ==> Updated(d, v, starts, limits, u)[Offset(d, i)] == v[Offset(d, i)]
    ensures Inside(i, starts, limits) ==>
              var from := Offset(Window(d, starts, limits), Minus(i, starts));
              from < |u| && Updated(d, v, starts, limits, u)[Offset(d, i)] == u[from]
  {
    OffsetBound(d, i);
    UnoffsetOffset(d, i);
    if Inside(i, starts, limits) {
      InsideIsInWindow(d, starts, limits, i);
      OffsetBound(Window(d, starts, limits), Minus(i, starts));
    }
  }

  lemma UpdateWithin<T>(d: Dims, v: seq<T>, starts: Dims, s: Dims, u: seq<T>)
    requires |d| == |starts| == |s| && |v| == Product(d) && |u| == Product(s)
    requires var w := Window(d, starts, Plus(s, starts)); Product(w) == 0 || Contiguous(s, w)
    ensures |u| >= Product(Window(d, starts, Plus(s, starts)))
    ensures UpdateRight(d, v, starts, s, u, Updated(d, v, starts, Plus(s, starts), u))
  {
    var limits := Plus(s, starts);
    var w := Window(d, starts, limits);
    ProductWithin(w, s);
    forall i | InBounds(i, d) ensures UpdateCellRight(d, v, starts, s, u, Updated(d, v, starts, limits, u), i) {
      UpdatedAt(d, v, starts, limits, u, i);
      if Inside(i, starts, limits) {
        InsideIsInWindow(d, starts, limits, i);
        OffsetBound(w, Minus(i, starts));
        SamePlace(s, w, Minus(i, starts));
      }
    }
  }

  /** An update is right for all contents exactly if the part of the window within the array is empty
      or contiguous in `from`. */
  lemma UpdateExact<T(!new)>(d: Dims, starts: Dims, s: Dims, mark: T, other: T)
    requires |d| == |starts| == |s| && mark != other
    ensures var w := Window(d, starts, Plus(s, starts));
      && Product(w) <= Product(s)
      && ((forall v: seq<T>, u: seq<T> | |v| == Product(d) && |u| == Product(s) ::
             UpdateRight(d, v, starts, s, u, Updated(d, v, starts, Plus(s, starts), u)))
          <==> Product(w) == 0 || Contiguous(s, w))
  {
    var limits := Plus(s, starts);
    var w := Window(d, starts, limits);
    ProductWithin(w, s);
    if Product(w) == 0 || Contiguous(s, w) {
      forall v: seq<T>, u: seq<T> | |v| == Product(d) && |u| == Product(s)
        ensures UpdateRight(d, v, starts, s, u, Updated(d, v, starts, limits, u))
      {
        UpdateWithin(d, v, starts, s, u);
      }
    } else {
      var j := WrongPlace(s, w);
      var i := Plus(j, starts);
      InWindowIsInside(d, starts, limits, j);
      OffsetBound(s, j);
      var v, u := Repeat(Product(d), other), Marked(Product(s), Offset(s, j), mark, other);
      UpdatedAt(d, v, starts, limits, u, i);
      assert !UpdateCellRight(d, v, starts, s, u, Updated(d, v, starts, limits, u), i);
    }
  }

  /** The cells after an update whose window is within the array, by their indices. */
  lemma UpdateMeaning<T>(d: Dims, v: seq<T>, starts: Dims, s: Dims, u: seq<T>)
    requires |d| == |starts| == |s| && |v| == Product(d) && |u| == Product(s)
    requires forall k | 0 <= k < |d| :: starts[k] + s[k] <= d[k]
    ensures |u| >= Product(Window(d, starts, Plus(s, starts)))
    ensures forall j {:trigger InBounds(j, s)} | InBounds(j, s) ::
              var from, to := Offset(s, j), Offset(d, Plus(j, starts));
              from < |u| && to < |v| && Updated(d, v, starts, Plus(s, starts), u)[to] == u[from]
    ensures forall i {:trigger InBounds(i, d)} |
              InBounds(i, d) && (exists k :: 0 <= k < |i| && !(starts[k] <= i[k] < starts[k] + s[k])) ::
              Offset(d, i) < |v| && Updated(d, v, starts, Plus(s, starts), u)[Offset(d, i)] == v[Offset(d, i)]
  {
    var limits := Plus(s, starts);
    assert Window(d, starts, limits) == s;
    forall j | InBounds(j, s)
      ensures var from, to := Offset(s, j), Offset(d, Plus(j, starts));
        from < |u| && to < |v| && Updated(d, v, starts, limits, u)[to] == u[from]
    {
      assert Minus(Plus(j, starts), starts) == j;
      UpdatedAt(d, v, starts, limits, u, Plus(j, starts));
    }
    forall i | InBounds(i, d) && exists k :: 0 <= k < |i| && !(starts[k] <= i[k] < starts[k] + s[k])
      ensures Offset(d, i) < |v| && Updated(d, v, starts, limits, u)[Offset(d, i)] == v[Offset(d, i)]
    {
      UpdatedAt(d, v, starts, limits, u, i);
    }
  }
}
