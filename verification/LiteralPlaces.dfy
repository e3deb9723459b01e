/** Where the parts of a serialized piece stand: a description of the bytes by position alone. */
module LiteralPlaces {
  import opened Arithmetic
  import opened Radix
  import opened LiteralFormat

  // ----- the description -----

  /** Byte `b` of element `k`, of `n` bytes each from `at` on, counts the powers 256^b. */
  predicate WordByteAt(bs: seq<Byte>, at: nat, es: seq<nat>, n: nat, k: nat, b: nat)
    requires k < |es|
  {
    at + n * k + b < |bs| && bs[at + n * k + b] == (es[k] / Pow(256, b)) % 256
  }

  predicate WordsAt(bs: seq<Byte>, at: nat, es: seq<nat>, n: nat) {
    forall k, b | 0 <= k < |es| && 0 <= b < n :: WordByteAt(bs, at, es, n, k, b)
  }

  /** Element `k`, of `w` bits each from byte `at` on, the first in the least significant bits. */
  predicate BitsAt(bs: seq<Byte>, at: nat, es: seq<nat>, w: nat, k: nat)
    requires 0 < w <= 8 && k < |es|
  {
    var per := 8 / w;
    at + k / per < |bs| && (bs[at + k / per] / Pow(Pow(2, w), k % per)) % Pow(2, w) == es[k]
  }

  predicate ElementsAt(t: ElementType, bs: seq<Byte>, at: nat, es: seq<nat>)
    requires t.Valid()
  {
    match t
    case SubByte(w) => forall k | 0 <= k < |es| :: BitsAt(bs, at, es, w, k)
    case Whole(n) => WordsAt(bs, at, es, n)
  }

  /** The bytes that so many elements take. */
  function Length(t: ElementType, count: nat): nat
    requires t.Valid()
  {
    match t
    case SubByte(w) => var per := 8 / w; (count + per - 1) / per
    case Whole(n) => n * count
  }

  /** The bytes of a piece: 4 for each dynamic size, then the elements; for a tuple those of its parts. */
  function Extent(shape: Shape, piece: Piece): nat
    requires Matches(shape, piece)
    decreases shape, if shape.TupleShape? then |shape.children| + 1 else 0
  {
    match shape
    case ArrayShape(t, _, _) => 4 * |piece.sizes| + Length(t, |piece.elements|)
    case TupleShape(cs) => ExtentTo(shape, piece, |cs|)
    case OtherShape => 0
  }

  function ExtentTo(shape: Shape, piece: Piece, n: nat): nat
    requires shape.TupleShape? && n <= |shape.children| && Matches(shape, piece)
    decreases shape, n
  {
    if n == 0 then 0 else ExtentTo(shape, piece, n - 1) + Extent(shape.children[n - 1], piece.children[n - 1])
  }

  /** The piece stands at byte `at`: dynamic sizes first, elements behind them, and each part of a tuple
      behind the parts before it. */
  predicate WrittenAt(shape: Shape, piece: Piece, bs: seq<Byte>, at: nat)
    requires Matches(shape, piece)
    decreases shape, 1
  {
    match shape
    case ArrayShape(t, _, _) =>
      WordsAt(bs, at, piece.sizes, 4) && ElementsAt(t, bs, at + 4 * |piece.sizes|, piece.elements)
    case TupleShape(cs) =>
      forall n | 0 <= n < |cs| :: ChildAt(shape, piece, bs, at, n)
    case OtherShape => true
  }

  predicate ChildAt(shape: Shape, piece: Piece, bs: seq<Byte>, at: nat, n: nat)
    requires shape.TupleShape? && Matches(shape, piece) && n < |shape.children|
    decreases shape, 0
  {
    WrittenAt(shape.children[n], piece.children[n], bs, at + ExtentTo(shape, piece, n))
  }

  // ----- what is written fits it -----

  /** These bytes stand at byte `at`. */
  predicate Stands(data: seq<Byte>, bs: seq<Byte>, at: nat) {
    at + |data| <= |bs| && bs[at..at + |data|] == data
  }

  lemma StandsAt(data: seq<Byte>, bs: seq<Byte>, at: nat, k: nat)
    requires Stands(data, bs, at) && k < |data|
    ensures at + k < |bs| && bs[at + k] == data[k]
  {
    assert bs[at..at + |data|][k] == bs[at + k];
  }

  lemma {:induction false} WholeSizeIs(n: nat, count: nat)
    ensures WholeSize(n, count) == n * count
  {
    if count > 0 {
      WholeSizeIs(n, count - 1);
      assert n * count == n * (count - 1) + n;
    }
  }

  lemma {:induction false} PackedSizeIs(per: nat, count: nat)
    requires per > 0
    ensures PackedSize(per, count) == (count + per - 1) / per
    decreases count
  {
    if count == 0 {
      DivModUnique(0, per - 1, per);
    } else if count < per {
      assert PackedSize(per, 0) == 0;
      DivModUnique(1, count - 1, per);
    } else {
      PackedSizeIs(per, count - per);
      var q, r := DivMod(count - 1, per);
      DivModUnique(q + 1, r, per);
      assert (q + 1) * per + r == count - 1 + per;
    }
  }

  lemma {:induction false} CountBytesIs(t: ElementType, count: nat)
    requires t.Valid()
    ensures CountBytes(t, count) == Length(t, count)
  {
    match t
    case SubByte(w) => PackedSizeIs(PerByte(w), count);
    case Whole(n) => WholeSizeIs(n, count);
  }

  lemma {:induction false} WordsWritten(bs: seq<Byte>, at: nat, es: seq<nat>, n: nat)
    requires Stands(LittleEndian(n, es), bs, at)
    ensures WordsAt(bs, at, es, n)
  {
    forall k, b | 0 <= k < |es| && 0 <= b < n ensures WordByteAt(bs, at, es, n, k, b) {
      LittleEndianAt(n, es, k, b);
      WholeSizeIs(n, k);
      StandsAt(LittleEndian(n, es), bs, at, n * k + b);
    }
  }

  lemma {:induction false} BitsWritten(bs: seq<Byte>, at: nat, es: seq<nat>, w: nat)
    requires (w == 1 || w == 2 || w == 4) && FillsByte(Pow(2, w), PerByte(w)) && Below(es, Pow(2, w))
    requires Stands(Pack(Pow(2, w), PerByte(w), es), bs, at)
    ensures forall k | 0 <= k < |es| :: BitsAt(bs, at, es, w, k)
  {
    forall k | 0 <= k < |es| ensures BitsAt(bs, at, es, w, k) {
      BitWritten(bs, at, es, w, k);
    }
  }

  lemma {:induction false} BitWritten(bs: seq<Byte>, at: nat, es: seq<nat>, w: nat, k: nat)
    requires (w == 1 || w == 2 || w == 4) && FillsByte(Pow(2, w), PerByte(w)) && Below(es, Pow(2, w)) && k < |es|
    requires Stands(Pack(Pow(2, w), PerByte(w), es), bs, at)
    ensures BitsAt(bs, at, es, w, k)
  {
    var per := PerByte(w);
    assert per == 8 / w;
    var q, r := DivMod(k, per);
    PackedAt(Pow(2, w), per, es, q, r, k);
    StandsAt(Pack(Pow(2, w), per, es), bs, at, q);
  }

  lemma {:induction false} ElementsWritten(t: ElementType, bs: seq<Byte>, at: nat, es: seq<nat>)
    requires t.Valid() && Below(es, t.Bound())
    requires Stands(ElementBytes(t, es), bs, at)
    ensures |ElementBytes(t, es)| == Length(t, |es|) && ElementsAt(t, bs, at, es)
  {
    ReadElements(t, es);
    CountBytesIs(t, |es|);
    match t
    case SubByte(w) => BitsFillByte(w); BitsWritten(bs, at, es, w);
    case Whole(n) => WordsWritten(bs, at, es, n);
  }

  /** The bytes of a piece, wherever they are, put its parts where they belong. */
  lemma {:induction false} PieceWritten(shape: Shape, piece: Piece, bs: seq<Byte>, at: nat)
    requires Matches(shape, piece)
    requires Stands(PieceBytes(shape, piece), bs, at)
    ensures |PieceBytes(shape, piece)| == Extent(shape, piece) && WrittenAt(shape, piece, bs, at)
    decreases shape, if shape.TupleShape? then |shape.children| + 1 else 0
  {
    match shape
    case OtherShape =>
    case ArrayShape(t, _, _) =>
      ArrayPieceWritten(shape, piece, bs, at);
    case TupleShape(cs) =>
      ChildrenWritten(shape, piece, |cs|, bs, at);
  }

  lemma {:induction false} ArrayPieceWritten(shape: Shape, piece: Piece, bs: seq<Byte>, at: nat)
    requires shape.ArrayShape? && Matches(shape, piece) && Stands(PieceBytes(shape, piece), bs, at)
    ensures |PieceBytes(shape, piece)| == Extent(shape, piece) && WrittenAt(shape, piece, bs, at)
  {
    ArrayWritten(shape.elementType, piece.sizes, piece.elements, bs, at);
  }

  lemma {:induction false} ArrayWritten(t: ElementType, sizes: seq<nat>, elements: seq<nat>, bs: seq<Byte>, at: nat)
    requires t.Valid() && Below(elements, t.Bound()) && Below(sizes, Pow(256, SIZE_BYTES))
    requires Stands(ElementBytes(SizeType, sizes) + ElementBytes(t, elements), bs, at)
    ensures |ElementBytes(SizeType, sizes) + ElementBytes(t, elements)| == 4 * |sizes| + Length(t, |elements|)
    ensures WordsAt(bs, at, sizes, 4) && ElementsAt(t, bs, at + 4 * |sizes|, elements)
  {
    var a, b := ElementBytes(SizeType, sizes), ElementBytes(t, elements);
    Halves(bs, at, a, b);
    ElementsWritten(SizeType, bs, at, sizes);
    ElementsWritten(t, bs, at + |a|, elements);
  }

  lemma {:induction false} Halves(bs: seq<Byte>, at: nat, a: seq<Byte>, b: seq<Byte>)
    requires Stands(a + b, bs, at)
    ensures Stands(a, bs, at) && Stands(b, bs, at + |a|)
  {
    assert (a + b)[..|a|] == a && (a + b)[|a|..] == b;
    assert bs[at..at + |a + b|][..|a|] == bs[at..at + |a|];
    assert bs[at..at + |a + b|][|a|..] == bs[at + |a|..at + |a| + |b|];
  }

  lemma {:induction false} ChildrenWritten(shape: Shape, piece: Piece, n: nat, bs: seq<Byte>, at: nat)
    requires shape.TupleShape? && n <= |shape.children| && Matches(shape, piece)
    requires Stands(ChildrenBytes(shape, piece, n), bs, at)
    ensures |ChildrenBytes(shape, piece, n)| == ExtentTo(shape, piece, n)
    ensures forall k | 0 <= k < n :: ChildAt(shape, piece, bs, at, k)
    decreases shape, n
  {
    if n > 0 {
      var a, b := ChildrenBytes(shape, piece, n - 1), PieceBytes(shape.children[n - 1], piece.children[n - 1]);
      Halves(bs, at, a, b);
      ChildrenWritten(shape, piece, n - 1, bs, at);
      PieceWritten(shape.children[n - 1], piece.children[n - 1], bs, at + |a|);
      assert ChildAt(shape, piece, bs, at, n - 1);
    }
  }

  /** A serialized literal: the length of the shape in 8 bytes, the shape, the piece. */
  lemma {:induction false} LiteralWritten(shapeBytes: seq<Byte>, shape: Shape, piece: Piece)
    requires Matches(shape, piece) && Serializable(shape)
    ensures var bs := Serialized(shapeBytes, shape, piece);
      && |bs| == 8 + |shapeBytes| + Extent(shape, piece)
      && (forall b | 0 <= b < 8 :: bs[b] == (|shapeBytes| / Pow(256, b)) % 256)
      && bs[8..8 + |shapeBytes|] == shapeBytes
      && WrittenAt(shape, piece, bs, 8 + |shapeBytes|)
  {
    var bs := Serialized(shapeBytes, shape, piece);
    var header, data := Digits(256, |shapeBytes|, 8), PieceBytes(shape, piece);
    assert bs == header + shapeBytes + data;
    var at := 8 + |shapeBytes|;
    assert bs[at..at + |data|] == data;
    PieceWritten(shape, piece, bs, at);
    forall b | 0 <= b < 8 ensures bs[b] == (|shapeBytes| / Pow(256, b)) % 256 {
      DigitAt(256, |shapeBytes|, 8, b);
    }
  }
}
