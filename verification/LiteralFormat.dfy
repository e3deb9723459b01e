/** The native serialization format of literals: what the bytes are, and what they stand for. */
module LiteralFormat {
  import opened Radix
  import opened Options
  import RowMajor

  type Byte = x: nat | x < 256

  /** Element types by storage: 1, 2 or 4 bits, or whole bytes. */
  datatype ElementType = SubByte(bits: nat) | Whole(bytes: nat) {
    predicate Valid() {
      match this
      case SubByte(w) => w == 1 || w == 2 || w == 4
      case Whole(n) => n > 0
    }

    /** Element values are bit patterns below this. */
    function Bound(): nat {
      match this
      case SubByte(w) => Pow(2, w)
      case Whole(n) => Pow(256, n)
    }
  }

  datatype Shape =
    | ArrayShape(elementType: ElementType, dimensions: seq<nat>, isDynamic: bool)
    | TupleShape(children: seq<Shape>)
    | OtherShape

  datatype Piece = ArrayPiece(sizes: seq<nat>, elements: seq<nat>) | TuplePiece(children: seq<Piece>)

  const SIZE_BYTES: nat := 4 // of one dynamic dimension size
  const HEADER_BYTES: nat := 8 // of the length of the shape

  /** The piece holds data for the shape; what cannot be serialized holds anything. */
  predicate Matches(shape: Shape, piece: Piece)
    decreases shape
  {
    match shape
    case ArrayShape(t, dims, dynamic) =>
      && t.Valid() && piece.ArrayPiece?
      && |piece.elements| == RowMajor.Product(dims) && Below(piece.elements, t.Bound())
      && |piece.sizes| == (if dynamic then |dims| else 0) && Below(piece.sizes, Pow(256, SIZE_BYTES))
    case TupleShape(cs) =>
      piece.TuplePiece? && |piece.children| == |cs| && forall k | 0 <= k < |cs| :: Matches(cs[k], piece.children[k])
    case OtherShape => true
  }

  predicate Serializable(shape: Shape)
    decreases shape
  {
    match shape
    case ArrayShape(t, _, _) => t.Valid()
    case TupleShape(cs) => forall k | 0 <= k < |cs| :: Serializable(cs[k])
    case OtherShape => false
  }

  // ----- sequences -----

  lemma Assoc<T>(a: seq<T>, b: seq<T>, c: seq<T>)
    ensures (a + b) + c == a + (b + c)
  {
  }

  lemma JoinSlices<T>(s: seq<T>, from: nat, cut: nat, to: nat)
    requires from <= cut <= to <= |s|
    ensures s[from..to] == s[from..cut] + s[cut..to]
  {
  }

  lemma WholeTail<T>(s: seq<T>, from: nat)
    requires from <= |s|
    ensures s[from..|s|] == s[from..]
  {
  }

  lemma TakeOneMore<T>(s: seq<T>, n: nat)
    requires n < |s|
    ensures s[..n + 1] == s[..n] + [s[n]]
  {
  }

  // ----- elements -----

  function PerByte(w: nat): (n: nat)
    requires w == 1 || w == 2 || w == 4
    ensures n > 0
  {
    if w == 1 then 8 else if w == 2 then 4 else 2
  }

  /** `per` digits in this base fill a byte. */
  predicate FillsByte(base: nat, per: nat) {
    base > 0 && per > 0 && Pow(base, per) == 256
  }

  lemma BitsFillByte(w: nat)
    requires w == 1 || w == 2 || w == 4
    ensures FillsByte(Pow(2, w), PerByte(w))
  {
    assert Pow(2, 1) == 2 && Pow(2, 2) == 4 && Pow(2, 3) == 8 && Pow(2, 4) == 16;
    assert Pow(2, 5) == 32 && Pow(2, 6) == 64 && Pow(2, 7) == 128;
    assert Pow(4, 1) == 4 && Pow(4, 2) == 16 && Pow(4, 3) == 64 && Pow(16, 1) == 16;
  }

  /** The number of elements in the next byte. */
  function Take(per: nat, count: nat): nat {
    if count < per then count else per
  }

  function PackedSize(per: nat, count: nat): nat
    requires per > 0
    decreases count
  {
    if count == 0 then 0 else 1 + PackedSize(per, count - Take(per, count))
  }

  function WholeSize(n: nat, count: nat): nat {
    if count == 0 then 0 else WholeSize(n, count - 1) + n
  }

  function CountBytes(t: ElementType, count: nat): nat
    requires t.Valid()
  {
    match t
    case SubByte(w) => PackedSize(PerByte(w), count)
    case Whole(n) => WholeSize(n, count)
  }

  lemma FitsByte(base: nat, per: nat, es: seq<nat>)
    requires FillsByte(base, per) && |es| <= per && Below(es, base)
    ensures Value(base, es) < 256
  {
    ValueBound(base, es);
    PowMono(base, |es|, per);
  }

  /** Elements packed into bytes, the first in the least significant bits; the last byte may be
      partly filled. */
  function Pack(base: nat, per: nat, es: seq<nat>): (bs: seq<Byte>)
    requires FillsByte(base, per) && Below(es, base)
    decreases |es|
  {
    var n := Take(per, |es|);
    if n == 0 then [] else
      FitsByte(base, per, es[..n]);
      [Value(base, es[..n])] + Pack(base, per, es[n..])
  }

  function Unpack(base: nat, per: nat, bs: seq<Byte>, count: nat): (es: seq<nat>)
    requires base > 0 && per > 0 && |bs| == PackedSize(per, count)
    ensures |es| == count
    decreases count
  {
    var n := Take(per, count);
    if n == 0 then [] else Digits(base, bs[0], n) + Unpack(base, per, bs[1..], count - n)
  }

  function LittleEndian(n: nat, es: seq<nat>): seq<Byte> {
    if es == [] then [] else
      var last := |es| - 1;
      DigitsBelow(256, es[last], n);
      LittleEndian(n, es[..last]) + Digits(256, es[last], n)
  }

  function FromLittleEndian(n: nat, bs: seq<Byte>, count: nat): (es: seq<nat>)
    requires |bs| == WholeSize(n, count)
    ensures |es| == count
    decreases count
  {
    if count == 0 then [] else
      var cut := WholeSize(n, count - 1);
      FromLittleEndian(n, bs[..cut], count - 1) + [Value(256, bs[cut..])]
  }

  lemma {:induction false} WholeSizeMono(n: nat, i: nat, count: nat)
    requires i <= count
    ensures WholeSize(n, i) <= WholeSize(n, count)
  {
    if i < count {
      WholeSizeMono(n, i, count - 1);
    }
  }

  /** Reading one more element moves it from the bytes to the elements read. */
  lemma NextPacked(base: nat, per: nat, es: seq<nat>, bs: seq<Byte>, from: nat, to: nat, count: nat)
    requires base > 0 && per > 0 && count > 0 && from <= to <= |bs| && to - from == PackedSize(per, count)
    ensures var n := Take(per, count);
      es + Unpack(base, per, bs[from..to], count)
      == (es + Digits(base, bs[from], n)) + Unpack(base, per, bs[from + 1..to], count - n)
  {
    var n := Take(per, count);
    assert bs[from..to][1..] == bs[from + 1..to];
    Assoc(es, Digits(base, bs[from], n), Unpack(base, per, bs[from + 1..to], count - n));
  }

  function ElementBytes(t: ElementType, es: seq<nat>): seq<Byte>
    requires t.Valid() && Below(es, t.Bound())
  {
    match t
    case SubByte(w) =>
      BitsFillByte(w);
      Pack(Pow(2, w), PerByte(w), es)
    case Whole(n) => LittleEndian(n, es)
  }

  function Elements(t: ElementType, bs: seq<Byte>, count: nat): (es: seq<nat>)
    requires t.Valid() && |bs| == CountBytes(t, count)
    ensures |es| == count
  {
    match t
    case SubByte(w) => Unpack(Pow(2, w), PerByte(w), bs, count)
    case Whole(n) => FromLittleEndian(n, bs, count)
  }

  lemma {:induction false} UnpackPack(base: nat, per: nat, es: seq<nat>)
    requires FillsByte(base, per) && Below(es, base)
    ensures |Pack(base, per, es)| == PackedSize(per, |es|)
    ensures Unpack(base, per, Pack(base, per, es), |es|) == es
    decreases |es|
  {
    if es != [] {
      var n := Take(per, |es|);
      UnpackPack(base, per, es[n..]);
      DigitsOfValue(base, es[..n]);
      assert es == es[..n] + es[n..];
    }
  }

  lemma {:induction false} ReadLittleEndian(n: nat, es: seq<nat>)
    requires Below(es, Pow(256, n))
    ensures |LittleEndian(n, es)| == WholeSize(n, |es|)
    ensures FromLittleEndian(n, LittleEndian(n, es), |es|) == es
  {
    if es != [] {
      var last := |es| - 1;
      ReadLittleEndian(n, es[..last]);
      ValueOfDigits(256, es[last], n);
      var a, b := LittleEndian(n, es[..last]), Digits(256, es[last], n);
      assert (a + b)[..|a|] == a && (a + b)[|a|..] == b;
    }
  }

  /** Elements survive the trip through their bytes. */
  lemma ReadElements(t: ElementType, es: seq<nat>)
    requires t.Valid() && Below(es, t.Bound())
    ensures |ElementBytes(t, es)| == CountBytes(t, |es|)
    ensures Elements(t, ElementBytes(t, es), |es|) == es
  {
    match t
    case SubByte(w) => BitsFillByte(w); UnpackPack(Pow(2, w), PerByte(w), es);
    case Whole(n) => ReadLittleEndian(n, es);
  }

  /** Where a packed element sits: with `per` elements a byte, element `q * per + r` is digit `r` of
      byte `q`, counted from the least significant bits. */
  lemma {:induction false} PackedAt(base: nat, per: nat, es: seq<nat>, q: nat, r: nat, i: nat)
    requires FillsByte(base, per) && Below(es, base) && r < per && i == q * per + r && i < |es|
    ensures q < |Pack(base, per, es)| && DigitOf(base, Pack(base, per, es)[q], r) == es[i]
    decreases q
  {
    if q == 0 {
      PackedFirst(base, per, es, r);
    } else {
      EarlierByte(q, per);
      PackedAt(base, per, es[per..], q - 1, r, i - per);
    }
  }

  lemma PackedFirst(base: nat, per: nat, es: seq<nat>, r: nat)
    requires FillsByte(base, per) && Below(es, base) && r < per && r < |es|
    ensures |Pack(base, per, es)| > 0 && DigitOf(base, Pack(base, per, es)[0], r) == es[r]
  {
    var n := Take(per, |es|);
    DigitAt(base, Value(base, es[..n]), n, r);
    DigitsOfValue(base, es[..n]);
  }

  lemma EarlierByte(q: nat, per: nat)
    requires q > 0
    ensures q * per == (q - 1) * per + per
  {
  }

  /** Where a byte of a whole-byte element sits: least significant first. */
  lemma {:induction false} LittleEndianAt(n: nat, es: seq<nat>, i: nat, k: nat)
    requires i < |es| && k < n
    ensures WholeSize(n, i) + k < |LittleEndian(n, es)|
    ensures LittleEndian(n, es)[WholeSize(n, i) + k] == DigitOf(256, es[i], k)
    decreases |es|
  {
    var last := |es| - 1;
    LittleEndianSize(n, es[..last]);
    if i == last {
      DigitAt(256, es[last], n, k);
    } else {
      LittleEndianAt(n, es[..last], i, k);
    }
  }

  lemma {:induction false} LittleEndianSize(n: nat, es: seq<nat>)
    ensures |LittleEndian(n, es)| == WholeSize(n, |es|)
  {
    if es != [] {
      LittleEndianSize(n, es[..|es| - 1]);
    }
  }

  // ----- pieces -----

  predicate FirstSerializable(shape: Shape, n: nat) {
    shape.TupleShape? && n <= |shape.children| && forall k | 0 <= k < n :: Serializable(shape.children[k])
  }

  const SizeType := Whole(SIZE_BYTES)

  /** The number of data bytes of a shape. */
  function DataSize(shape: Shape): nat
    requires Serializable(shape)
    decreases shape, if shape.TupleShape? then |shape.children| + 1 else 0
  {
    match shape
    case ArrayShape(t, dims, dynamic) =>
      CountBytes(SizeType, if dynamic then |dims| else 0) + CountBytes(t, RowMajor.Product(dims))
    case TupleShape(cs) => ChildrenSize(shape, |cs|)
  }

  function ChildrenSize(shape: Shape, n: nat): nat
    requires FirstSerializable(shape, n)
    decreases shape, n
  {
    if n == 0 then 0 else ChildrenSize(shape, n - 1) + DataSize(shape.children[n - 1])
  }

  /** The data bytes: dynamic sizes, then elements; tuples depth first. */
  function PieceBytes(shape: Shape, piece: Piece): seq<Byte>
    requires Matches(shape, piece)
    decreases shape, if shape.TupleShape? then |shape.children| + 1 else 0
  {
    match shape
    case ArrayShape(t, dims, dynamic) =>
      ElementBytes(SizeType, piece.sizes) + ElementBytes(t, piece.elements)
    case TupleShape(cs) => ChildrenBytes(shape, piece, |cs|)
    case OtherShape => []
  }

  function ChildrenBytes(shape: Shape, piece: Piece, n: nat): seq<Byte>
    requires shape.TupleShape? && n <= |shape.children| && Matches(shape, piece)
    decreases shape, n
  {
    if n == 0 then [] else
      ChildrenBytes(shape, piece, n - 1) + PieceBytes(shape.children[n - 1], piece.children[n - 1])
  }

  /** What the data bytes of a shape stand for. */
  function PieceOf(shape: Shape, bs: seq<Byte>): Piece
    requires Serializable(shape) && |bs| == DataSize(shape)
    decreases shape, if shape.TupleShape? then |shape.children| + 1 else 0
  {
    match shape
    case ArrayShape(t, dims, dynamic) =>
      var n := if dynamic then |dims| else 0;
      var cut := CountBytes(SizeType, n);
      ArrayPiece(Elements(SizeType, bs[..cut], n), Elements(t, bs[cut..], RowMajor.Product(dims)))
    case TupleShape(cs) => TuplePiece(ChildrenOf(shape, bs, |cs|))
  }

  function ChildrenOf(shape: Shape, bs: seq<Byte>, n: nat): (ps: seq<Piece>)
    requires FirstSerializable(shape, n) && |bs| == ChildrenSize(shape, n)
    ensures |ps| == n
    decreases shape, n
  {
    if n == 0 then [] else
      var cut := ChildrenSize(shape, n - 1);
      ChildrenOf(shape, bs[..cut], n - 1) + [PieceOf(shape.children[n - 1], bs[cut..])]
  }

  lemma ChildAppended(shape: Shape, input: seq<Byte>, from: nat, cut: nat, to: nat, i: nat)
    requires FirstSerializable(shape, i + 1) && from <= cut <= to <= |input|
    requires cut == from + ChildrenSize(shape, i) && to == cut + DataSize(shape.children[i])
    ensures ChildrenOf(shape, input[from..to], i + 1)
            == ChildrenOf(shape, input[from..cut], i) + [PieceOf(shape.children[i], input[cut..to])]
  {
    JoinSlices(input, from, cut, to);
    JoinChild(shape, input[from..cut], input[cut..to], i + 1);
  }

  lemma JoinChild(shape: Shape, a: seq<Byte>, b: seq<Byte>, n: nat)
    requires n > 0 && FirstSerializable(shape, n)
    requires |a| == ChildrenSize(shape, n - 1) && |b| == DataSize(shape.children[n - 1])
    ensures ChildrenOf(shape, a + b, n) == ChildrenOf(shape, a, n - 1) + [PieceOf(shape.children[n - 1], b)]
  {
    assert (a + b)[..|a|] == a && (a + b)[|a|..] == b;
  }

  /** A piece survives the trip through its bytes. */
  lemma {:induction false} ReadPiece(shape: Shape, piece: Piece)
    requires Matches(shape, piece) && Serializable(shape)
    ensures |PieceBytes(shape, piece)| == DataSize(shape)
    ensures PieceOf(shape, PieceBytes(shape, piece)) == piece
    decreases shape, if shape.TupleShape? then |shape.children| + 1 else 0
  {
    match shape
    case ArrayShape(t, dims, dynamic) =>
      ReadElements(SizeType, piece.sizes);
      ReadElements(t, piece.elements);
      var a := ElementBytes(SizeType, piece.sizes);
      assert PieceBytes(shape, piece)[..|a|] == a;
    case TupleShape(cs) =>
      ReadChildren(shape, piece, |cs|);
  }

  lemma {:induction false} ReadChildren(shape: Shape, piece: Piece, n: nat)
    requires shape.TupleShape? && n <= |shape.children| && Matches(shape, piece) && Serializable(shape)
    ensures |ChildrenBytes(shape, piece, n)| == ChildrenSize(shape, n)
    ensures ChildrenOf(shape, ChildrenBytes(shape, piece, n), n) == piece.children[..n]
    decreases shape, n
  {
    if n > 0 {
      ReadChildren(shape, piece, n - 1);
      ReadPiece(shape.children[n - 1], piece.children[n - 1]);
      var a, b := ChildrenBytes(shape, piece, n - 1), PieceBytes(shape.children[n - 1], piece.children[n - 1]);
      JoinChild(shape, a, b, n);
      TakeOneMore(piece.children, n - 1);
    }
  }

  // ----- whole literals -----

  datatype Problem = NoShapeSize | NoShapeData | BadShape | UnsupportedShape | NoData | TrailingData

  datatype Result = Ok(shape: Shape, piece: Piece) | Err(problem: Problem)

  /** Reading a shape's data from `available` bytes: what is left, or the first problem met. */
  datatype Walked = Done(rest: nat) | Failed(problem: Problem)

  function Walk(shape: Shape, available: nat): Walked
    requires ValidTypes(shape)
    decreases shape, if shape.TupleShape? then |shape.children| + 1 else 0
  {
    match shape
    case ArrayShape(_, _, _) => if DataSize(shape) <= available then Done(available - DataSize(shape)) else Failed(NoData)
    case TupleShape(cs) => WalkChildren(shape, |cs|, available)
    case OtherShape => Failed(UnsupportedShape)
  }

  function WalkChildren(shape: Shape, n: nat, available: nat): Walked
    requires shape.TupleShape? && n <= |shape.children| && ValidTypes(shape)
    decreases shape, n
  {
    if n == 0 then Done(available) else
      var w := WalkChildren(shape, n - 1, available);
      if w.Done? then Walk(shape.children[n - 1], w.rest) else w
  }

  /** Every element type is one of the format's. */
  predicate ValidTypes(shape: Shape)
    decreases shape
  {
    match shape
    case ArrayShape(t, _, _) => t.Valid()
    case TupleShape(cs) => forall k | 0 <= k < |cs| :: ValidTypes(cs[k])
    case OtherShape => true
  }

  /** The walk succeeds exactly if every piece is supported and the data is there. */
  lemma {:induction false} WalkExact(shape: Shape, available: nat)
    requires ValidTypes(shape)
    ensures Walk(shape, available).Done? <==> Serializable(shape) && DataSize(shape) <= available
    ensures Serializable(shape) && DataSize(shape) <= available ==> Walk(shape, available) == Done(available - DataSize(shape))
    decreases shape, if shape.TupleShape? then |shape.children| + 1 else 0
  {
    if shape.TupleShape? {
      WalkChildrenExact(shape, |shape.children|, available);
    }
  }

  lemma {:induction false} WalkChildrenExact(shape: Shape, n: nat, available: nat)
    requires shape.TupleShape? && n <= |shape.children| && ValidTypes(shape)
    ensures WalkChildren(shape, n, available).Done? <==> FirstSerializable(shape, n) && ChildrenSize(shape, n) <= available
    ensures FirstSerializable(shape, n) && ChildrenSize(shape, n) <= available ==>
              WalkChildren(shape, n, available) == Done(available - ChildrenSize(shape, n))
    decreases shape, n
  {
    if n > 0 {
      WalkChildrenExact(shape, n - 1, available);
      var w := WalkChildren(shape, n - 1, available);
      if w.Done? {
        WalkExact(shape.children[n - 1], w.rest);
      }
    }
  }

  /** The whole format, with a given shape encoding. */
  function Serialized(shapeBytes: seq<Byte>, shape: Shape, piece: Piece): seq<Byte>
    requires Matches(shape, piece) && Serializable(shape)
  {
    DigitsBelow(256, |shapeBytes|, HEADER_BYTES);
    Digits(256, |shapeBytes|, HEADER_BYTES) + shapeBytes + PieceBytes(shape, piece)
  }

  /** What deserializing makes of any bytes; `parse` decodes and validates a shape. */
  function Deserialized(parse: seq<Byte> -> Option<Shape>, bs: seq<Byte>): Result {
    if |bs| < HEADER_BYTES then Err(NoShapeSize) else
      var start := HEADER_BYTES + Value(256, bs[..HEADER_BYTES]);
      if |bs| < start then Err(NoShapeData) else
        match parse(bs[HEADER_BYTES..start])
        case None => Err(BadShape)
        case Some(shape) =>
          if !ValidTypes(shape) then Err(BadShape) else
            match Walk(shape, |bs| - start)
            case Failed(p) => Err(p)
            case Done(rest) =>
              if rest > 0 then Err(TrailingData) else
                WalkExact(shape, |bs| - start);
                Ok(shape, PieceOf(shape, bs[start..]))
  }

  /** Deserializing undoes serializing. */
  lemma RoundTrip(parse: seq<Byte> -> Option<Shape>, shapeBytes: seq<Byte>, shape: Shape, piece: Piece)
    requires Matches(shape, piece) && Serializable(shape) && parse(shapeBytes) == Some(shape) && |shapeBytes| < Pow(256, HEADER_BYTES)
    ensures Deserialized(parse, Serialized(shapeBytes, shape, piece)) == Ok(shape, piece)
  {
    var header, data := Digits(256, |shapeBytes|, HEADER_BYTES), PieceBytes(shape, piece);
    var bs := Serialized(shapeBytes, shape, piece);
    DigitsBelow(256, |shapeBytes|, HEADER_BYTES);
    ValueOfDigits(256, |shapeBytes|, HEADER_BYTES);
    var start := HEADER_BYTES + |shapeBytes|;
    assert bs[..HEADER_BYTES] == header && bs[HEADER_BYTES..start] == shapeBytes && bs[start..] == data;
    ReadPiece(shape, piece);
    MatchesValid(shape, piece);
    WalkExact(shape, |data|);
  }

  lemma MatchesValid(shape: Shape, piece: Piece)
    requires Matches(shape, piece)
    ensures ValidTypes(shape)
    decreases shape
  {
    if shape.TupleShape? {
      forall k | 0 <= k < |shape.children| ensures ValidTypes(shape.children[k]) {
        MatchesValid(shape.children[k], piece.children[k]);
      }
    }
  }

  /** Accepted inputs are self-delimiting: no accepted input is a strict prefix of another, whatever
      wrote it. */
  lemma PrefixFree(parse: seq<Byte> -> Option<Shape>, a: seq<Byte>, b: seq<Byte>)
    requires Deserialized(parse, a).Ok? && Deserialized(parse, b).Ok? && a <= b
    ensures a == b
  {
    var start := HEADER_BYTES + Value(256, a[..HEADER_BYTES]);
    assert a[..HEADER_BYTES] == b[..HEADER_BYTES];
    assert a[HEADER_BYTES..start] == b[HEADER_BYTES..start];
    var shape := parse(a[HEADER_BYTES..start]).value;
    WalkExact(shape, |a| - start);
    WalkExact(shape, |b| - start);
  }

  /** Every strict prefix and every strict extension of a serialized literal is rejected. */
  lemma CutOrExtendedRejected(parse: seq<Byte> -> Option<Shape>, shapeBytes: seq<Byte>, shape: Shape, piece: Piece, other: seq<Byte>)
    requires Matches(shape, piece) && Serializable(shape) && parse(shapeBytes) == Some(shape) && |shapeBytes| < Pow(256, HEADER_BYTES)
    requires other < Serialized(shapeBytes, shape, piece) || Serialized(shapeBytes, shape, piece) < other
    ensures Deserialized(parse, other).Err?
  {
    RoundTrip(parse, shapeBytes, shape, piece);
    var bs := Serialized(shapeBytes, shape, piece);
    if Deserialized(parse, other).Ok? {
      if other < bs {
        PrefixFree(parse, other, bs);
      } else {
        PrefixFree(parse, bs, other);
      }
    }
  }

  lemma {:induction false} UnpackBelow(base: nat, per: nat, bs: seq<Byte>, count: nat)
    requires base > 0 && per > 0 && |bs| == PackedSize(per, count)
    ensures Below(Unpack(base, per, bs, count), base)
    decreases count
  {
    if count > 0 {
      var n := Take(per, count);
      DigitsBelow(base, bs[0], n);
      UnpackBelow(base, per, bs[1..], count - n);
    }
  }

  lemma {:induction false} FromLittleEndianBelow(n: nat, bs: seq<Byte>, count: nat)
    requires |bs| == WholeSize(n, count)
    ensures Below(FromLittleEndian(n, bs, count), Pow(256, n))
    decreases count
  {
    if count > 0 {
      var cut := WholeSize(n, count - 1);
      ValueBound(256, bs[cut..]);
      FromLittleEndianBelow(n, bs[..cut], count - 1);
    }
  }

  lemma ElementsBelow(t: ElementType, bs: seq<Byte>, count: nat)
    requires t.Valid() && |bs| == CountBytes(t, count)
    ensures Below(Elements(t, bs, count), t.Bound())
  {
    match t
    case SubByte(w) => UnpackBelow(Pow(2, w), PerByte(w), bs, count);
    case Whole(n) => FromLittleEndianBelow(n, bs, count);
  }

  lemma {:induction false} PieceOfMatches(shape: Shape, bs: seq<Byte>)
    requires Serializable(shape) && |bs| == DataSize(shape)
    ensures Matches(shape, PieceOf(shape, bs))
    decreases shape, if shape.TupleShape? then |shape.children| + 1 else 0
  {
    match shape
    case ArrayShape(t, dims, dynamic) =>
      var n := if dynamic then |dims| else 0;
      var cut := CountBytes(SizeType, n);
      ElementsBelow(SizeType, bs[..cut], n);
      ElementsBelow(t, bs[cut..], RowMajor.Product(dims));
    case TupleShape(cs) =>
      ChildrenOfMatch(shape, bs, |cs|);
  }

  lemma {:induction false} ChildrenOfMatch(shape: Shape, bs: seq<Byte>, n: nat)
    requires FirstSerializable(shape, n) && |bs| == ChildrenSize(shape, n)
    ensures forall k | 0 <= k < n :: Matches(shape.children[k], ChildrenOf(shape, bs, n)[k])
    decreases shape, n
  {
    if n > 0 {
      var cut := ChildrenSize(shape, n - 1);
      ChildrenOfMatch(shape, bs[..cut], n - 1);
      PieceOfMatches(shape.children[n - 1], bs[cut..]);
    }
  }

  /** What is read from any accepted input is a literal of its shape, and writing it again with the
      same shape bytes gives an input of the same length that reads the same. */
  lemma AcceptedIsLiteral(parse: seq<Byte> -> Option<Shape>, bs: seq<Byte>)
    requires Deserialized(parse, bs).Ok?
    ensures var r, shapeBytes := Deserialized(parse, bs), bs[HEADER_BYTES..HEADER_BYTES + Value(256, bs[..HEADER_BYTES])];
      && Matches(r.shape, r.piece) && Serializable(r.shape) && |Serialized(shapeBytes, r.shape, r.piece)| == |bs|
      && Deserialized(parse, Serialized(shapeBytes, r.shape, r.piece)) == r
  {
    var start := HEADER_BYTES + Value(256, bs[..HEADER_BYTES]);
    var shapeBytes := bs[HEADER_BYTES..start];
    var r := Deserialized(parse, bs);
    WalkExact(r.shape, |bs| - start);
    PieceOfMatches(r.shape, bs[start..]);
    ValueBound(256, bs[..HEADER_BYTES]);
    RoundTrip(parse, shapeBytes, r.shape, r.piece);
    ReadPiece(r.shape, r.piece);
  }
}
