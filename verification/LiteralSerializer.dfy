/** The serializer and the deserializer of literals as state machines over a byte stream. */
module LiteralSerializer {
  import opened Radix
  import opened Options
  import opened LiteralFormat
  import opened LiteralPlaces

  /** One byte of `n` packed elements, the first in the least significant bits. */
  method PackByte(base: nat, es: seq<nat>, start: nat, n: nat) returns (byte: nat)
    requires start + n <= |es|
    ensures byte == Value(base, es[start..start + n])
  {
    var scale: nat := 1;
    byte := 0;
    for b := 0 to n
      invariant scale == Pow(base, b) && byte == Value(base, es[start..start + b])
    {
      ValueSnoc(base, es[start..start + b], es[start + b]);
      assert es[start..start + b + 1] == es[start..start + b] + [es[start + b]];
      byte := byte + es[start + b] * scale;
      scale := base * scale;
    }
  }

  class SerializeState {
    var output: seq<Byte>
    var numWritten: nat

    predicate Valid()
      reads this
    {
      numWritten == |output|
    }

    /** Starts with the header: the length of the encoded shape, then its bytes. */
    constructor (shapeBytes: seq<Byte>)
      ensures Valid() && |output| == HEADER_BYTES + |shapeBytes|
      ensures output == Digits(256, |shapeBytes|, HEADER_BYTES) + shapeBytes
    {
      output, numWritten := [], 0;
      new;
      WriteElement(|shapeBytes|, HEADER_BYTES);
      output := output + shapeBytes;
      numWritten := numWritten + |shapeBytes|;
    }

    method WriteByte(b: Byte)
      requires Valid()
      modifies this
      ensures Valid() && output == old(output) + [b]
    {
      output := output + [b];
      numWritten := numWritten + 1;
    }

    /** Writes the low `n` bytes of `e`, least significant first. */
    method WriteElement(e: nat, n: nat)
      requires Valid()
      modifies this
      ensures Valid() && output == old(output) + Digits(256, e, n)
    {
      var unsigned := e;
      for i := 0 to n
        invariant Valid() && output + Digits(256, unsigned, n - i) == old(output) + Digits(256, e, n)
      {
        assert Digits(256, unsigned, n - i) == [unsigned % 256] + Digits(256, unsigned / 256, n - i - 1);
        WriteByte(unsigned % 256);
        unsigned := unsigned / 256;
      }
    }

    /** Writes the next byte of packed elements. */
    method WritePacked(base: nat, per: nat, es: seq<nat>, start: nat, n: nat)
      requires FillsByte(base, per) && Below(es, base) && start <= |es| && 0 < n == Take(per, |es| - start)
      requires Valid()
      modifies this
      ensures Valid() && output + Pack(base, per, es[start + n..]) == old(output) + Pack(base, per, es[start..])
    {
      var byte := PackByte(base, es, start, n);
      PackNext(base, per, es, start, n);
      WriteByte(byte);
    }

    method WriteSubBytes(base: nat, per: nat, es: seq<nat>)
      requires FillsByte(base, per) && Below(es, base) && Valid()
      modifies this
      ensures Valid() && output == old(output) + Pack(base, per, es)
    {
      var start: nat := 0;
      while |es| - start >= per
        invariant Valid() && start <= |es|
        invariant output + Pack(base, per, es[start..]) == old(output) + Pack(base, per, es)
      {
        WritePacked(base, per, es, start, per);
        start := start + per;
      }
      if start < |es| {
        WritePacked(base, per, es, start, |es| - start);
      }
    }

    method WriteElements(t: ElementType, es: seq<nat>)
      requires t.Valid() && Below(es, t.Bound()) && Valid()
      modifies this
      ensures Valid() && output == old(output) + ElementBytes(t, es)
    {
      match t
      case SubByte(w) =>
        BitsFillByte(w);
        WriteSubBytes(Pow(2, w), PerByte(w), es);
      case Whole(n) =>
        for i := 0 to |es|
          invariant Valid() && output == old(output) + LittleEndian(n, es[..i])
        {
          assert es[..i + 1][..i] == es[..i];
          WriteElement(es[i], n);
        }
        assert es[..|es|] == es;
    }

    /** Writes a piece and everything below it, depth first; fails at what cannot be serialized. */
    method SerializePiece(shape: Shape, piece: Piece) returns (ok: bool)
      requires Matches(shape, piece) && Valid()
      modifies this
      ensures Valid() && (ok <==> Serializable(shape))
      ensures ok ==> output == old(output) + PieceBytes(shape, piece)
      decreases shape, 2
    {
      match shape
      case OtherShape =>
        ok := false;
      case ArrayShape(t, dims, dynamic) =>
        SerializeData(shape, piece);
        ok := true;
      case TupleShape(cs) =>
        ok := SerializeChildren(shape, piece);
    }

    /** Writes the dynamic sizes, if any, and the elements of an array. */
    method SerializeData(shape: Shape, piece: Piece)
      requires shape.ArrayShape? && Matches(shape, piece) && Valid()
      modifies this
      ensures Valid() && output == old(output) + PieceBytes(shape, piece)
    {
      if shape.isDynamic {
        WriteElements(SizeType, piece.sizes);
      }
      WriteElements(shape.elementType, piece.elements);
    }

    method SerializeChildren(shape: Shape, piece: Piece) returns (ok: bool)
      requires shape.TupleShape? && Matches(shape, piece) && Valid()
      modifies this
      ensures Valid() && (ok <==> Serializable(shape))
      ensures ok ==> output == old(output) + ChildrenBytes(shape, piece, |shape.children|)
      decreases shape, 1
    {
      for i := 0 to |shape.children|
        invariant Valid() && FirstSerializable(shape, i)
        invariant output == old(output) + ChildrenBytes(shape, piece, i)
      {
        ok := SerializeChild(shape, piece, i, old(output));
        if !ok {
          return false;
        }
      }
      ok := true;
    }

    /** Writes part `i` of a tuple behind the parts before it. */
    method SerializeChild(shape: Shape, piece: Piece, i: nat, ghost before: seq<Byte>) returns (ok: bool)
      requires shape.TupleShape? && Matches(shape, piece) && i < |shape.children| && Valid()
      requires output == before + ChildrenBytes(shape, piece, i)
      modifies this
      ensures Valid() && (ok <==> Serializable(shape.children[i]))
      ensures ok ==> output == before + ChildrenBytes(shape, piece, i + 1)
      decreases shape, 0
    {
      ok := SerializePiece(shape.children[i], piece.children[i]);
      Assoc(before, ChildrenBytes(shape, piece, i), PieceBytes(shape.children[i], piece.children[i]));
    }
  }

  lemma PackNext(base: nat, per: nat, es: seq<nat>, start: nat, n: nat)
    requires FillsByte(base, per) && Below(es, base) && start <= |es| && 0 < n == Take(per, |es| - start)
    ensures Value(base, es[start..start + n]) < 256
    ensures Pack(base, per, es[start..]) == [Value(base, es[start..start + n])] + Pack(base, per, es[start + n..])
  {
    FitsByte(base, per, es[start..start + n]);
    assert es[start..][..n] == es[start..start + n] && es[start..][n..] == es[start + n..];
  }

  /** Serializes a literal, if it can be; `shapeBytes` is its encoded shape. */
  method Serialize(shapeBytes: seq<Byte>, shape: Shape, piece: Piece) returns (output: Option<seq<Byte>>)
    requires Matches(shape, piece)
    ensures output == if Serializable(shape) then Some(Serialized(shapeBytes, shape, piece)) else None
    ensures output.Some? ==>
              var bs := output.value;
              && |bs| == 8 + |shapeBytes| + Extent(shape, piece)
              && (forall b | 0 <= b < 8 :: bs[b] == (|shapeBytes| / Pow(256, b)) % 256)
              && bs[8..8 + |shapeBytes|] == shapeBytes
              && WrittenAt(shape, piece, bs, 8 + |shapeBytes|)
  {
    if Serializable(shape) {
      LiteralWritten(shapeBytes, shape, piece);
    }
    var state := new SerializeState(shapeBytes);
    var ok := state.SerializePiece(shape, piece);
    output := if ok then Some(state.output) else None;
  }

  datatype ShapeResult = Read(shape: Shape) | NotRead(problem: Problem)

  class DeserializeState {
    const input: seq<Byte>
    var position: nat

    predicate Valid()
      reads this
    {
      position <= |input|
    }

    constructor (input: seq<Byte>)
      ensures this.input == input && position == 0 && Valid()
    {
      this.input := input;
      position := 0;
    }

    predicate AtEnd()
      reads this
    {
      position == |input|
    }

    /** Reads `n` bytes, least significant first. */
    method ReadElement(n: nat) returns (ok: bool, e: nat)
      requires Valid()
      modifies this
      ensures Valid() && old(position) <= position && (ok <==> old(position) + n <= |input|)
      ensures ok ==> position == old(position) + n && e == Value(256, input[old(position)..position])
    {
      e := 0;
      var scale: nat := 1;
      for i := 0 to n
        invariant Valid() && position == old(position) + i
        invariant scale == Pow(256, i) && e == Value(256, input[old(position)..position])
      {
        if AtEnd() {
          return false, 0;
        }
        ValueSnoc(256, input[old(position)..position], input[position]);
        assert input[old(position)..position + 1] == input[old(position)..position] + [input[position]];
        e := e + input[position] * scale;
        scale := scale * 256;
        position := position + 1;
      }
      return true, e;
    }

    /** Reads one byte of `n` packed elements. */
    method ReadPacked(base: nat, n: nat) returns (ok: bool, es: seq<nat>)
      requires base > 0 && Valid()
      modifies this
      ensures Valid() && old(position) <= position && (ok <==> old(position) < |input|)
      ensures ok ==> position == old(position) + 1 && es == Digits(base, input[old(position)], n)
    {
      es := [];
      if AtEnd() {
        return false, es;
      }
      var byte: nat := input[position];
      position := position + 1;
      ok := true;
      for b := 0 to n
        invariant es + Digits(base, byte, n - b) == Digits(base, input[old(position)], n)
      {
        es := es + [byte % base];
        byte := byte / base;
      }
    }

    method ReadSubBytes(base: nat, per: nat, count: nat) returns (ok: bool, es: seq<nat>)
      requires base > 0 && per > 0 && Valid()
      modifies this
      ensures Valid() && old(position) <= position && (ok <==> old(position) + PackedSize(per, count) <= |input|)
      ensures ok ==> position == old(position) + PackedSize(per, count)
      ensures ok ==> es == Unpack(base, per, input[old(position)..position], count)
    {
      ghost var start, end := position, position + PackedSize(per, count);
      var left: nat := count;
      es := [];
      JoinedNothing(base, per, input, start, end, count);
      while left > 0
        invariant Valid() && start <= position && position + PackedSize(per, left) == end && left <= count
        invariant end <= |input| ==> Joined(base, per, input, start, end, count, es, position, left)
      {
        var n := Take(per, left);
        if end <= |input| {
          NextJoined(base, per, input, start, end, count, es, position, left);
        }
        var got, digits := ReadPacked(base, n);
        if !got {
          return false, es;
        }
        es := es + digits;
        left := left - n;
      }
      return true, es;
    }

    method ReadWhole(n: nat, count: nat) returns (ok: bool, es: seq<nat>)
      requires Valid()
      modifies this
      ensures Valid() && old(position) <= position && (ok <==> old(position) + WholeSize(n, count) <= |input|)
      ensures ok ==> position == old(position) + WholeSize(n, count)
      ensures ok ==> es == FromLittleEndian(n, input[old(position)..position], count)
    {
      es := [];
      for i := 0 to count
        invariant Valid() && position == old(position) + WholeSize(n, i)
        invariant es == FromLittleEndian(n, input[old(position)..position], i)
      {
        WholeSizeMono(n, i + 1, count);
        ghost var cut := position;
        var got, e := ReadElement(n);
        if !got {
          return false, es;
        }
        ghost var bs := input[old(position)..position];
        assert bs[..cut - old(position)] == input[old(position)..cut] && bs[cut - old(position)..] == input[cut..position];
        es := es + [e];
      }
      return true, es;
    }

    method ReadElements(t: ElementType, count: nat) returns (ok: bool, es: seq<nat>)
      requires t.Valid() && Valid()
      modifies this
      ensures Valid() && old(position) <= position && (ok <==> old(position) + CountBytes(t, count) <= |input|)
      ensures ok ==> position == old(position) + CountBytes(t, count)
      ensures ok ==> es == Elements(t, input[old(position)..position], count)
    {
      match t
      case SubByte(w) => ok, es := ReadSubBytes(Pow(2, w), PerByte(w), count);
      case Whole(n) => ok, es := ReadWhole(n, count);
    }

    /** Reads the `size` bytes of the encoded shape and decodes them. */
    method ReadShape(parse: seq<Byte> -> Option<Shape>, size: nat) returns (r: ShapeResult)
      requires Valid()
      modifies this
      ensures Valid() && old(position) <= position
      ensures old(position) + size > |input| ==> r == NotRead(NoShapeData)
      ensures old(position) + size <= |input| ==>
                position == old(position) + size
                && match parse(input[old(position)..position])
                   case None => r == NotRead(BadShape)
                   case Some(shape) => r == if ValidTypes(shape) then Read(shape) else NotRead(BadShape)
    {
      var shapeBytes: seq<Byte> := [];
      while |shapeBytes| < size
        invariant Valid() && position == old(position) + |shapeBytes| && |shapeBytes| <= size
        invariant shapeBytes == input[old(position)..position]
      {
        if AtEnd() {
          return NotRead(NoShapeData);
        }
        shapeBytes := shapeBytes + [input[position]];
        position := position + 1;
      }
      var shape := parse(shapeBytes);
      if shape.None? || !ValidTypes(shape.value) {
        return NotRead(BadShape);
      }
      return Read(shape.value);
    }

    /** Reads the dynamic sizes, if any, and the elements of an array. */
    method DeserializeData(shape: Shape) returns (ok: bool, piece: Piece)
      requires shape.ArrayShape? && shape.elementType.Valid() && Valid()
      modifies this
      ensures Valid() && old(position) <= position && (ok <==> old(position) + DataSize(shape) <= |input|)
      ensures ok ==> position == old(position) + DataSize(shape)
      ensures ok ==> piece == PieceOf(shape, input[old(position)..position])
    {
      var sizes, elements: seq<nat> := [], [];
      ok := true;
      var count := if shape.isDynamic then |shape.dimensions| else 0;
      if shape.isDynamic {
        ok, sizes := ReadElements(SizeType, count);
        if !ok {
          return false, ArrayPiece([], []);
        }
      }
      ghost var cut := CountBytes(SizeType, count);
      ok, elements := ReadElements(shape.elementType, RowMajor.Product(shape.dimensions));
      piece := ArrayPiece(sizes, elements);
      if ok {
        ghost var bs := input[old(position)..position];
        assert bs[..cut] == input[old(position)..old(position) + cut] && bs[cut..] == input[old(position) + cut..position];
      }
    }

    /** Reads a piece and everything below it, depth first, up to the first problem. */
    method DeserializePiece(shape: Shape) returns (problem: Option<Problem>, piece: Piece)
      requires ValidTypes(shape) && Valid()
      modifies this
      ensures Valid() && old(position) <= position
      ensures match Walk(shape, |input| - old(position))
        case Failed(p) => problem == Some(p)
        case Done(rest) => problem == None && position == |input| - rest
      ensures problem == None ==> Serializable(shape) && position == old(position) + DataSize(shape)
      ensures problem == None ==> piece == PieceOf(shape, input[old(position)..position])
      decreases shape, 1
    {
      piece := TuplePiece([]);
      match shape
      case OtherShape =>
        problem := Some(UnsupportedShape);
      case ArrayShape(_, _, _) =>
        var ok;
        ok, piece := DeserializeData(shape);
        problem := if ok then None else Some(NoData);
      case TupleShape(cs) =>
        var children;
        problem, children := DeserializeChildren(shape);
        piece := TuplePiece(children);
    }

    method DeserializeChildren(shape: Shape) returns (problem: Option<Problem>, children: seq<Piece>)
      requires shape.TupleShape? && ValidTypes(shape) && Valid()
      modifies this
      ensures Valid() && old(position) <= position
      ensures match WalkChildren(shape, |shape.children|, |input| - old(position))
        case Failed(p) => problem == Some(p)
        case Done(rest) => problem == None && position == |input| - rest
      ensures problem == None ==> Serializable(shape) && position == old(position) + DataSize(shape)
      ensures problem == None ==> children == ChildrenOf(shape, input[old(position)..position], |shape.children|)
      decreases shape, 0
    {
      children := [];
      for i := 0 to |shape.children|
        invariant Valid() && ChildrenRead(shape, input, old(position), position, i, children)
      {
        ghost var cut := position;
        var child;
        problem, child := DeserializePiece(shape.children[i]);
        if problem.Some? {
          FailureSpreads(shape, i, |shape.children|, |input| - old(position));
          return problem, children;
        }
        NextChildRead(shape, input, old(position), cut, position, i, children, child);
        children := children + [child];
      }
      problem := None;
    }
  }

  /** The elements read, and those of the bytes still to come, are those of all the bytes. */
  ghost predicate Joined(base: nat, per: nat, bs: seq<Byte>, start: nat, end: nat, count: nat, es: seq<nat>, at: nat, left: nat) {
    && base > 0 && per > 0 && start <= at <= end <= |bs|
    && end - start == PackedSize(per, count) && end - at == PackedSize(per, left)
    && Unpack(base, per, bs[start..end], count) == es + Unpack(base, per, bs[at..end], left)
  }

  lemma JoinedNothing(base: nat, per: nat, bs: seq<Byte>, start: nat, end: nat, count: nat)
    requires base > 0 && per > 0 && end == start + PackedSize(per, count)
    ensures end <= |bs| ==> Joined(base, per, bs, start, end, count, [], start, count)
  {
  }

  lemma NextJoined(base: nat, per: nat, bs: seq<Byte>, start: nat, end: nat, count: nat, es: seq<nat>, at: nat, left: nat)
    requires Joined(base, per, bs, start, end, count, es, at, left) && left > 0
    ensures at < end
    ensures var n := Take(per, left); Joined(base, per, bs, start, end, count, es + Digits(base, bs[at], n), at + 1, left - n)
  {
    NextPacked(base, per, es, bs, at, end, left);
  }

  /** The first `i` children are what the bytes between the positions stand for. */
  ghost predicate ChildrenRead(shape: Shape, input: seq<Byte>, from: nat, to: nat, i: nat, children: seq<Piece>)
    requires shape.TupleShape? && ValidTypes(shape)
  {
    && from <= to <= |input| && i <= |shape.children|
    && WalkChildren(shape, i, |input| - from) == Done(|input| - to)
    && FirstSerializable(shape, i) && to == from + ChildrenSize(shape, i)
    && children == ChildrenOf(shape, input[from..to], i)
  }

  lemma NextChildRead(shape: Shape, input: seq<Byte>, from: nat, cut: nat, to: nat, i: nat, children: seq<Piece>, child: Piece)
    requires shape.TupleShape? && ValidTypes(shape) && i < |shape.children|
    requires ChildrenRead(shape, input, from, cut, i, children) && cut <= to <= |input|
    requires Walk(shape.children[i], |input| - cut) == Done(|input| - to)
    requires Serializable(shape.children[i]) && to == cut + DataSize(shape.children[i])
    requires child == PieceOf(shape.children[i], input[cut..to])
    ensures ChildrenRead(shape, input, from, to, i + 1, children + [child])
  {
    NextWalked(shape, |input| - from, i, |input| - cut);
    assert FirstSerializable(shape, i + 1);
    assert ChildrenSize(shape, i + 1) == ChildrenSize(shape, i) + DataSize(shape.children[i]);
    ChildAppended(shape, input, from, cut, to, i);
  }

  lemma NextWalked(shape: Shape, available: nat, i: nat, rest: nat)
    requires shape.TupleShape? && ValidTypes(shape) && i < |shape.children| && WalkChildren(shape, i, available) == Done(rest)
    ensures WalkChildren(shape, i + 1, available) == Walk(shape.children[i], rest)
  {
  }

  lemma {:induction false} FailureSpreads(shape: Shape, i: nat, n: nat, available: nat)
    requires shape.TupleShape? && i < n <= |shape.children| && ValidTypes(shape)
    requires WalkChildren(shape, i + 1, available).Failed?
    ensures WalkChildren(shape, n, available) == WalkChildren(shape, i + 1, available)
  {
    if i + 1 < n {
      FailureSpreads(shape, i, n - 1, available);
    }
  }

  /** Reads a literal from the whole of `input`; what is written by `Serialize` comes back. */
  method Deserialize(parse: seq<Byte> -> Option<Shape>, input: seq<Byte>) returns (r: Result)
    ensures r == Deserialized(parse, input)
  {
    var state := new DeserializeState(input);
    var ok, size := state.ReadElement(HEADER_BYTES);
    if !ok {
      return Err(NoShapeSize);
    }
    var shape := state.ReadShape(parse, size);
    if shape.NotRead? {
      return Err(shape.problem);
    }
    ghost var start := state.position;
    WalkExact(shape.shape, |input| - start);
    var problem, piece := state.DeserializePiece(shape.shape);
    if problem.Some? {
      return Err(problem.value);
    }
    if !state.AtEnd() {
      return Err(TrailingData);
    }
    assert state.position == |input|;
    WholeTail(input, start);
    return Ok(shape.shape, piece);
  }
}
