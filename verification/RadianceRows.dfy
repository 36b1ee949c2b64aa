/** The rows of a Radiance HDR image (load_radiance_hdr, Scripts/AnalyzeBenchmarkSequence.py:87-122):
    each row is run-length encoded or raw, as its first four bytes tell. */
module RadianceRows {
  import opened Bytes
  import opened Options

  // ----- one channel

  // Continues a channel of which `done` is decoded. A code above 128 is a run, another one a literal.
  function DecodeFrom(s: seq<Byte>, done: seq<Byte>, width: nat): Option<(seq<Byte>, seq<Byte>)>
    requires |done| <= width
    decreases width - |done|
  {
    if |done| == width then Some((done, s))
    else if s == [] then None
    else
      var code := s[0];
      if code > 128 then
        var count := code - 128;
        if |done| + count > width || |s| < 2 then None
        else DecodeFrom(s[2..], done + Repeat(s[1], count), width)
      else if code == 0 || |done| + code > width || |s| < 1 + code then None
      else DecodeFrom(s[1 + code..], done + s[1..1 + code], width)
  }

  // ----- what a writer may write

  datatype Piece = Same(count: nat, value: Byte) | Literal(bytes: seq<Byte>)

  predicate ValidPiece(p: Piece) {
    match p
    case Same(count, _) => 1 <= count <= 127
    case Literal(bytes) => 1 <= |bytes| <= 128
  }

  function PieceBytes(p: Piece): seq<Byte> {
    match p
    case Same(count, value) => Repeat(value, count)
    case Literal(bytes) => bytes
  }

  function EncodePiece(p: Piece): seq<Byte>
    requires ValidPiece(p)
  {
    match p
    case Same(count, value) => [128 + count, value]
    case Literal(bytes) => [|bytes|] + bytes
  }

  predicate ValidPieces(ps: seq<Piece>) {
    forall i :: 0 <= i < |ps| ==> ValidPiece(ps[i])
  }

  function Expand(ps: seq<Piece>): seq<Byte> {
    if ps == [] then [] else PieceBytes(ps[0]) + Expand(ps[1..])
  }

  function EncodePieces(ps: seq<Piece>): seq<Byte>
    requires ValidPieces(ps)
  {
    if ps == [] then [] else EncodePiece(ps[0]) + EncodePieces(ps[1..])
  }

  lemma {:induction false} PieceDecodes(p: Piece, rest: seq<Byte>, done: seq<Byte>, width: nat)
    requires ValidPiece(p) && |done| + |PieceBytes(p)| <= width
    ensures DecodeFrom(EncodePiece(p) + rest, done, width) == DecodeFrom(rest, done + PieceBytes(p), width)
  {
    var s := EncodePiece(p) + rest;
    if p.Same? {
      assert s[2..] == rest;
    } else {
      assert s[1 + |p.bytes|..] == rest && s[1..1 + |p.bytes|] == p.bytes;
    }
  }

  // However a channel is cut into runs and literals, it decodes to itself.
  lemma {:induction false} ChannelDecodes(ps: seq<Piece>, rest: seq<Byte>, done: seq<Byte>, width: nat)
    requires ValidPieces(ps) && |done| + |Expand(ps)| == width
    ensures DecodeFrom(EncodePieces(ps) + rest, done, width) == Some((done + Expand(ps), rest))
    decreases |ps|
  {
    hide EncodePiece, PieceBytes, DecodeFrom, ValidPiece;
    if ps == [] {
      assert EncodePieces(ps) + rest == rest && done + Expand(ps) == done;
      AllDecoded(rest, done);
    } else {
      var p, more := ps[0], EncodePieces(ps[1..]) + rest;
      assert ValidPiece(p);
      assert EncodePieces(ps) + rest == EncodePiece(p) + more;
      assert |Expand(ps)| == |PieceBytes(p)| + |Expand(ps[1..])|;
      PieceDecodes(p, more, done, width);
      ChannelDecodes(ps[1..], rest, done + PieceBytes(p), width);
      assert done + PieceBytes(p) + Expand(ps[1..]) == done + Expand(ps);
    }
  }

  // And whatever decodes is such a sequence of runs and literals.
  lemma {:induction false} DecodedWasEncoded(s: seq<Byte>, done: seq<Byte>, width: nat) returns (ps: seq<Piece>)
    requires |done| <= width && DecodeFrom(s, done, width).Some?
    ensures ValidPieces(ps)
    ensures var r := DecodeFrom(s, done, width).value; done + Expand(ps) == r.0 && EncodePieces(ps) + r.1 == s
    decreases width - |done|
  {
    hide DecodeFrom, EncodePiece, PieceBytes, ValidPiece;
    if |done| == width {
      AllDecoded(s, done);
      ps := [];
      assert done + [] == done && [] + s == s;
    } else {
      var p, rest := NextPiece(s, done, width);
      var more := DecodedWasEncoded(rest, done + PieceBytes(p), width);
      ps := [p] + more;
      PiecesCons(p, more);
      Regroup(done, PieceBytes(p), Expand(more));
      Regroup(EncodePiece(p), EncodePieces(more), DecodeFrom(s, done, width).value.1);
    }
  }

  lemma AllDecoded(s: seq<Byte>, done: seq<Byte>)
    ensures DecodeFrom(s, done, |done|) == Some((done, s))
  {
  }

  lemma Regroup(a: seq<Byte>, b: seq<Byte>, c: seq<Byte>)
    ensures a + b + c == a + (b + c)
  {
  }

  lemma PiecesCons(p: Piece, more: seq<Piece>)
    requires ValidPiece(p) && ValidPieces(more)
    ensures ValidPieces([p] + more)
    ensures Expand([p] + more) == PieceBytes(p) + Expand(more)
    ensures EncodePieces([p] + more) == EncodePiece(p) + EncodePieces(more)
  {
    hide EncodePiece, PieceBytes, ValidPiece;
    assert ([p] + more)[1..] == more;
  }

  lemma {:induction false} NextPiece(s: seq<Byte>, done: seq<Byte>, width: nat) returns (p: Piece, rest: seq<Byte>)
    requires |done| < width && DecodeFrom(s, done, width).Some?
    ensures ValidPiece(p) && s == EncodePiece(p) + rest && 0 < |PieceBytes(p)| <= width - |done|
    ensures DecodeFrom(s, done, width) == DecodeFrom(rest, done + PieceBytes(p), width)
  {
    var code := s[0];
    if code > 128 {
      p, rest := Same(code - 128, s[1]), s[2..];
      assert s == [s[0], s[1]] + s[2..];
    } else {
      p, rest := Literal(s[1..1 + code]), s[1 + code..];
      assert s == [s[0]] + s[1..1 + code] + s[1 + code..];
    }
  }

  // ----- one row

  datatype Pixel = Pixel(r: Byte, g: Byte, b: Byte, e: Byte)

  function Marker(width: nat): seq<Byte>
    requires width <= 32767
  {
    [2, 2, width / 256, width % 256]
  }

  function Transpose(r: seq<Byte>, g: seq<Byte>, b: seq<Byte>, e: seq<Byte>): seq<Pixel>
    requires |r| == |g| == |b| == |e|
  {
    seq(|r|, x requires 0 <= x < |r| => Pixel(r[x], g[x], b[x], e[x]))
  }

  function RawPixels(bytes: seq<Byte>, width: nat): seq<Pixel>
    requires |bytes| == 4 * width
  {
    seq(width, x requires 0 <= x < width => Pixel(bytes[4 * x], bytes[4 * x + 1], bytes[4 * x + 2], bytes[4 * x + 3]))
  }

  function DecodeChannel(s: seq<Byte>, width: nat): (r: Option<(seq<Byte>, seq<Byte>)>)
    ensures r.Some? ==> |r.value.0| == width
  {
    ChannelLength(s, [], width);
    DecodeFrom(s, [], width)
  }

  lemma {:induction false} ChannelLength(s: seq<Byte>, done: seq<Byte>, width: nat)
    requires |done| <= width
    ensures DecodeFrom(s, done, width).Some? ==> |DecodeFrom(s, done, width).value.0| == width
    decreases width - |done|
  {
    if |done| < width && DecodeFrom(s, done, width).Some? {
      var p, rest := NextPiece(s, done, width);
      ChannelLength(rest, done + PieceBytes(p), width);
    }
  }

  function DecodeCompressed(s: seq<Byte>, width: nat): Option<(seq<Pixel>, seq<Byte>)> {
    var r := DecodeChannel(s, width);
    if r.None? then None else
    var g := DecodeChannel(r.value.1, width);
    if g.None? then None else
    var b := DecodeChannel(g.value.1, width);
    if b.None? then None else
    var e := DecodeChannel(b.value.1, width);
    if e.None? then None else Some((Transpose(r.value.0, g.value.0, b.value.0, e.value.0), e.value.1))
  }

  function DecodeRow(s: seq<Byte>, width: nat): Option<(seq<Pixel>, seq<Byte>)>
    requires 8 <= width <= 32767
  {
    if |s| >= 4 && s[..4] == Marker(width) then DecodeCompressed(s[4..], width)
    else if |s| < 4 * width then None
    else Some((RawPixels(s[..4 * width], width), s[4 * width..]))
  }

  // A row as a writer may write it.
  datatype Row = Compressed(r: seq<Piece>, g: seq<Piece>, b: seq<Piece>, e: seq<Piece>) | Raw(bytes: seq<Byte>)

  predicate ValidRow(row: Row, width: nat)
    requires width <= 32767
  {
    match row
    case Compressed(r, g, b, e) =>
      && ValidPieces(r) && ValidPieces(g) && ValidPieces(b) && ValidPieces(e)
      && |Expand(r)| == |Expand(g)| == |Expand(b)| == |Expand(e)| == width
    case Raw(bytes) => |bytes| == 4 * width && bytes[..Least(4, |bytes|)] != Marker(width)
  }

  function Least(a: nat, b: nat): nat {
    if a < b then a else b
  }

  function Pixels(row: Row, width: nat): seq<Pixel>
    requires width <= 32767 && ValidRow(row, width)
  {
    match row
    case Compressed(r, g, b, e) => Transpose(Expand(r), Expand(g), Expand(b), Expand(e))
    case Raw(bytes) => RawPixels(bytes, width)
  }

  function EncodeRow(row: Row, width: nat): seq<Byte>
    requires width <= 32767 && ValidRow(row, width)
  {
    match row
    case Compressed(r, g, b, e) => Marker(width)
        + (EncodePieces(r) + (EncodePieces(g) + (EncodePieces(b) + EncodePieces(e))))
    case Raw(bytes) => bytes
  }

  lemma {:induction false} CompressedDecodes(row: Row, rest: seq<Byte>, width: nat)
    requires width <= 32767 && row.Compressed? && ValidRow(row, width)
    ensures DecodeCompressed(EncodePieces(row.r)
          + (EncodePieces(row.g) + (EncodePieces(row.b) + (EncodePieces(row.e) + rest))), width)
            == Some((Pixels(row, width), rest))
  {
    hide EncodePieces, Expand, ValidPieces, DecodeFrom;
    ChannelDecodes(row.r, EncodePieces(row.g) + (EncodePieces(row.b) + (EncodePieces(row.e) + rest)), [], width);
    ChannelDecodes(row.g, EncodePieces(row.b) + (EncodePieces(row.e) + rest), [], width);
    ChannelDecodes(row.b, EncodePieces(row.e) + rest, [], width);
    ChannelDecodes(row.e, rest, [], width);
    assert forall x: seq<Byte> :: [] + x == x;
  }

  lemma {:induction false} RowDecodes(row: Row, rest: seq<Byte>, width: nat)
    requires 8 <= width <= 32767 && ValidRow(row, width)
    ensures DecodeRow(EncodeRow(row, width) + rest, width) == Some((Pixels(row, width), rest))
  {
    hide DecodeCompressed, EncodePieces, Expand, ValidPieces, RawPixels, Transpose;
    var s := EncodeRow(row, width) + rest;
    if row.Raw? {
      assert s[..4] == row.bytes[..4] && s[..4 * width] == row.bytes && s[4 * width..] == rest;
    } else {
      CompressedDecodes(row, rest, width);
      EncodeCompressed(row, rest, width);
    }
  }

  lemma {:induction false} EncodeCompressed(row: Row, rest: seq<Byte>, width: nat)
    requires width <= 32767 && row.Compressed? && ValidRow(row, width)
    ensures var s := EncodeRow(row, width) + rest;
            && |s| >= 4 && s[..4] == Marker(width)
            && s[4..] == EncodePieces(row.r)
                + (EncodePieces(row.g) + (EncodePieces(row.b) + (EncodePieces(row.e) + rest)))
  {
    hide EncodePieces, Expand, ValidPieces;
    var a, b, c, d := EncodePieces(row.r), EncodePieces(row.g), EncodePieces(row.b), EncodePieces(row.e);
    assert a + (b + (c + d)) + rest == a + (b + (c + (d + rest)));
    assert EncodeRow(row, width) + rest == Marker(width) + (a + (b + (c + d)) + rest);
  }

  // ----- all rows

  predicate ValidRows(rows: seq<Row>, width: nat)
    requires width <= 32767
  {
    forall y :: 0 <= y < |rows| ==> ValidRow(rows[y], width)
  }

  function EncodeRows(rows: seq<Row>, width: nat): seq<Byte>
    requires width <= 32767 && ValidRows(rows, width)
  {
    if rows == [] then [] else EncodeRow(rows[0], width) + EncodeRows(rows[1..], width)
  }

  function AllPixels(rows: seq<Row>, width: nat): seq<seq<Pixel>>
    requires width <= 32767 && ValidRows(rows, width)
  {
    seq(|rows|, y requires 0 <= y < |rows| => Pixels(rows[y], width))
  }

  // Continues an image of which some rows are decoded.
  function DecodeRows(s: seq<Byte>, done: seq<seq<Pixel>>, width: nat, height: nat): Option<seq<seq<Pixel>>>
    requires 8 <= width <= 32767 && |done| <= height
    decreases height - |done|
  {
    if |done| == height then Some(done)
    else
      match DecodeRow(s, width)
      case None => None
      case Some((row, rest)) => DecodeRows(rest, done + [row], width, height)
  }

  // A file that mixes compressed and raw rows in any way decodes to its pixels.
  lemma {:induction false} RowsDecode(rows: seq<Row>, rest: seq<Byte>, done: seq<seq<Pixel>>, width: nat)
    requires 8 <= width <= 32767 && ValidRows(rows, width)
    ensures DecodeRows(EncodeRows(rows, width) + rest, done, width, |done| + |rows|)
          == Some(done + AllPixels(rows, width))
    decreases |rows|
  {
    hide DecodeRow, EncodeRow, Pixels, ValidRow;
    if rows == [] {
      assert done + AllPixels(rows, width) == done;
    } else {
      var more := EncodeRows(rows[1..], width) + rest;
      assert EncodeRows(rows, width) + rest == EncodeRow(rows[0], width) + more;
      RowDecodes(rows[0], more, width);
      RowsDecode(rows[1..], rest, done + [Pixels(rows[0], width)], width);
      assert done + [Pixels(rows[0], width)] + AllPixels(rows[1..], width) == done + AllPixels(rows, width);
    }
  }

  // ----- what else decodes

  lemma {:induction false} ChannelWasEncoded(s: seq<Byte>, width: nat) returns (ps: seq<Piece>)
    requires DecodeChannel(s, width).Some?
    ensures ValidPieces(ps)
    ensures var r := DecodeChannel(s, width).value; Expand(ps) == r.0 && s == EncodePieces(ps) + r.1
  {
    hide DecodeFrom, EncodePieces, Expand, ValidPieces;
    ps := DecodedWasEncoded(s, [], width);
    assert [] + Expand(ps) == Expand(ps);
  }

  lemma {:induction false} CompressedWasEncoded(s: seq<Byte>, width: nat) returns (row: Row)
    requires width <= 32767 && DecodeCompressed(s, width).Some?
    ensures row.Compressed? && ValidRow(row, width) && Pixels(row, width) == DecodeCompressed(s, width).value.0
    ensures Marker(width) + s == EncodeRow(row, width) + DecodeCompressed(s, width).value.1
  {
    hide DecodeChannel, EncodePieces, Expand, ValidPieces, Transpose, Marker;
    var r := ChannelWasEncoded(s, width);
    var afterR := DecodeChannel(s, width).value.1;
    var g := ChannelWasEncoded(afterR, width);
    var afterG := DecodeChannel(afterR, width).value.1;
    var b := ChannelWasEncoded(afterG, width);
    var afterB := DecodeChannel(afterG, width).value.1;
    var e := ChannelWasEncoded(afterB, width);
    row := Compressed(r, g, b, e);
  }

  // Whatever row decodes was encoded: either as compressed pieces or as raw bytes without the marker.
  lemma {:induction false} RowWasEncoded(s: seq<Byte>, width: nat) returns (row: Row)
    requires 8 <= width <= 32767 && DecodeRow(s, width).Some?
    ensures ValidRow(row, width) && Pixels(row, width) == DecodeRow(s, width).value.0
    ensures s == EncodeRow(row, width) + DecodeRow(s, width).value.1
  {
    hide DecodeCompressed, EncodePieces, Expand, ValidPieces, Transpose, RawPixels, Marker;
    if |s| >= 4 && s[..4] == Marker(width) {
      assert s == Marker(width) + s[4..];
      row := CompressedWasEncoded(s[4..], width);
    } else {
      row := Raw(s[..4 * width]);
      assert s[..4 * width][..4] == s[..4];
    }
  }

  // So the reader accepts exactly the files that some rows encode, and gives their pixels.
  lemma {:induction false} RowsWereEncoded(s: seq<Byte>, done: seq<seq<Pixel>>, width: nat, height: nat)
        returns (rows: seq<Row>, rest: seq<Byte>)
    requires 8 <= width <= 32767 && |done| <= height && DecodeRows(s, done, width, height).Some?
    ensures ValidRows(rows, width) && |rows| == height - |done|
    ensures s == EncodeRows(rows, width) + rest
    ensures DecodeRows(s, done, width, height) == Some(done + AllPixels(rows, width))
    decreases height - |done|
  {
    hide DecodeRow, EncodeRow, Pixels, ValidRow;
    if |done| == height {
      rows, rest := [], s;
      assert done + AllPixels(rows, width) == done;
    } else {
      var row := RowWasEncoded(s, width);
      var pixels, more := DecodeRow(s, width).value.0, DecodeRow(s, width).value.1;
      var later;
      later, rest := RowsWereEncoded(more, done + [pixels], width, height);
      rows := [row] + later;
      assert rows[1..] == later;
      assert done + [pixels] + AllPixels(later, width) == done + AllPixels(rows, width);
    }
  }

  // ----- raw rows that begin with the marker

  predicate MarkerLike(bytes: seq<Byte>, width: nat)
    requires 8 <= width <= 32767
  {
    |bytes| == 4 * width && bytes[..4] == Marker(width)
  }

  // Such a row is taken for a compressed one, whatever follows it, and never read when its fifth
  // byte is zero.
  lemma {:induction false} MarkerLikeRawRow(bytes: seq<Byte>, rest: seq<Byte>, width: nat)
    requires 8 <= width <= 32767 && MarkerLike(bytes, width)
    ensures DecodeRow(bytes + rest, width) == DecodeCompressed(bytes[4..] + rest, width)
    ensures bytes[4] == 0 ==> DecodeRow(bytes + rest, width).None?
  {
    hide Marker;
    assert (bytes + rest)[..4] == bytes[..4] && (bytes + rest)[4..] == bytes[4..] + rest;
    assert (bytes[4..] + rest)[0] == bytes[4];
  }

  // The row is at the same time a compressed encoding of its own pixels.
  ghost predicate SelfEncoding(bytes: seq<Byte>, width: nat)
    requires 8 <= width <= 32767 && |bytes| == 4 * width
  {
    exists row: Row :: row.Compressed? && ValidRow(row, width)
                       && EncodeRow(row, width) == bytes && Pixels(row, width) == RawPixels(bytes, width)
  }

  // A raw row is read back exactly when it does not begin with the marker or encodes itself.
  lemma {:induction false} RawRowExactly(bytes: seq<Byte>, rest: seq<Byte>, width: nat)
    requires 8 <= width <= 32767 && |bytes| == 4 * width
    ensures DecodeRow(bytes + rest, width) == Some((RawPixels(bytes, width), rest))
       <==> !MarkerLike(bytes, width) || SelfEncoding(bytes, width)
  {
    hide DecodeRow, DecodeCompressed, EncodePieces, RawPixels, Marker;
    if !MarkerLike(bytes, width) {
      RowDecodes(Raw(bytes), rest, width);
    } else {
      if SelfEncoding(bytes, width) {
        var row: Row :| row.Compressed? && ValidRow(row, width)
          && EncodeRow(row, width) == bytes && Pixels(row, width) == RawPixels(bytes, width);
        RowDecodes(row, rest, width);
      }
      if DecodeRow(bytes + rest, width) == Some((RawPixels(bytes, width), rest)) {
        MarkerLikeRawRow(bytes, rest, width);
        var row := CompressedWasEncoded(bytes[4..] + rest, width);
        assert Marker(width) + (bytes[4..] + rest) == bytes + rest;
        SameFront(EncodeRow(row, width), bytes, rest);
      }
    }
  }

  lemma {:induction false} SameFront(a: seq<Byte>, b: seq<Byte>, rest: seq<Byte>)
    requires a + rest == b + rest
    ensures a == b
  {
    assert |a| == |b|;
    assert (a + rest)[..|a|] == a && (b + rest)[..|b|] == b;
  }

  // Decoding the row by itself tells.
  lemma {:induction false} SelfEncodingExactly(bytes: seq<Byte>, width: nat)
    requires 8 <= width <= 32767 && MarkerLike(bytes, width)
    ensures SelfEncoding(bytes, width) <==> DecodeCompressed(bytes[4..], width) == Some((RawPixels(bytes, width), []))
  {
    hide DecodeRow, DecodeCompressed, RawPixels, SelfEncoding;
    RawRowExactly(bytes, [], width);
    MarkerLikeRawRow(bytes, [], width);
    assert bytes[4..] + [] == bytes[4..];
  }

  // A row that encodes itself begins with a literal or a run of one, of the value 2.
  lemma {:induction false} SelfEncodingStart(bytes: seq<Byte>, width: nat)
    requires 8 <= width <= 32767 && |bytes| == 4 * width && SelfEncoding(bytes, width)
    ensures 1 <= bytes[4] <= 129 && bytes[5] == 2
  {
    var row: Row :| row.Compressed? && ValidRow(row, width)
      && EncodeRow(row, width) == bytes && Pixels(row, width) == RawPixels(bytes, width);
    assert Pixels(row, width)[0].r == bytes[0] && Pixels(row, width)[1].r == bytes[4];
    assert bytes[0] == Marker(width)[0];
    PiecesStart(row.r);
    var more := EncodePieces(row.g) + (EncodePieces(row.b) + EncodePieces(row.e));
    assert bytes[4..] == EncodePieces(row.r) + more;
    assert bytes[4] == EncodePieces(row.r)[0] && bytes[5] == EncodePieces(row.r)[1];
  }

  lemma {:induction false} PiecesStart(ps: seq<Piece>)
    requires ValidPieces(ps) && |Expand(ps)| >= 2
    ensures |EncodePieces(ps)| >= 2 && EncodePieces(ps)[1] == Expand(ps)[0]
    ensures EncodePieces(ps)[0] > 0
    ensures EncodePieces(ps)[0] >= 130 ==> Expand(ps)[1] == Expand(ps)[0]
  {
    assert ValidPiece(ps[0]);
  }

  // ----- the loops

  method ReadChannel(stream: seq<Byte>, from: nat, width: nat) returns (ok: bool, channel: seq<Byte>, position: nat)
    requires from <= |stream|
    ensures match DecodeChannel(stream[from..], width)
            case None => !ok
            case Some((bytes, rest)) =>
              ok && channel == bytes && from <= position <= |stream| && stream[position..] == rest
  {
    var row := new Byte[width](_ => 0);
    var x: nat := 0;
    position, ok := from, true;
    channel := [];
    while x < width && ok
      invariant x <= width && from <= position <= |stream|
      invariant DecodeFrom(stream[from..], [], width) == if ok then DecodeFrom(stream[position..], row[..x], width)
            else None
      decreases width - x, ok
    {
      var count;
      ok, count, position := ReadPiece(stream, position, row, x);
      x := if ok then x + count else x;
    }
    channel := row[..];
    assert ok ==> row[..x] == row[..];
  }

  // One run or literal, written to its place in the row.
  method ReadPiece(stream: seq<Byte>, from: nat, row: array<Byte>, x: nat) returns (ok: bool, count: nat, position: nat)
    requires from <= |stream| && x < row.Length
    modifies row
    ensures from <= position <= |stream| && row[..x] == old(row[..x])
    ensures ok ==> 0 < count <= row.Length - x && row[x + count..] == old(row[x + count..])
    ensures DecodeFrom(stream[from..], row[..x], row.Length) ==
              if ok then DecodeFrom(stream[position..], row[..x + count], row.Length) else None
  {
    ghost var s, done := stream[from..], row[..x];
    position, count, ok := from, 0, false;
    if from < |stream| {
      var code := stream[from];
      assert s[0] == code;
      position := from + 1;
      count := if code > 128 then code - 128 else code;
      var need := if code > 128 then 1 else count;
      if count != 0 && x + count <= row.Length && need <= |stream| - position {
        ok := true;
        forall i | 0 <= i < count {
          row[x + i] := if code > 128 then stream[position] else stream[position + i];
        }
        position := position + need;
        assert stream[position..] == s[1 + need..];
        assert row[..x + count] == done + if code > 128 then Repeat(s[1], count) else s[1..1 + count];
      }
    }
  }

  method ReadRow(stream: seq<Byte>, from: nat, width: nat) returns (row: Option<seq<Pixel>>, position: nat)
    requires from <= |stream| && 8 <= width <= 32767
    ensures from <= position <= |stream|
    ensures match DecodeRow(stream[from..], width)
            case None => row.None?
            case Some((pixels, rest)) => row == Some(pixels) && stream[position..] == rest
  {
    hide DecodeChannel, Transpose;
    ghost var s := stream[from..];
    row, position := None, from;
    if from + 4 <= |stream| && stream[from..from + 4] == Marker(width) {
      assert s[..4] == stream[from..from + 4] && s[4..] == stream[from + 4..];
      row, position := ReadCompressed(stream, from + 4, width);
    } else {
      assert |s| >= 4 ==> s[..4] == stream[from..from + 4];
      if from + 4 * width <= |stream| {
        assert s[..4 * width] == stream[from..from + 4 * width] && s[4 * width..] == stream[from + 4 * width..];
        row, position := Some(RawPixels(stream[from..from + 4 * width], width)), from + 4 * width;
      }
    }
  }

  method ReadCompressed(stream: seq<Byte>, from: nat, width: nat) returns (row: Option<seq<Pixel>>, position: nat)
    requires from <= |stream|
    ensures from <= position <= |stream|
    ensures match DecodeCompressed(stream[from..], width)
            case None => row.None?
            case Some((pixels, rest)) => row == Some(pixels) && stream[position..] == rest
  {
    hide DecodeChannel, Transpose;
    row, position := None, from;
    var okR, r, at := ReadChannel(stream, from, width);
    if okR {
      var okG, g, atG := ReadChannel(stream, at, width);
      if okG {
        var okB, b, atB := ReadChannel(stream, atG, width);
        if okB {
          var okE, e, atE := ReadChannel(stream, atB, width);
          if okE {
            row, position := Some(Transpose(r, g, b, e)), atE;
          }
        }
      }
    }
  }

  // Reads the rows after the header; the image, or None for the exceptions the reader raises.
  method ReadRows(stream: seq<Byte>, width: nat, height: nat) returns (image: Option<seq<seq<Pixel>>>)
    requires 8 <= width <= 32767
    ensures image == DecodeRows(stream, [], width, height)
  {
    hide DecodeRow;
    var rows: seq<seq<Pixel>> := [];
    var position, ok := 0, true;
    while |rows| < height && ok
      invariant |rows| <= height && 0 <= position <= |stream|
      invariant DecodeRows(stream, [], width, height) == if ok then DecodeRows(stream[position..], rows, width, height)
            else None
      decreases height - |rows|, ok
    {
      var row;
      row, position := ReadRow(stream, position, width);
      ok := row.Some?;
      if ok {
        rows := rows + [row.value];
      }
    }
    image := if ok then Some(rows) else None;
  }

  // ----- one row by its bytes

  // Two and two, the width, then for each channel runs of 128 plus their length or literals.
  lemma {:induction false} ExampleRow(r: Byte, g: Byte, b: Byte, e: Byte)
    ensures var s := [2, 2, 0, 8] + [136, r] + [136, g] + [133, b, 3, b, b, b] + [136, e];
            && DecodeRow(s, 8).Some? && DecodeRow(s, 8).value.1 == []
            && DecodeRow(s, 8).value.0 == seq(8, _ => Pixel(r, g, b, e))
  {
    hide Transpose, RawPixels, DecodeFrom;
    var runs := [Same(5, b), Literal([b, b, b])];
    RunOfEight(r);
    RunOfEight(g);
    RunOfEight(e);
    assert runs[1..] == [Literal([b, b, b])] && runs[1..][1..] == [];
    assert Expand(runs) == Repeat(b, 5) + [b, b, b] == Repeat(b, 8);
    assert EncodePieces(runs) == [133, b, 3, b, b, b];
    var row := Compressed([Same(8, r)], [Same(8, g)], runs, [Same(8, e)]);
    var s := [2, 2, 0, 8] + [136, r] + [136, g] + [133, b, 3, b, b, b] + [136, e];
    assert EncodeRow(row, 8) == s;
    RowDecodes(row, [], 8);
    assert s + [] == s;
    EightPixels(r, g, b, e);
  }

  lemma RunOfEight(v: Byte)
    ensures Expand([Same(8, v)]) == Repeat(v, 8) && EncodePieces([Same(8, v)]) == [136, v]
    ensures ValidPieces([Same(8, v)])
  {
    assert [Same(8, v)][1..] == [];
    assert Repeat(v, 8) + [] == Repeat(v, 8);
  }

  lemma EightPixels(r: Byte, g: Byte, b: Byte, e: Byte)
    ensures Transpose(Repeat(r, 8), Repeat(g, 8), Repeat(b, 8), Repeat(e, 8)) == seq(8, _ => Pixel(r, g, b, e))
  {
  }

  // A raw row is its pixels, four bytes each; the marker holds the width in two bytes.
  lemma {:induction false} RawRowIs(bytes: seq<Byte>, rest: seq<Byte>, width: nat, x: nat)
    requires 8 <= width <= 32767 && |bytes| == 4 * width && x < width && bytes[0] != 2
    ensures DecodeRow(bytes + rest, width).Some? && DecodeRow(bytes + rest, width).value.1 == rest
    ensures |DecodeRow(bytes + rest, width).value.0| == width
    ensures DecodeRow(bytes + rest, width).value.0[x]
         == Pixel(bytes[4 * x], bytes[4 * x + 1], bytes[4 * x + 2], bytes[4 * x + 3])
    ensures Marker(width)[2] as int * 256 + Marker(width)[3] as int == width
  {
    hide DecodeRow;
    assert bytes[..4][0] == bytes[0];
    RowDecodes(Raw(bytes), rest, width);
  }
}
