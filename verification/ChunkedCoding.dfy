/** The chunked transfer coding of RFC 9112 section 7.1 as Server::ReadHttpRequest understands it
    (Source/McpServer.cpp:1600-1737), as a pure decoder of the whole byte stream, and its inverse.
    Bytes are modelled as characters. */
module ChunkedCoding {
  import opened Options

  const MAX_HEADER := 65536
  const MAX_BODY := 16777216
  const MAX_CHUNKS := 65536

  const CRLF: string := "\r\n"
  const BLANK_LINE: string := "\r\n\r\n"

  datatype Error =
    | ReadFailed
    | TooManyChunks
    | LineTooLarge
    | InvalidSize
    | BodyTooLarge
    | InvalidTerminator

  datatype Result = Body(text: string) | Failed(error: Error)

  // ----- searching

  predicate At(s: string, pattern: string, i: nat) {
    i + |pattern| <= |s| && s[i..i + |pattern|] == pattern
  }

  // The first occurrence at or after `from`, or None.
  function Find(s: string, pattern: string, from: nat): (r: Option<nat>)
    requires from <= |s|
    ensures r.Some? ==>
          from <= r.value && r.value + |pattern| <= |s| && At(s, pattern, r.value)
          && forall j :: from <= j < r.value ==> !At(s, pattern, j)
    ensures r.None? ==> forall j :: from <= j ==> !At(s, pattern, j)
    decreases |s| - from
  {
    if At(s, pattern, from) then Some(from)
    else if from == |s| then None
    else Find(s, pattern, from + 1)
  }

  // What a search finds depends only on the text from the starting point on.
  lemma {:induction false} FindShifted(s: string, pattern: string, from: nat)
    requires from <= |s|
    ensures Find(s, pattern, from).Some? <==> Find(s[from..], pattern, 0).Some?
    ensures Find(s, pattern, from).Some? ==> Find(s, pattern, from).value == from + Find(s[from..], pattern, 0).value
  {
    forall j: nat ensures At(s[from..], pattern, j) <==> At(s, pattern, from + j) {
      if from + j + |pattern| <= |s| {
        assert s[from..][j..j + |pattern|] == s[from + j..from + j + |pattern|];
      }
    }
    FirstIsUnique(s, pattern, from);
  }

  lemma {:induction false} FirstIsUnique(s: string, pattern: string, from: nat)
    requires from <= |s|
    requires forall j: nat :: At(s[from..], pattern, j) <==> At(s, pattern, from + j)
    ensures Find(s, pattern, from).Some? <==> Find(s[from..], pattern, 0).Some?
    ensures Find(s, pattern, from).Some? ==> Find(s, pattern, from).value == from + Find(s[from..], pattern, 0).value
  {
    hide At;
    var a, b := Find(s, pattern, from), Find(s[from..], pattern, 0);
    if a.Some? {
      assert At(s[from..], pattern, a.value - from);
    }
    if b.Some? {
      assert At(s, pattern, from + b.value);
    }
  }

  // More text after it does not move an occurrence, and does not create an earlier one.
  lemma {:induction false} FindExtended(s: string, more: string, pattern: string)
    ensures Find(s, pattern, 0).Some? ==> Find(s + more, pattern, 0) == Find(s, pattern, 0)
    ensures Find(s, pattern, 0).None? && Find(s + more, pattern, 0).Some? ==>
              Find(s + more, pattern, 0).value + |pattern| > |s|
  {
    forall j: nat | j + |pattern| <= |s| ensures At(s + more, pattern, j) <==> At(s, pattern, j) {
      assert (s + more)[j..j + |pattern|] == s[j..j + |pattern|];
    }
  }

  // ----- chunk sizes

  predicate IsSpace(c: char) {
    c in {' ', '\t', '\n', '\r', 11 as char, 12 as char}
  }

  function TrimLeft(s: string): string {
    if s != "" && IsSpace(s[0]) then TrimLeft(s[1..]) else s
  }

  function TrimRight(s: string): string {
    if s != "" && IsSpace(s[|s| - 1]) then TrimRight(s[..|s| - 1]) else s
  }

  predicate IsHex(c: char) {
    '0' <= c <= '9' || 'a' <= c <= 'f' || 'A' <= c <= 'F'
  }

  function Digit(c: char): (d: nat)
    requires IsHex(c)
    ensures d < 16
  {
    if c <= '9' then c as nat - '0' as nat
    else if c <= 'F' then c as nat - 'A' as nat + 10
    else c as nat - 'a' as nat + 10
  }

  predicate AllHex(s: string) {
    forall i :: 0 <= i < |s| ==> IsHex(s[i])
  }

  function HexValue(s: string): nat
    requires AllHex(s)
  {
    if s == "" then 0 else 16 * HexValue(s[..|s| - 1]) + Digit(s[|s| - 1])
  }

  const SIZE_LIMIT := 0x1_0000_0000_0000_0000

  // The size a chunk line announces: what stands before the first semicolon, trimmed, as a
  // hexadecimal number of 64 bits.
  function ParseSize(line: string): Option<nat> {
    var extension := Find(line, ";", 0);
    var text := TrimRight(TrimLeft(if extension.Some? then line[..extension.value] else line));
    if text == "" || !AllHex(text) || HexValue(text) >= SIZE_LIMIT then None else Some(HexValue(text))
  }

  // ----- the decoder

  // How much of the text a search for the pattern has to see: all up to its end, or more than there
  // is when it does not occur.
  function Extent(s: string, pattern: string): nat {
    var end := Find(s, pattern, 0);
    if end.Some? then end.value + |pattern| else |s| + 1
  }

  // Whether the size limit rejects a line or trailer at the front of `s`. It is looked at between
  // receives only; `looks` holds the number of bytes still to come at each of these moments. The
  // line is rejected when at one of them the buffer is above the limit without its end being there.
  ghost predicate Refused(s: string, pattern: string, looks: iset<nat>) {
    exists left :: left in looks && MAX_HEADER < |s| - left < Extent(s, pattern)
  }

  // The limit is looked at after every byte.
  ghost predicate Everywhere(looks: iset<nat>) {
    forall left: nat :: left in looks
  }

  // The line or trailer is short enough to be found however the bytes arrive.
  predicate Fits(s: string, pattern: string) {
    Extent(s, pattern) <= MAX_HEADER + 1
  }

  lemma {:induction false} FitsExactly(s: string, pattern: string, looks: iset<nat>)
    ensures Fits(s, pattern) ==> !Refused(s, pattern, looks)
    ensures Everywhere(looks) ==> (Fits(s, pattern) <==> !Refused(s, pattern, looks))
  {
    hide Find;
    if !Fits(s, pattern) && Everywhere(looks) {
      var left: nat := |s| - MAX_HEADER - 1;
      assert left in looks;
    }
  }

  // Decodes the stream `s`, with `body` decoded so far from `count` chunks and the size limit looked
  // at where `looks` says.
  ghost function Decode(s: string, body: string, count: nat, looks: iset<nat>): (r: Result)
    requires |body| <= MAX_BODY
    ensures r.Body? ==> |r.text| <= MAX_BODY && body <= r.text
    decreases |s|
  {
    if count + 1 > MAX_CHUNKS then Failed(TooManyChunks)
    else if Refused(s, CRLF, looks) then Failed(LineTooLarge)
    else
      match Find(s, CRLF, 0)
      case None => Failed(ReadFailed)
      case Some(end) =>
        match ParseSize(s[..end])
        case None => Failed(InvalidSize)
        case Some(size) =>
          var rest := s[end + 2..];
          if size == 0 then DecodeTrailer(rest, body, looks)
          else if size > MAX_BODY - |body| then Failed(BodyTooLarge)
          else if |rest| < size + 2 then Failed(ReadFailed)
          else if rest[size..size + 2] != CRLF then Failed(InvalidTerminator)
          else Decode(rest[size + 2..], body + rest[..size], count + 1, looks)
  }

  ghost function DecodeTrailer(s: string, body: string, looks: iset<nat>): Result {
    if |s| < 2 then Failed(ReadFailed)
    else if s[..2] == CRLF then Body(body)
    else if Refused(s, BLANK_LINE, looks) then Failed(LineTooLarge)
    else if Find(s, BLANK_LINE, 0).Some? then Body(body)
    else Failed(ReadFailed)
  }

  // Looking at the limit more often only ever turns a result into LineTooLarge.
  lemma {:induction false} LimitOnlyRejects(s: string, body: string, count: nat, fewer: iset<nat>, more: iset<nat>)
    requires |body| <= MAX_BODY && fewer <= more
    ensures Decode(s, body, count, more) == Failed(LineTooLarge)
            || Decode(s, body, count, more) == Decode(s, body, count, fewer)
    decreases |s|
  {
    hide ParseSize, Find, Extent;
    var end := Find(s, CRLF, 0);
    if end.Some? && ParseSize(s[..end.value]).Some? {
      var size, rest := ParseSize(s[..end.value]).value, s[end.value + 2..];
      if size > 0 && size <= MAX_BODY - |body| && |rest| >= size + 2 {
        LimitOnlyRejects(rest[size + 2..], body + rest[..size], count + 1, fewer, more);
      }
    }
  }

  // Looks at a buffer within the limit make no difference.
  lemma {:induction false} EarlyLooksAreIdle(s: string, body: string, count: nat, a: iset<nat>, b: iset<nat>)
    requires |body| <= MAX_BODY
    requires forall left: nat :: left + MAX_HEADER < |s| ==> (left in a <==> left in b)
    ensures Decode(s, body, count, a) == Decode(s, body, count, b)
    decreases |s|
  {
    hide ParseSize, Find, Extent;
    var end := Find(s, CRLF, 0);
    if end.Some? && ParseSize(s[..end.value]).Some? {
      var size, rest := ParseSize(s[..end.value]).value, s[end.value + 2..];
      if size > 0 && size <= MAX_BODY - |body| && |rest| >= size + 2 {
        EarlyLooksAreIdle(rest[size + 2..], body + rest[..size], count + 1, a, b);
      }
    }
  }

  // ----- the encoder

  // ----- sizes as a sender writes them

  const LOWER: string := "0123456789abcdef"
  const UPPER: string := "0123456789ABCDEF"

  // The digits of a number to base sixteen, found by division.
  function HexDigits(n: nat): (d: seq<nat>)
    ensures d != [] && forall i :: 0 <= i < |d| ==> d[i] < 16
  {
    if n < 16 then [n] else HexDigits(n / 16) + [n % 16]
  }

  predicate IsDigitChar(c: char, d: nat) {
    d < 16 && (c == LOWER[d] || c == UPPER[d])
  }

  // The text shows the number: its digits in either case, after any number of zeros.
  predicate Shows(size: string, n: nat) {
    var d := HexDigits(n);
    var zeros := |size| - |d|;
    && zeros >= 0
    && (forall i :: 0 <= i < zeros ==> size[i] == '0')
    && (forall i :: 0 <= i < |d| ==> IsDigitChar(size[zeros + i], d[i]))
  }

  lemma {:induction false} DigitChars(c: char, d: nat)
    ensures IsDigitChar(c, d) <==> IsHex(c) && Digit(c) == d
  {
  }

  lemma ManyDigits(n: nat)
    ensures |HexDigits(n)| >= 2 <==> n >= 16
  {
  }

  // The text before the last digit shows what division leaves.
  lemma {:induction false} ShowsPrefix(size: string, n: nat)
    requires Shows(size, n) && |size| > 1
    ensures Shows(size[..|size| - 1], n / 16) && IsDigitChar(size[|size| - 1], n % 16)
  {
    hide IsDigitChar;
    var d, before := HexDigits(n), size[..|size| - 1];
    assert d[|d| - 1] == n % 16;
    if n < 16 {
      assert IsDigitChar(before[|before| - 1], 0) by { ZeroIsDigit(); }
    } else {
      assert HexDigits(n / 16) == d[..|d| - 1];
    }
  }

  lemma ZeroIsDigit()
    ensures IsDigitChar('0', 0)
  {
  }

  // So it is read as that number,
  lemma {:induction false} ShownIsRead(size: string, n: nat)
    requires Shows(size, n)
    ensures size != "" && AllHex(size) && HexValue(size) == n
    decreases |size|
  {
    hide IsDigitChar, IsHex, Digit;
    var last := |size| - 1;
    if last == 0 {
      ManyDigits(n);
      assert HexDigits(n) == [n] && IsDigitChar(size[0], HexDigits(n)[0]);
      DigitChars(size[0], n);
      assert size[..0] == "" && HexValue("") == 0;
    } else {
      ShowsPrefix(size, n);
      ShownIsRead(size[..last], n / 16);
      DigitChars(size[last], n % 16);
      assert forall i :: 0 <= i < last ==> size[i] == size[..last][i];
    }
  }

  // and every hexadecimal text shows the number it is read as.
  lemma {:induction false} ReadIsShown(size: string)
    requires size != "" && AllHex(size)
    ensures Shows(size, HexValue(size))
    decreases |size|
  {
    hide IsDigitChar, IsHex, Digit;
    var last := |size| - 1;
    var n, before := HexValue(size), size[..last];
    assert IsHex(size[last]);
    DigitChars(size[last], Digit(size[last]));
    assert n == 16 * HexValue(before) + Digit(size[last]);
    if last == 0 {
      assert HexValue(before) == 0;
    } else {
      assert forall i :: 0 <= i < last ==> before[i] == size[i];
      ReadIsShown(before);
      AppendDigit(before, HexValue(before), size[last], Digit(size[last]));
      assert size == before + [size[last]];
    }
  }

  lemma {:induction false} AppendDigit(before: string, n: nat, c: char, digit: nat)
    requires Shows(before, n) && IsDigitChar(c, digit)
    ensures Shows(before + [c], 16 * n + digit)
  {
    var d, e := HexDigits(n), HexDigits(16 * n + digit);
    var size := before + [c];
    if n == 0 {
      assert e == [digit] && d == [0];
      assert LOWER[0] == '0' && UPPER[0] == '0';
      assert IsDigitChar(before[|before| - |d| + 0], d[0]);
      assert size[|size| - 1] == c;
    } else {
      assert (16 * n + digit) / 16 == n && (16 * n + digit) % 16 == digit;
      assert e == d + [digit];
      forall i | 0 <= i < |e| ensures IsDigitChar(size[|size| - |e| + i], e[i]) {
        if i < |d| {
          assert size[|size| - |e| + i] == before[|before| - |d| + i];
        }
      }
    }
  }

  // A chunk as a sender may write it: a size in any notation the grammar allows, optional space
  // and extension, and the data.
  datatype Chunk = Chunk(size: string, space: string, extension: string, data: string)

  function Line(size: string, space: string, extension: string): string {
    size + space + extension
  }

  predicate ValidLine(size: string, space: string, extension: string, value: nat) {
    && Shows(size, value)
    && (forall i :: 0 <= i < |space| ==> space[i] == ' ' || space[i] == '\t')
    && (extension == "" || extension[0] == ';')
    && (forall j :: 0 <= j < |Line(size, space, extension)| ==> !At(Line(size, space, extension), CRLF, j))
    && |Line(size, space, extension)| < MAX_HEADER
  }

  predicate ValidChunk(c: Chunk) {
    c.data != "" && ValidLine(c.size, c.space, c.extension, |c.data|)
  }

  function EncodeChunk(c: Chunk): string {
    Line(c.size, c.space, c.extension) + CRLF + c.data + CRLF
  }

  function EncodeChunks(cs: seq<Chunk>): string {
    if cs == [] then "" else EncodeChunk(cs[0]) + EncodeChunks(cs[1..])
  }

  function AllData(cs: seq<Chunk>): string {
    if cs == [] then "" else cs[0].data + AllData(cs[1..])
  }

  // The last line announces zero; then comes an empty line, or trailer fields up to one.
  predicate ValidEnd(last: Chunk, trailer: string) {
    && ValidLine(last.size, last.space, last.extension, 0)
    && |trailer| >= 2
    && (trailer[..2] == CRLF ||
        (Find(trailer, BLANK_LINE, 0).Some? && Find(trailer, BLANK_LINE, 0).value + 3 <= MAX_HEADER))
  }

  function Encode(cs: seq<Chunk>, last: Chunk, trailer: string): string {
    EncodeChunks(cs) + Line(last.size, last.space, last.extension) + CRLF + trailer
  }

  lemma {:induction false} TrimLeftHex(s: string)
    requires s != "" && IsHex(s[0])
    ensures TrimLeft(s) == s
  {
  }

  lemma {:induction false} TrimRightSpace(s: string, space: string)
    requires s != "" && IsHex(s[|s| - 1]) && forall i :: 0 <= i < |space| ==> IsSpace(space[i])
    ensures TrimRight(s + space) == s
    decreases |space|
  {
    if space == "" {
      assert s + space == s;
    } else {
      var n := |space| - 1;
      assert (s + space)[..|s + space| - 1] == s + space[..n];
      TrimRightSpace(s, space[..n]);
    }
  }

  lemma {:induction false} ParsesValidLine(size: string, space: string, extension: string, value: nat)
    requires ValidLine(size, space, extension, value) && value < SIZE_LIMIT
    ensures ParseSize(Line(size, space, extension)) == Some(value)
  {
    hide HexValue, Shows;
    ShownIsRead(size, value);
    var line := Line(size, space, extension);
    var text := size + space;
    forall j | 0 <= j < |text| ensures !At(line, ";", j) {
      assert line[j..j + 1] == [text[j]];
      assert text[j] != ';' by {
        if j < |size| { assert IsHex(size[j]); } else { assert text[j] == space[j - |size|]; }
      }
    }
    if extension == "" {
      assert line == text;
    } else {
      assert line[|text|..|text| + 1] == ";";
      assert At(line, ";", |text|);
      assert line[..|text|] == text;
    }
    TrimLeftHex(text);
    TrimRightSpace(size, space);
  }

  // The end of a valid line is where the sender put it, and it fits.
  lemma {:induction false} LineEndsThere(line: string, more: string)
    requires (forall j :: 0 <= j < |line| ==> !At(line, CRLF, j)) && |line| < MAX_HEADER
    ensures Find(line + CRLF + more, CRLF, 0) == Some(|line|) && Fits(line + CRLF + more, CRLF)
  {
    var s := line + CRLF + more;
    assert s[|line|..|line| + 2] == CRLF;
    assert At(s, CRLF, |line|);
    forall j | 0 <= j < |line| ensures !At(s, CRLF, j) {
      if j + 2 <= |line| {
        assert s[j..j + 2] == line[j..j + 2];
        assert !At(line, CRLF, j);
      } else {
        assert s[j + 1] == '\r';
      }
    }
  }

  lemma {:induction false} DecodesTrailer(trailer: string, more: string, body: string, looks: iset<nat>)
    requires |trailer| >= 2
    requires trailer[..2] == CRLF ||
             (Find(trailer, BLANK_LINE, 0).Some? && Find(trailer, BLANK_LINE, 0).value + 3 <= MAX_HEADER)
    ensures DecodeTrailer(trailer + more, body, looks) == Body(body)
  {
    assert (trailer + more)[..2] == trailer[..2];
    FindExtended(trailer, more, BLANK_LINE);
    FitsExactly(trailer + more, BLANK_LINE, looks);
  }

  // One encoded chunk in front of anything is decoded and taken off.
  lemma {:induction false} DecodesChunk(c: Chunk, more: string, body: string, count: nat, looks: iset<nat>)
    requires ValidChunk(c) && |body| + |c.data| <= MAX_BODY && count < MAX_CHUNKS
    ensures Decode(EncodeChunk(c) + more, body, count, looks) == Decode(more, body + c.data, count + 1, looks)
  {
    hide Fits, Refused, ParseSize, At, Decode, Line;
    var line := Line(c.size, c.space, c.extension);
    var s := EncodeChunk(c) + more;
    var rest := c.data + CRLF + more;
    assert s == line + CRLF + rest;
    LineEndsThere(line, rest);
    FitsExactly(s, CRLF, looks);
    assert s[..|line|] == line && s[|line| + 2..] == rest;
    ParsesValidLine(c.size, c.space, c.extension, |c.data|);
    assert rest[..|c.data|] == c.data && rest[|c.data|..|c.data| + 2] == CRLF && rest[|c.data| + 2..] == more;
    TakesChunk(s, |line|, |c.data|, body, count, looks);
  }

  // One step of the decoder.
  lemma {:induction false} TakesChunk(s: string, end: nat, size: nat, body: string, count: nat, looks: iset<nat>)
    requires Find(s, CRLF, 0) == Some(end) && !Refused(s, CRLF, looks) && ParseSize(s[..end]) == Some(size)
    requires 0 < size <= MAX_BODY - |body| && count < MAX_CHUNKS
    requires |s| >= end + 2 + size + 2 && s[end + 2..][size..size + 2] == CRLF
    ensures Decode(s, body, count, looks)
         == Decode(s[end + 2..][size + 2..], body + s[end + 2..][..size], count + 1, looks)
  {
    hide Refused, ParseSize, Find;
  }

  lemma {:induction false} DecodesEnd(last: Chunk, trailer: string, more: string, body: string, count: nat,
        looks: iset<nat>)
    requires ValidEnd(last, trailer) && |body| <= MAX_BODY && count < MAX_CHUNKS
    ensures Decode(Encode([], last, trailer) + more, body, count, looks) == Body(body)
  {
    hide Fits, Refused, ParseSize, At, DecodeTrailer;
    var line := Line(last.size, last.space, last.extension);
    var s := Encode([], last, trailer) + more;
    assert s == line + CRLF + (trailer + more);
    LineEndsThere(line, trailer + more);
    FitsExactly(s, CRLF, looks);
    assert s[..|line|] == line && s[|line| + 2..] == trailer + more;
    ParsesValidLine(last.size, last.space, last.extension, 0);
    DecodesTrailer(trailer, more, body, looks);
  }

  // Chunks in front of anything are decoded and taken off.
  lemma {:induction false} ChunksDecode(cs: seq<Chunk>, more: string, body: string, count: nat, looks: iset<nat>)
    requires (forall i :: 0 <= i < |cs| ==> ValidChunk(cs[i]))
    requires |body| + |AllData(cs)| <= MAX_BODY && count + |cs| <= MAX_CHUNKS
    ensures Decode(EncodeChunks(cs) + more, body, count, looks)
         == Decode(more, body + AllData(cs), count + |cs|, looks)
    decreases |cs|
  {
    hide Decode, ValidChunk, EncodeChunk;
    if cs == [] {
      assert EncodeChunks(cs) + more == more && body + AllData(cs) == body;
    } else {
      var c, later := cs[0], EncodeChunks(cs[1..]) + more;
      assert EncodeChunks(cs) + more == EncodeChunk(c) + later;
      DecodesChunk(c, later, body, count, looks);
      ChunksDecode(cs[1..], more, body + c.data, count + 1, looks);
      assert body + c.data + AllData(cs[1..]) == body + AllData(cs);
    }
  }

  // Every valid encoding decodes to exactly its chunks' data, whatever follows it on the stream
  // and however its bytes arrive.
  lemma {:induction false} DecodesEncoding(cs: seq<Chunk>, last: Chunk, trailer: string, more: string, body: string,
        count: nat, looks: iset<nat>)
    requires (forall i :: 0 <= i < |cs| ==> ValidChunk(cs[i])) && ValidEnd(last, trailer)
    requires |body| + |AllData(cs)| <= MAX_BODY && count + |cs| < MAX_CHUNKS
    ensures Decode(Encode(cs, last, trailer) + more, body, count, looks) == Body(body + AllData(cs))
  {
    hide Decode, ValidChunk, ValidEnd, EncodeChunks, Line;
    var end := Encode([], last, trailer) + more;
    NoChunks();
    assert Encode(cs, last, trailer) + more == EncodeChunks(cs) + end;
    ChunksDecode(cs, end, body, count, looks);
    DecodesEnd(last, trailer, more, body + AllData(cs), count + |cs|, looks);
  }

  lemma NoChunks()
    ensures EncodeChunks([]) == ""
  {
  }
}
