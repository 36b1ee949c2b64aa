/** The size line of a chunk (Source/McpServer.cpp:1638-1672): which lines announce which size, and
    what the decoder answers to each, with the limits as the numbers they are. */
module ChunkLines {
  import opened Options
  import opened ChunkedCoding

  predicate White(c: char) {
    c == ' ' || 9 <= c as int <= 13
  }

  predicate AllWhite(s: string) {
    forall i :: 0 <= i < |s| ==> White(s[i])
  }

  predicate Without(s: string, pattern: string) {
    forall j :: 0 <= j < |s| ==> !At(s, pattern, j)
  }

  // The parts of a line that announces n bytes: a number to base sixteen between white space, and
  // whatever follows a semicolon.
  predicate Announces(before: string, size: string, after: string, extension: string, n: nat) {
    AllWhite(before) && Shows(size, n) && AllWhite(after) && (extension == "" || extension[0] == ';')
  }

  lemma {:induction false} SpaceIsWhite(c: char)
    ensures IsSpace(c) <==> White(c)
  {
  }

  lemma NoSemicolon(c: char)
    requires White(c) || IsHex(c)
    ensures c != ';'
  {
  }

  lemma HexIsDark(c: char)
    requires IsHex(c)
    ensures !White(c)
  {
  }

  // ----- the parts of a line

  lemma {:induction false} TrimsLeft(before: string, s: string)
    requires AllWhite(before) && s != "" && !White(s[0])
    ensures TrimLeft(before + s) == s
  {
    hide White, IsSpace;
    if before == "" {
      assert before + s == s;
      SpaceIsWhite(s[0]);
    } else {
      SpaceIsWhite(before[0]);
      assert (before + s)[1..] == before[1..] + s;
      TrimsLeft(before[1..], s);
    }
  }

  lemma {:induction false} TrimsRight(s: string, after: string)
    requires AllWhite(after) && s != "" && !White(s[|s| - 1])
    ensures TrimRight(s + after) == s
  {
    hide White, IsSpace;
    if after == "" {
      assert s + after == s;
      SpaceIsWhite(s[|s| - 1]);
    } else {
      var n := |after| - 1;
      SpaceIsWhite(after[n]);
      assert (s + after)[..|s + after| - 1] == s + after[..n];
      TrimsRight(s, after[..n]);
    }
  }

  // The first semicolon starts the extension.
  lemma {:induction false} SemicolonIsFound(text: string, extension: string)
    requires (forall i :: 0 <= i < |text| ==> text[i] != ';') && (extension == "" || extension[0] == ';')
    ensures Find(text + extension, ";", 0) == if extension == "" then None else Some(|text|)
  {
    var line := text + extension;
    forall j | 0 <= j < |text| ensures !At(line, ";", j) {
      assert line[j..j + 1] == [text[j]];
    }
    if extension != "" {
      assert line[|text|..|text| + 1] == ";";
      assert At(line, ";", |text|);
    }
  }

  // A line that announces a number is read as that number, unless it has more than 64 bits.
  lemma {:induction false} AnnouncedIsParsed(before: string, size: string, after: string, extension: string, n: nat)
    requires Announces(before, size, after, extension, n)
    ensures ParseSize(before + size + after + extension) == if n < 0x1_0000_0000_0000_0000 then Some(n) else None
  {
    hide White, IsHex, Shows, HexValue, Find, TrimLeft, TrimRight;
    ShownIsRead(size, n);
    assert IsHex(size[0]) && IsHex(size[|size| - 1]);
    HexIsDark(size[0]);
    HexIsDark(size[|size| - 1]);
    var text := before + size + after;
    var line := text + extension;
    forall i | 0 <= i < |text| ensures text[i] != ';' {
      NoSemicolon(text[i]);
    }
    SemicolonIsFound(text, extension);
    assert (if extension == "" then line else line[..|text|]) == text;
    assert text == before + (size + after);
    TrimsLeft(before, size + after);
    TrimsRight(size, after);
  }

  lemma {:induction false} LeftSplits(s: string) returns (before: string)
    ensures AllWhite(before) && s == before + TrimLeft(s)
  {
    hide White, IsSpace;
    if s != "" && IsSpace(s[0]) {
      SpaceIsWhite(s[0]);
      var b := LeftSplits(s[1..]);
      before := [s[0]] + b;
    } else {
      before := "";
    }
  }

  lemma {:induction false} RightSplits(s: string) returns (after: string)
    ensures AllWhite(after) && s == TrimRight(s) + after
  {
    hide White, IsSpace;
    if s != "" && IsSpace(s[|s| - 1]) {
      var n := |s| - 1;
      SpaceIsWhite(s[n]);
      var a := RightSplits(s[..n]);
      after := a + [s[n]];
      assert s == s[..n] + [s[n]];
    } else {
      after := "";
    }
  }

  // Every line that is read as a number announces it.
  lemma {:induction false} ParsedIsAnnounced(line: string)
      returns (before: string, size: string, after: string, extension: string)
    requires ParseSize(line).Some?
    ensures var n := ParseSize(line).value;
            n < 0x1_0000_0000_0000_0000 && line == before + size + after + extension
            && Announces(before, size, after, extension, n)
  {
    hide White, Shows, HexValue, TrimLeft, TrimRight, AllHex, AllWhite;
    var semicolon := Find(line, ";", 0);
    var text := if semicolon.Some? then line[..semicolon.value] else line;
    extension := line[|text|..];
    if semicolon.Some? {
      assert line[semicolon.value..semicolon.value + 1] == ";";
      assert extension[0] == line[semicolon.value] == ';';
    }
    before := LeftSplits(text);
    after := RightSplits(TrimLeft(text));
    size := TrimRight(TrimLeft(text));
    ReadIsShown(size);
    assert text == before + (size + after) == before + size + after;
  }

  // ----- the answers

  predicate Contains(s: string, pattern: string) {
    exists j :: 0 <= j <= |s| && At(s, pattern, j)
  }

  lemma {:induction false} LineIsFound(line: string, rest: string)
    requires Without(line, "\r\n")
    ensures var s := line + "\r\n" + rest;
            Find(s, CRLF, 0) == Some(|line|) && s[..|line|] == line && s[|line| + 2..] == rest
  {
    var s := line + "\r\n" + rest;
    assert s[|line|..|line| + 2] == "\r\n";
    assert At(s, CRLF, |line|);
    forall j | 0 <= j < |line| ensures !At(s, CRLF, j) {
      if j + 2 <= |line| {
        assert s[j..j + 2] == line[j..j + 2];
        assert !At(line, "\r\n", j);
      } else {
        assert s[j + 1] == '\r';
      }
    }
  }

  // A line passes the limit, looked at after every byte, exactly when it has at most 65535 bytes.
  lemma {:induction false} LineLimit(line: string, rest: string, looks: iset<nat>)
    requires Without(line, "\r\n") && Everywhere(looks)
    ensures Refused(line + "\r\n" + rest, CRLF, looks) <==> |line| > 65535
  {
    hide Refused, Find;
    LineIsFound(line, rest);
    FitsExactly(line + "\r\n" + rest, CRLF, looks);
  }

  // What becomes of a chunk behind a line that was let through and announces n bytes.
  lemma {:induction false} ChunkAnswers(line: string, n: nat, rest: string, body: string, count: nat, looks: iset<nat>)
    requires Without(line, "\r\n") && ParseSize(line) == Some(n) && n > 0
    requires |body| <= 16777216 && count < 65536 && !Refused(line + "\r\n" + rest, CRLF, looks)
    ensures var answer := Decode(line + "\r\n" + rest, body, count, looks);
            if |body| + n > 16777216 then answer == Failed(BodyTooLarge)
            else if |rest| < n + 2 then answer == Failed(ReadFailed)
            else if rest[n..n + 2] != "\r\n" then answer == Failed(InvalidTerminator)
            else answer == Decode(rest[n + 2..], body + rest[..n], count + 1, looks)
  {
    hide Refused, Find, ParseSize;
    LineIsFound(line, rest);
  }

  // And behind the other lines: too many, without a size, or the last one with its trailer.
  lemma {:induction false} OtherAnswers(line: string, rest: string, body: string, count: nat, looks: iset<nat>)
    requires Without(line, "\r\n") && |body| <= 16777216
    requires !Refused(line + "\r\n" + rest, CRLF, looks) && !Refused(rest, BLANK_LINE, looks)
    ensures var answer := Decode(line + "\r\n" + rest, body, count, looks);
            && (count >= 65536 ==> answer == Failed(TooManyChunks))
            && (count < 65536 && ParseSize(line).None? ==> answer == Failed(InvalidSize))
            && (count < 65536 && ParseSize(line) == Some(0) ==>
                  answer == if |rest| >= 2 && (rest[..2] == "\r\n" || Contains(rest, "\r\n\r\n")) then Body(body)
                            else Failed(ReadFailed))
  {
    hide Refused, ParseSize, At;
    LineIsFound(line, rest);
  }
}
