/** The lexer of PBRT files (Source/PbrtSceneImporter.cpp:122-245). */
module PbrtLexer {
  import opened Options

  datatype Kind = LeftBracket | RightBracket | String | Number | Identifier | End

  datatype Location = Location(line: nat, column: nat)

  datatype Token = Token(kind: Kind, text: string, location: Location)

  predicate IsSpace(c: char) {
    c in {' ', '\t', '\n', '\r', 11 as char, 12 as char}
  }

  // What ends a bare word.
  predicate Delimits(c: char) {
    IsSpace(c) || c == '[' || c == ']' || c == '"' || c == '#'
  }

  // Line and column of position i, both from one.
  function LocationOf(s: string, i: nat): Location
    requires i <= |s|
  {
    if i == 0 then Location(1, 1)
    else
      var before := LocationOf(s, i - 1);
      if s[i - 1] == '\n' then Location(before.line + 1, 1) else Location(before.line, before.column + 1)
  }

  // ----- what is read from position i on

  function CommentEnd(s: string, i: nat): (j: nat)
    requires i <= |s|
    ensures i <= j <= |s|
    decreases |s| - i
  {
    if i == |s| || s[i] == '\n' then i else CommentEnd(s, i + 1)
  }

  // Behind white space and comments.
  function GapEnd(s: string, i: nat): (j: nat)
    requires i <= |s|
    ensures i <= j <= |s| && (j < |s| ==> !IsSpace(s[j]) && s[j] != '#')
    decreases |s| - i
  {
    if i == |s| then i
    else if IsSpace(s[i]) then GapEnd(s, i + 1)
    else if s[i] == '#' then GapEnd(s, CommentEnd(s, i + 1))
    else i
  }

  function Unescaped(c: char): char {
    if c == 'n' then '\n' else if c == 'r' then '\r' else if c == 't' then '\t' else c
  }

  // The rest of a quoted string, and where it ends; None when it does not.
  function QuotedFrom(s: string, i: nat, value: string): (r: Option<(string, nat)>)
    requires i <= |s|
    ensures r.Some? ==> i < r.value.1 <= |s|
    decreases |s| - i
  {
    if i == |s| then None
    else if s[i] == '"' then Some((value, i + 1))
    else if s[i] != '\\' then QuotedFrom(s, i + 1, value + [s[i]])
    else if i + 1 == |s| then None
    else QuotedFrom(s, i + 2, value + [Unescaped(s[i + 1])])
  }

  function BareEnd(s: string, i: nat): (j: nat)
    requires i <= |s|
    ensures i <= j <= |s| && (i < |s| && !Delimits(s[i]) ==> i < j)
    decreases |s| - i
  {
    if i == |s| || Delimits(s[i]) then i else BareEnd(s, i + 1)
  }

  // The token that starts at i, and where it ends. `isNumber` is the library's number parser.
  function TokenAt(s: string, i: nat, isNumber: string -> bool): (r: Option<(Token, nat)>)
    requires i < |s| && !IsSpace(s[i]) && s[i] != '#'
    ensures r.Some? ==> i < r.value.1 <= |s|
  {
    var location := LocationOf(s, i);
    if s[i] == '[' then Some((Token(LeftBracket, "[", location), i + 1))
    else if s[i] == ']' then Some((Token(RightBracket, "]", location), i + 1))
    else if s[i] == '"' then
      match QuotedFrom(s, i + 1, "")
      case None => None
      case Some((value, end)) => Some((Token(String, value, location), end))
    else
      var word := s[i..BareEnd(s, i)];
      Some((Token(if isNumber(word) then Number else Identifier, word, location), BareEnd(s, i)))
  }

  // All tokens from i on, after some; None for a string without end.
  function LexFrom(s: string, i: nat, tokens: seq<Token>, isNumber: string -> bool): Option<seq<Token>>
    requires i <= |s|
    decreases |s| - i
  {
    var start := GapEnd(s, i);
    if start == |s| then Some(tokens + [Token(End, "", LocationOf(s, start))])
    else
      match TokenAt(s, start, isNumber)
      case None => None
      case Some((token, end)) => LexFrom(s, end, tokens + [token], isNumber)
  }

  // ----- the class

  class Lexer {
    const source: string
    const isNumber: string -> bool
    var offset: nat
    var line: nat
    var column: nat

    ghost predicate Valid()
      reads this
    {
      offset <= |source| && Location(line, column) == LocationOf(source, offset)
    }

    constructor (source: string, isNumber: string -> bool)
      ensures Valid() && this.source == source && this.isNumber == isNumber && offset == 0
    {
      this.source := source;
      this.isNumber := isNumber;
      offset, line, column := 0, 1, 1;
    }

    method Advance()
      requires Valid() && offset < |source|
      modifies this
      ensures Valid() && offset == old(offset) + 1
    {
      if source[offset] == '\n' {
        line, column := line + 1, 1;
      } else {
        column := column + 1;
      }
      offset := offset + 1;
    }

    method SkipWhitespaceAndComments()
      requires Valid()
      modifies this
      ensures Valid() && offset == GapEnd(source, old(offset))
    {
      hide LocationOf;
      while offset < |source| && (IsSpace(source[offset]) || source[offset] == '#')
        invariant Valid() && GapEnd(source, old(offset)) == GapEnd(source, offset)
        decreases |source| - offset
      {
        if IsSpace(source[offset]) {
          Advance();
        } else {
          Advance();
          SkipComment();
        }
      }
    }

    method SkipComment()
      requires Valid()
      modifies this
      ensures Valid() && offset == CommentEnd(source, old(offset))
    {
      hide LocationOf;
      while offset < |source| && source[offset] != '\n'
        invariant Valid() && CommentEnd(source, old(offset)) == CommentEnd(source, offset)
        decreases |source| - offset
      {
        Advance();
      }
    }

    method ReadString() returns (value: Option<string>)
      requires Valid() && offset < |source|
      modifies this
      ensures Valid()
      ensures match QuotedFrom(source, old(offset) + 1, "")
              case None => value == None
              case Some((text, end)) => value == Some(text) && offset == end
    {
      hide LocationOf;
      Advance();
      var text, done := "", false;
      ghost var start := offset;
      while offset < |source| && !done
        invariant Valid() && start <= offset
        invariant QuotedFrom(source, start, "") == if done then Some((text, offset))
              else QuotedFrom(source, offset, text)
        decreases |source| - offset, !done
      {
        var c := source[offset];
        Advance();
        if c == '"' {
          done := true;
        } else if c != '\\' {
          text := text + [c];
        } else if offset < |source| {
          text := text + [Unescaped(source[offset])];
          Advance();
        } else {
          return None;
        }
      }
      value := if done then Some(text) else None;
    }

    method ReadBare() returns (word: string)
      requires Valid()
      modifies this
      ensures Valid() && offset == BareEnd(source, old(offset)) && word == source[old(offset)..offset]
    {
      hide LocationOf;
      var begin := offset;
      while offset < |source| && !Delimits(source[offset])
        invariant Valid() && begin <= offset && BareEnd(source, old(offset)) == BareEnd(source, offset)
        decreases |source| - offset
      {
        Advance();
      }
      word := source[begin..offset];
    }

    method ReadToken() returns (token: Option<Token>)
      requires Valid() && offset < |source| && !IsSpace(source[offset]) && source[offset] != '#'
      modifies this
      ensures Valid()
      ensures match TokenAt(source, old(offset), isNumber)
              case None => token == None
              case Some((t, end)) => token == Some(t) && offset == end
    {
      hide LocationOf, QuotedFrom, BareEnd;
      var location, c := Location(line, column), source[offset];
      if c == '[' || c == ']' {
        Advance();
        token := Some(Token(if c == '[' then LeftBracket else RightBracket, [c], location));
      } else if c == '"' {
        var value := ReadString();
        token := if value.Some? then Some(Token(String, value.value, location)) else None;
      } else {
        var word := ReadBare();
        token := Some(Token(if isNumber(word) then Number else Identifier, word, location));
      }
    }

    // The tokens of the whole source, or None for a string that does not end.
    method Tokenize() returns (tokens: Option<seq<Token>>)
      requires Valid() && offset == 0
      modifies this
      ensures tokens == LexFrom(source, 0, [], isNumber)
    {
      hide LocationOf, TokenAt, GapEnd;
      var list: seq<Token> := [];
      SkipWhitespaceAndComments();
      ghost var from: nat := 0;
      while offset < |source|
        invariant Valid() && from <= |source| && offset == GapEnd(source, from)
        invariant LexFrom(source, 0, [], isNumber) == LexFrom(source, from, list, isNumber)
        decreases |source| - offset
      {
        var token := ReadToken();
        if token.None? {
          return None;
        }
        list := list + [token.value];
        from := offset;
        SkipWhitespaceAndComments();
      }
      tokens := Some(list + [Token(End, "", Location(line, column))]);
    }
  }

  // ----- what a writer may write

  // A character of a quoted string, as it is or behind a backslash.
  datatype Quoted = Plain(c: char) | Escaped(c: char)

  datatype Piece = Open | Close | Text(chars: seq<Quoted>) | Word(text: string)

  // A piece with the white space and comments before it.
  datatype Item = Item(gap: string, piece: Piece)

  predicate ValidQuoted(chars: seq<Quoted>) {
    forall i :: 0 <= i < |chars| && chars[i].Plain? ==> chars[i].c != '"' && chars[i].c != '\\'
  }

  function QuotedChar(q: Quoted): string {
    match q
    case Plain(c) => [c]
    case Escaped(c) => ['\\', c]
  }

  function QuotedMeans(q: Quoted): char {
    match q
    case Plain(c) => c
    case Escaped(c) => Unescaped(c)
  }

  function QuotedText(chars: seq<Quoted>): string {
    if chars == [] then ""
    else QuotedChar(chars[0]) + QuotedText(chars[1..])
  }

  function QuotedValue(chars: seq<Quoted>): string {
    if chars == [] then ""
    else [QuotedMeans(chars[0])] + QuotedValue(chars[1..])
  }

  predicate ValidPiece(p: Piece) {
    match p
    case Text(chars) => ValidQuoted(chars)
    case Word(text) => text != "" && forall i :: 0 <= i < |text| ==> !Delimits(text[i])
    case _ => true
  }

  function PieceText(p: Piece): string {
    match p
    case Open => "["
    case Close => "]"
    case Text(chars) => "\"" + QuotedText(chars) + "\""
    case Word(text) => text
  }

  function PieceToken(p: Piece, location: Location, isNumber: string -> bool): Token {
    match p
    case Open => Token(LeftBracket, "[", location)
    case Close => Token(RightBracket, "]", location)
    case Text(chars) => Token(String, QuotedValue(chars), location)
    case Word(text) => Token(if isNumber(text) then Number else Identifier, text, location)
  }

  // White space and comments that end with their line.
  predicate IsGap(gap: string)
    decreases |gap|
  {
    || gap == ""
    || (IsSpace(gap[0]) && IsGap(gap[1..]))
    || (gap[0] == '#' && CommentEnd(gap, 1) < |gap| && IsGap(gap[CommentEnd(gap, 1)..]))
  }

  // Two words need a gap between them.
  predicate ValidItems(items: seq<Item>) {
    && (forall i :: 0 <= i < |items| ==> IsGap(items[i].gap) && ValidPiece(items[i].piece))
    && forall i :: 0 < i < |items| && items[i - 1].piece.Word? && items[i].piece.Word? ==> items[i].gap != ""
  }

  function Print(items: seq<Item>, last: string): string {
    if items == [] then last else items[0].gap + PieceText(items[0].piece) + Print(items[1..], last)
  }

  // The tokens of the printed items, the first of which starts at i of the whole source.
  function ItemTokens(s: string, i: nat, items: seq<Item>, isNumber: string -> bool): seq<Token>
    requires i + |Print(items, "")| <= |s|
    decreases |items|
  {
    if items == [] then []
    else
      var at := i + |items[0].gap|;
      [PieceToken(items[0].piece, LocationOf(s, at), isNumber)]
      + ItemTokens(s, at + |PieceText(items[0].piece)|, items[1..], isNumber)
  }

  // ----- what is read does not depend on where it stands

  lemma {:induction false} CommentShift(s: string, n: nat, k: nat)
    requires n + k <= |s|
    ensures CommentEnd(s, n + k) == n + CommentEnd(s[n..], k)
    decreases |s| - n - k
  {
    if n + k < |s| && s[n + k] != '\n' {
      CommentShift(s, n, k + 1);
    }
  }

  lemma {:induction false} GapShift(s: string, n: nat, k: nat)
    requires n + k <= |s|
    ensures GapEnd(s, n + k) == n + GapEnd(s[n..], k)
    decreases |s| - n - k
  {
    if n + k < |s| && IsSpace(s[n + k]) {
      GapShift(s, n, k + 1);
    } else if n + k < |s| && s[n + k] == '#' {
      CommentShift(s, n, k + 1);
      GapShift(s, n, CommentEnd(s[n..], k + 1));
    }
  }

  lemma {:induction false} BareShift(s: string, n: nat, k: nat)
    requires n + k <= |s|
    ensures BareEnd(s, n + k) == n + BareEnd(s[n..], k)
    decreases |s| - n - k
  {
    if n + k < |s| && !Delimits(s[n + k]) {
      BareShift(s, n, k + 1);
    }
  }

  // ----- the pieces

  predicate StartsToken(rest: string) {
    rest == "" || (!IsSpace(rest[0]) && rest[0] != '#')
  }

  lemma {:induction false} CommentThenRest(gap: string, rest: string, k: nat)
    requires k <= |gap| && CommentEnd(gap, k) < |gap|
    ensures CommentEnd(gap + rest, k) == CommentEnd(gap, k)
    decreases |gap| - k
  {
    if gap[k] != '\n' {
      CommentThenRest(gap, rest, k + 1);
    }
  }

  lemma {:induction false} GapThenRest(gap: string, rest: string)
    requires IsGap(gap) && StartsToken(rest)
    ensures GapEnd(gap + rest, 0) == |gap|
    decreases |gap|
  {
    var t := gap + rest;
    if gap != "" {
      assert t[0] == gap[0];
      var k := if IsSpace(gap[0]) then 1 else CommentEnd(gap, 1);
      if !IsSpace(gap[0]) {
        CommentThenRest(gap, rest, 1);
      }
      GapThenRest(gap[k..], rest);
      assert t[k..] == gap[k..] + rest;
      GapShift(t, k, 0);
    }
  }

  lemma {:induction false} Behind(s: string, i: nat, front: string, rest: string)
    requires i <= |s| && s[i..] == front + rest
    ensures i + |front| + |rest| == |s| && s[i + |front|..] == rest && s[i..i + |front|] == front
    ensures front != "" ==> s[i] == front[0]
  {
    assert s[i + |front|..] == s[i..][|front|..];
    assert s[i..i + |front|] == s[i..][..|front|];
  }

  lemma {:induction false} QuotedStep(s: string, i: nat, q: Quoted, rest: string, value: string)
    requires ValidQuoted([q]) && i <= |s| && s[i..] == QuotedChar(q) + rest
    ensures i + |QuotedChar(q)| <= |s|
    ensures QuotedFrom(s, i, value) == QuotedFrom(s, i + |QuotedChar(q)|, value + [QuotedMeans(q)])
  {
    hide Unescaped;
    assert [q][0] == q;
    Behind(s, i, QuotedChar(q), rest);
    if q.Escaped? {
      assert s[i + 1] == s[i..i + 2][1];
    }
  }

  lemma {:induction false} QuotedReadsBack(s: string, i: nat, chars: seq<Quoted>, rest: string, value: string)
    requires ValidQuoted(chars) && i <= |s| && s[i..] == QuotedText(chars) + "\"" + rest
    ensures QuotedFrom(s, i, value) == Some((value + QuotedValue(chars), i + |QuotedText(chars)| + 1))
    decreases |chars|
  {
    hide QuotedFrom, QuotedChar, QuotedMeans;
    if chars == [] {
      Behind(s, i, "\"", rest);
      QuotedEnds(s, i, value);
      assert value + QuotedValue(chars) == value;
    } else {
      var q, more := chars[0], QuotedText(chars[1..]) + "\"" + rest;
      assert s[i..] == QuotedChar(q) + more;
      Behind(s, i, QuotedChar(q), more);
      QuotedStep(s, i, q, more, value);
      var next := value + [QuotedMeans(q)];
      QuotedReadsBack(s, i + |QuotedChar(q)|, chars[1..], rest, next);
      assert next + QuotedValue(chars[1..]) == value + QuotedValue(chars);
    }
  }

  lemma QuotedEnds(s: string, i: nat, value: string)
    requires i < |s| && s[i] == '"'
    ensures QuotedFrom(s, i, value) == Some((value, i + 1))
  {
  }

  lemma {:induction false} WordThenRest(word: string, rest: string, k: nat)
    requires k <= |word| && (forall i :: 0 <= i < |word| ==> !Delimits(word[i])) && (rest == "" || Delimits(rest[0]))
    ensures BareEnd(word + rest, k) == |word|
    decreases |word| - k
  {
    hide Delimits;
    var t := word + rest;
    if k < |word| {
      assert t[k] == word[k];
      WordThenRest(word, rest, k + 1);
    } else if rest != "" {
      assert t[k] == rest[0];
    }
  }

  lemma {:induction false} PieceReadsBack(s: string, i: nat, p: Piece, rest: string, isNumber: string -> bool)
    requires ValidPiece(p) && i <= |s| && s[i..] == PieceText(p) + rest
    requires p.Word? ==> rest == "" || Delimits(rest[0])
    ensures i < |s| && !IsSpace(s[i]) && s[i] != '#'
    ensures TokenAt(s, i, isNumber) == Some((PieceToken(p, LocationOf(s, i), isNumber), i + |PieceText(p)|))
  {
    hide LocationOf, QuotedFrom, BareEnd, QuotedText, QuotedValue, ValidQuoted;
    PieceStarts(p);
    Behind(s, i, PieceText(p), rest);
    if p.Text? {
      assert s[i..] == "\"" + (QuotedText(p.chars) + "\"" + rest);
      Behind(s, i, "\"", QuotedText(p.chars) + "\"" + rest);
      QuotedReadsBack(s, i + 1, p.chars, rest, "");
      assert "" + QuotedValue(p.chars) == QuotedValue(p.chars);
    } else if p.Word? {
      WordThenRest(p.text, rest, 0);
      BareShift(s, i, 0);
    }
  }

  lemma PieceStarts(p: Piece)
    requires ValidPiece(p)
    ensures PieceText(p) != "" && StartsToken(PieceText(p)) && (p.Word? <==> !Delimits(PieceText(p)[0]))
  {
    if p.Word? {
      assert !Delimits(p.text[0]);
    }
  }

  // ----- whole files

  // The file may end in white space and in a comment without a line end.
  predicate IsLast(last: string) {
    GapEnd(last, 0) == |last|
  }

  lemma {:induction false} PrintLength(items: seq<Item>, last: string)
    ensures |Print(items, last)| == |Print(items, "")| + |last|
  {
    if items != [] {
      PrintLength(items[1..], last);
    }
  }

  lemma {:induction false} RestDelimits(items: seq<Item>, last: string)
    requires ValidItems(items) && IsLast(last) && items != [] && items[0].piece.Word?
    ensures var rest := Print(items[1..], last); rest == "" || Delimits(rest[0])
  {
    hide PieceText, GapEnd;
    if |items| == 1 {
      assert Print(items[1..], last) == last;
      LastStarts(last);
    } else {
      var next := items[1];
      assert items[1..][0] == next && ValidPiece(next.piece) && IsGap(next.gap);
      PieceStarts(next.piece);
      if next.gap == "" {
        assert !next.piece.Word?;
        assert Print(items[1..], last)[0] == PieceText(next.piece)[0];
      } else {
        assert Print(items[1..], last)[0] == next.gap[0];
      }
    }
  }

  lemma LastStarts(last: string)
    requires IsLast(last)
    ensures last == "" || Delimits(last[0])
  {
  }

  // However words, strings and brackets are spaced, commented and escaped, the lexer gives them
  // back in order, each with the line and column where it starts.
  lemma {:induction false} LexReadsBack(s: string, i: nat, items: seq<Item>, last: string, tokens: seq<Token>,
        isNumber: string -> bool)
    requires ValidItems(items) && IsLast(last) && i <= |s| && s[i..] == Print(items, last)
    ensures i + |Print(items, "")| <= |s|
    ensures LexFrom(s, i, tokens, isNumber) ==
              Some(tokens + ItemTokens(s, i, items, isNumber) + [Token(End, "", LocationOf(s, |s|))])
    decreases |items|
  {
    hide *;
    if items == [] {
      LastToken(s, i, last, tokens, isNumber);
    } else {
      var at := i + |items[0].gap|;
      var end := at + |PieceText(items[0].piece)|;
      FirstIsLexed(s, i, items, last, tokens, isNumber);
      var token := PieceToken(items[0].piece, LocationOf(s, at), isNumber);
      LexReadsBack(s, end, items[1..], last, tokens + [token], isNumber);
      FirstToken(s, i, items, tokens, isNumber);
    }
  }

  // The first item is one step of the lexer, which goes on with the others.
  lemma FirstIsLexed(s: string, i: nat, items: seq<Item>, last: string, tokens: seq<Token>, isNumber: string -> bool)
    requires ValidItems(items) && IsLast(last) && items != [] && i <= |s| && s[i..] == Print(items, last)
    ensures var at := i + |items[0].gap|;
            var end := at + |PieceText(items[0].piece)|;
            var token := PieceToken(items[0].piece, LocationOf(s, at), isNumber);
            && ValidItems(items[1..]) && end <= |s| && s[end..] == Print(items[1..], last)
            && end + |Print(items[1..], "")| == i + |Print(items, "")|
            && LexFrom(s, i, tokens, isNumber) == LexFrom(s, end, tokens + [token], isNumber)
  {
    hide *;
    var item, rest := items[0], Print(items[1..], last);
    FirstItem(items, last);
    var at := i + |item.gap|;
    var end := at + |PieceText(item.piece)|;
    Behind(s, i, item.gap, PieceText(item.piece) + rest);
    GapShift(s, i, 0);
    Behind(s, at, PieceText(item.piece), rest);
    PieceReadsBack(s, at, item.piece, rest, isNumber);
    OneStep(s, i, at, end, PieceToken(item.piece, LocationOf(s, at), isNumber), tokens, isNumber);
  }

  lemma LastToken(s: string, i: nat, last: string, tokens: seq<Token>, isNumber: string -> bool)
    requires IsLast(last) && i <= |s| && s[i..] == Print([], last)
    ensures i + |Print([], "")| <= |s|
    ensures LexFrom(s, i, tokens, isNumber)
          == Some(tokens + ItemTokens(s, i, [], isNumber) + [Token(End, "", LocationOf(s, |s|))])
  {
    hide LocationOf, GapEnd;
    GapShift(s, i, 0);
    assert tokens + [] == tokens;
  }

  lemma FirstItem(items: seq<Item>, last: string)
    requires ValidItems(items) && IsLast(last) && items != []
    ensures var item, rest := items[0], Print(items[1..], last);
            && IsGap(item.gap) && ValidPiece(item.piece) && ValidItems(items[1..])
            && Print(items, last) == item.gap + (PieceText(item.piece) + rest)
            && GapEnd(item.gap + (PieceText(item.piece) + rest), 0) == |item.gap|
            && (item.piece.Word? ==> rest == "" || Delimits(rest[0]))
    ensures |Print(items, "")| == |items[0].gap| + |PieceText(items[0].piece)| + |Print(items[1..], "")|
  {
    hide PieceText, IsGap, ValidPiece, GapEnd, IsSpace, Delimits;
    var item, rest := items[0], Print(items[1..], last);
    PieceStarts(item.piece);
    StartOfText(PieceText(item.piece), rest);
    GapThenRest(item.gap, PieceText(item.piece) + rest);
    if item.piece.Word? { RestDelimits(items, last); }
    assert forall k :: 0 <= k < |items| - 1 ==> items[1..][k] == items[k + 1];
  }

  lemma FirstToken(s: string, i: nat, items: seq<Item>, tokens: seq<Token>, isNumber: string -> bool)
    requires items != [] && i + |Print(items, "")| <= |s|
    ensures var at := i + |items[0].gap|;
            var end := at + |PieceText(items[0].piece)|;
            && end + |Print(items[1..], "")| <= |s|
            && tokens + [PieceToken(items[0].piece, LocationOf(s, at), isNumber)]
                + ItemTokens(s, end, items[1..], isNumber)
               == tokens + ItemTokens(s, i, items, isNumber)
  {
    hide LocationOf, PieceText, PieceToken;
  }

  lemma StartOfText(text: string, rest: string)
    requires text != "" && StartsToken(text)
    ensures StartsToken(text + rest)
  {
  }

  lemma OneStep(s: string, i: nat, at: nat, end: nat, token: Token, tokens: seq<Token>, isNumber: string -> bool)
    requires i <= at < |s| && GapEnd(s, i) == at && TokenAt(s, at, isNumber) == Some((token, end))
    ensures end <= |s| && LexFrom(s, i, tokens, isNumber) == LexFrom(s, end, tokens + [token], isNumber)
  {
  }

  // ----- the characters by their codes

  // White space is what the standard library calls so: the blank and the codes 9 to 13.
  lemma {:induction false} SpacesAre(c: char)
    ensures IsSpace(c) <==> c as nat == 32 || 9 <= c as nat <= 13
  {
  }

  // After a backslash n, r and t stand for the codes 10, 13 and 9, every other character for itself.
  lemma {:induction false} EscapesAre(c: char)
    ensures Unescaped('n') as nat == 10 && Unescaped('r') as nat == 13 && Unescaped('t') as nat == 9
    ensures c !in "nrt" ==> Unescaped(c) == c
  {
    assert 'n' in "nrt" && 'r' in "nrt" && 't' in "nrt" by {
      assert "nrt"[0] == 'n' && "nrt"[1] == 'r' && "nrt"[2] == 't';
    }
  }

  // The line breaks before position i.
  function Breaks(s: string, i: nat): set<nat>
    requires i <= |s|
  {
    set k: nat | k < i && s[k] == '\n'
  }

  // The line is one more than the breaks before it; the column counts from the last of them.
  lemma {:induction false} LocationCounts(s: string, i: nat) returns (start: nat)
    requires i <= |s|
    ensures LocationOf(s, i).line == 1 + |Breaks(s, i)|
    ensures start <= i && (start == 0 || s[start - 1] == '\n') && (forall k :: start <= k < i ==> s[k] != '\n')
    ensures LocationOf(s, i).column == 1 + i - start
  {
    if i == 0 {
      start := 0;
      assert Breaks(s, 0) == {};
    } else {
      start := LocationCounts(s, i - 1);
      var before := Breaks(s, i - 1);
      if s[i - 1] == '\n' {
        start := i;
        assert Breaks(s, i) == before + {i - 1};
      } else {
        assert Breaks(s, i) == before;
      }
    }
  }
}
