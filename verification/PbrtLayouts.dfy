/** Which sources the PBRT lexer accepts (Source/PbrtSceneImporter.cpp:122-245): exactly the layouts of
    words, strings and brackets that PbrtLexer describes, with its characters by their codes. */
module PbrtLayouts {
  import opened Options
  import opened PbrtLexer

  // ----- the characters

  // A word ends at white space, a bracket, a quote or a comment.
  lemma {:induction false} DelimitersAre(c: char)
    ensures Delimits(c) <==>
              c as nat in {32, 34, 35, 91, 93} || 9 <= c as nat <= 13
  {
  }

  // A comment runs to the end of its line.
  lemma {:induction false} CommentsAre(s: string, i: nat)
    requires i <= |s|
    ensures var end := CommentEnd(s, i);
            && i <= end <= |s| && (forall k :: i <= k < end ==> s[k] as nat != 10)
            && (end < |s| ==> s[end] as nat == 10)
    decreases |s| - i
  {
    if i < |s| && s[i] != '\n' {
      CommentsAre(s, i + 1);
    }
  }

  // ----- what was accepted was laid out

  lemma {:induction false} CommentInSlice(s: string, i: nat, j: nat, k: nat)
    requires i + k <= j <= |s| && CommentEnd(s, i + k) < j
    ensures CommentEnd(s[i..j], k) == CommentEnd(s, i + k) - i
    decreases |s| - k
  {
    if s[i + k] != '\n' {
      CommentInSlice(s, i, j, k + 1);
    }
  }

  lemma {:induction false} GapWasPrinted(s: string, i: nat)
    requires i <= |s| && GapEnd(s, i) < |s|
    ensures IsGap(s[i..GapEnd(s, i)])
    decreases |s| - i
  {
    var j := GapEnd(s, i);
    var gap := s[i..j];
    if IsSpace(s[i]) {
      GapWasPrinted(s, i + 1);
      assert gap[1..] == s[i + 1..j];
    } else if s[i] == '#' {
      var e := CommentEnd(s, i + 1);
      CommentsAre(s, i + 1);
      assert IsSpace(s[e]);
      GapWasPrinted(s, e);
      CommentInSlice(s, i, j, 1);
      assert gap[e - i..] == s[e..j];
    } else {
      assert gap == "";
    }
  }

  lemma {:induction false} QuotedWasPrinted(s: string, i: nat, value: string) returns (chars: seq<Quoted>)
    requires i <= |s| && QuotedFrom(s, i, value).Some?
    ensures ValidQuoted(chars) && s[i..QuotedFrom(s, i, value).value.1] == QuotedText(chars) + "\""
    decreases |s| - i
  {
    hide Unescaped;
    var end := QuotedFrom(s, i, value).value.1;
    if s[i] == '"' {
      chars := [];
    } else {
      var escaped := s[i] == '\\';
      var q := if escaped then Escaped(s[i + 1]) else Plain(s[i]);
      var next := i + |QuotedChar(q)|;
      var more := QuotedWasPrinted(s, next, value + [QuotedMeans(q)]);
      chars := [q] + more;
      assert s[i..next] == QuotedChar(q);
      assert s[i..end] == s[i..next] + s[next..end];
      assert QuotedText(chars) == QuotedChar(q) + QuotedText(more);
    }
  }

  lemma {:induction false} WordWasPrinted(s: string, i: nat)
    requires i <= |s|
    ensures forall k :: 0 <= k < |s[i..BareEnd(s, i)]| ==> !Delimits(s[i..BareEnd(s, i)][k])
    ensures BareEnd(s, i) < |s| ==> Delimits(s[BareEnd(s, i)])
    decreases |s| - i
  {
    hide Delimits;
    var j := BareEnd(s, i);
    if i < j {
      WordWasPrinted(s, i + 1);
      forall k | 0 <= k < j - i ensures !Delimits(s[i..j][k]) {
        if k > 0 {
          assert s[i + 1..j][k - 1] == s[i..j][k];
        }
      }
    }
  }

  lemma {:induction false} PieceWasPrinted(s: string, i: nat, isNumber: string -> bool) returns (piece: Piece)
    requires i < |s| && !IsSpace(s[i]) && s[i] != '#' && TokenAt(s, i, isNumber).Some?
    ensures var end := TokenAt(s, i, isNumber).value.1;
            && ValidPiece(piece) && s[i..end] == PieceText(piece)
            && (piece.Word? ==> end == |s| || Delimits(s[end]))
  {
    hide LocationOf, QuotedFrom, QuotedText, QuotedValue, ValidQuoted;
    if s[i] == '[' {
      piece := Open;
    } else if s[i] == ']' {
      piece := Close;
    } else if s[i] == '"' {
      var chars := QuotedWasPrinted(s, i + 1, "");
      piece := Text(chars);
      var end := QuotedFrom(s, i + 1, "").value.1;
      assert s[i..end] == [s[i]] + s[i + 1..end];
    } else {
      WordWasPrinted(s, i);
      piece := Word(s[i..BareEnd(s, i)]);
    }
  }

  lemma {:induction false} WordsAreApart(item: Item, items: seq<Item>)
    requires IsGap(item.gap) && ValidPiece(item.piece) && ValidItems(items)
    requires item.piece.Word? && items != [] && items[0].piece.Word? ==> items[0].gap != ""
    ensures ValidItems([item] + items)
  {
    hide IsGap, ValidPiece;
    var all := [item] + items;
    forall i | 0 < i < |all| && all[i - 1].piece.Word? && all[i].piece.Word? ensures all[i].gap != "" {
      if i > 1 {
        assert all[i - 1] == items[i - 2] && all[i] == items[i - 1];
      }
    }
  }

  // Whatever is accepted from a position on is a layout.
  lemma {:induction false} LexedWasPrinted(s: string, i: nat, tokens: seq<Token>, isNumber: string -> bool)
      returns (items: seq<Item>, last: string)
    requires i <= |s| && LexFrom(s, i, tokens, isNumber).Some?
    ensures ValidItems(items) && IsLast(last) && s[i..] == Print(items, last)
    decreases |s| - i
  {
    hide TokenAt, LocationOf, IsGap, ValidPiece, PieceText;
    var start := GapEnd(s, i);
    if start == |s| {
      items, last := [], s[i..];
      GapShift(s, i, 0);
    } else {
      var token, end := TokenAt(s, start, isNumber).value.0, TokenAt(s, start, isNumber).value.1;
      GapWasPrinted(s, i);
      var piece := PieceWasPrinted(s, start, isNumber);
      var later: seq<Item>;
      later, last := LexedWasPrinted(s, end, tokens + [token], isNumber);
      var item := Item(s[i..start], piece);
      items := [item] + later;
      if piece.Word? && later != [] && later[0].piece.Word? {
        WordStarts(later, last);
      }
      WordsAreApart(item, later);
      assert items[0] == item && items[1..] == later;
      assert s[i..] == s[i..start] + s[start..end] + s[end..];
    }
  }

  // A word does not start with what ends one.
  lemma WordStarts(items: seq<Item>, last: string)
    requires ValidItems(items) && items != [] && items[0].piece.Word?
    ensures Print(items, last) != ""
    ensures items[0].gap == "" ==> !Delimits(Print(items, last)[0])
  {
    hide IsGap, Delimits;
  }

  // So a source is accepted exactly when it is a layout, and then these are its tokens.
  lemma {:induction false} AcceptedExactly(s: string, isNumber: string -> bool)
    ensures LexFrom(s, 0, [], isNumber).Some? <==>
              exists items, last :: ValidItems(items) && IsLast(last) && s == Print(items, last)
  {
    hide LexFrom, ValidItems, IsLast, Print;
    if LexFrom(s, 0, [], isNumber).Some? {
      var items, last := LexedWasPrinted(s, 0, [], isNumber);
      assert s == Print(items, last);
    }
    if items, last :| ValidItems(items) && IsLast(last) && s == Print(items, last) {
      LexReadsBack(s, 0, items, last, [], isNumber);
    }
  }
}
