/** Reading JSON strings (section 7 of RFC 8259) as the repository's own parser does
    (JsonParser::ParseString, Source/SimpleJson.cpp:13-81, 269-401), and that it reads back what
    EscapeJson wrote. Bytes are modelled as characters below 256. */
module JsonStrings {
  import opened Options
  import opened JsonEscape

  // ----- \u escapes

  function HexDigit(c: char): Option<nat> {
    if '0' <= c <= '9' then Some(c as nat - '0' as nat)
    else if 'a' <= c <= 'f' then Some(c as nat - 'a' as nat + 10)
    else if 'A' <= c <= 'F' then Some(c as nat - 'A' as nat + 10)
    else None
  }

  // The code unit that four hexadecimal digits name.
  function CodeUnit(s: string): (u: Option<nat>)
    ensures u.Some? ==> |s| >= 4
  {
    if |s| < 4 then None
    else
      var a, b, c, d := HexDigit(s[0]), HexDigit(s[1]), HexDigit(s[2]), HexDigit(s[3]);
      if a.None? || b.None? || c.None? || d.None? then None
      else Some(((a.value * 16 + b.value) * 16 + c.value) * 16 + d.value)
  }

  // The bytes of a code point (section 3 of RFC 3629); only values below 256 come out of the divisions.
  function Utf8(point: nat): string {
    if point < 0x80 then [ToChar(point)]
    else if point < 0x800 then [ToChar(0xc0 + point / 64), ToChar(0x80 + point % 64)]
    else if point < 0x10000 then
      [ToChar(0xe0 + point / 4096), ToChar(0x80 + point / 64 % 64), ToChar(0x80 + point % 64)]
    else
      [ToChar(0xf0 + point / 262144), ToChar(0x80 + point / 4096 % 64), ToChar(0x80 + point / 64 % 64),
       ToChar(0x80 + point % 64)]
  }

  function ToChar(n: nat): char {
    (n % 256) as char
  }

  // What follows `\u`: its bytes and the text behind it. A high surrogate needs a low one.
  function UnicodeEscape(s: string): (r: Option<(string, string)>)
    ensures r.Some? ==> |r.value.1| < |s|
  {
    match CodeUnit(s)
    case None => None
    case Some(unit) =>
      if 0xd800 <= unit <= 0xdbff then
        var more := s[4..];
        if |more| < 2 || more[0] != '\\' || more[1] != 'u' then None
        else
          match CodeUnit(more[2..])
          case None => None
          case Some(low) =>
            if low < 0xdc00 || low > 0xdfff then None
            else Some((Utf8(0x10000 + (unit - 0xd800) * 1024 + (low - 0xdc00)), more[6..]))
      else if 0xdc00 <= unit <= 0xdfff then None
      else Some((Utf8(unit), s[4..]))
  }

  // What follows a backslash.
  function Unescape(s: string): (r: Option<(string, string)>)
    ensures r.Some? ==> |r.value.1| < |s|
  {
    if s == "" then None
    else if s[0] == '"' || s[0] == '\\' || s[0] == '/' then Some(([s[0]], s[1..]))
    else if s[0] == 'b' then Some(([8 as char], s[1..]))
    else if s[0] == 'f' then Some(([12 as char], s[1..]))
    else if s[0] == 'n' then Some(("\n", s[1..]))
    else if s[0] == 'r' then Some(("\r", s[1..]))
    else if s[0] == 't' then Some(("\t", s[1..]))
    else if s[0] == 'u' then UnicodeEscape(s[1..])
    else None
  }

  // ----- bytes beyond ASCII

  predicate Continues(s: string, i: nat) {
    i < |s| && 0x80 <= s[i] as nat <= 0xbf
  }

  // The length of the UTF-8 sequence a byte of 0x80 or more starts: shortest form, no surrogate, at
  // most 0x10ffff.
  function SequenceLength(s: string): (n: Option<nat>)
    requires s != ""
    ensures n.Some? ==> 2 <= n.value <= |s| && forall i :: 1 <= i < n.value ==> Continues(s, i)
  {
    var lead := s[0] as nat;
    if 0xc2 <= lead <= 0xdf then if Continues(s, 1) then Some(2) else None
    else if 0xe0 <= lead <= 0xef then
      if !Continues(s, 1) || !Continues(s, 2) then None
      else
        var point := ((lead - 0xe0) * 64 + (s[1] as nat - 0x80)) * 64 + (s[2] as nat - 0x80);
        if point < 0x800 || 0xd800 <= point <= 0xdfff then None else Some(3)
    else if 0xf0 <= lead <= 0xf4 then
      if !Continues(s, 1) || !Continues(s, 2) || !Continues(s, 3) then None
      else
        var point := (((lead - 0xf0) * 64 + (s[1] as nat - 0x80)) * 64 + (s[2] as nat - 0x80)) * 64
                   + (s[3] as nat - 0x80);
        if point < 0x10000 || point > 0x10ffff then None else Some(4)
    else None
  }

  // The text is UTF-8.
  predicate WellEncoded(text: string) {
    text == ""
    || (if text[0] as nat < 0x80 then WellEncoded(text[1..])
        else SequenceLength(text).Some? && WellEncoded(text[SequenceLength(text).value..]))
  }

  // ----- a whole string

  // Reads on after the opening quote; `done` is read so far.
  function StringRest(s: string, done: string): (r: Option<(string, string)>)
    ensures r.Some? ==> |r.value.1| < |s|
    decreases |s|
  {
    if s == "" then None
    else if s[0] == '"' then Some((done, s[1..]))
    else if s[0] < ' ' then None
    else if s[0] == '\\' then
      match Unescape(s[1..])
      case None => None
      case Some((text, rest)) => StringRest(rest, done + text)
    else if s[0] as nat < 0x80 then StringRest(s[1..], done + [s[0]])
    else
      match SequenceLength(s)
      case None => None
      case Some(n) => StringRest(s[n..], done + s[..n])
  }

  // ----- what EscapeJson wrote

  lemma {:induction false} HexReadsBack(n: nat)
    requires n < 16
    ensures HexDigit(Hex(n)) == Some(n)
  {
  }

  lemma {:induction false} ControlReadsBack(c: char, y: string)
    requires c < ' '
    ensures Unescape("u00" + [Hex(c as nat / 16), Hex(c as nat % 16)] + y) == Some(([c], y))
  {
    hide HexDigit, Hex;
    var s := "00" + [Hex(c as nat / 16), Hex(c as nat % 16)] + y;
    var whole := "u00" + [Hex(c as nat / 16), Hex(c as nat % 16)] + y;
    assert whole[1..] == s && s[4..] == y;
    HexReadsBack(c as nat / 16);
    HexReadsBack(c as nat % 16);
    assert HexDigit('0') == Some(0) by { ZeroDigit(); }
    assert CodeUnit(s) == Some(c as nat);
    assert ToChar(c as nat) == c;
  }

  lemma ZeroDigit()
    ensures HexDigit('0') == Some(0)
  {
  }

  // The code of a character is read as that character.
  lemma {:induction false} CodeIsRead(c: char, y: string, done: string)
    requires c as nat < 0x80
    ensures StringRest(Code(c) + y, done) == StringRest(y, done + [c])
  {
    hide UnicodeEscape, Hex;
    var s := Code(c) + y;
    if |Code(c)| == 1 {
      assert s[1..] == y;
    } else if |Code(c)| == 2 {
      assert s[1..][1..] == y;
    } else {
      ControlReadsBack(c, y);
      assert s[1..] == "u00" + [Hex(c as nat / 16), Hex(c as nat % 16)] + y;
    }
  }

  lemma {:induction false} BytesUnescaped(text: string, n: nat)
    requires n <= |text| && forall i :: 0 <= i < n ==> text[i] as nat >= 0x80
    ensures Escape(text) == text[..n] + Escape(text[n..])
  {
    hide Code;
    if n > 0 {
      BytesUnescaped(text[1..], n - 1);
      ByteIsItself(text[0]);
      var front, back := text[1..][..n - 1], text[1..][n - 1..];
      assert back == text[n..] && text[..n] == [text[0]] + front;
      assert Escape(text) == Code(text[0]) + Escape(text[1..]);
      assert [text[0]] + (front + Escape(back)) == [text[0]] + front + Escape(back);
    } else {
      assert text[0..] == text;
    }
  }

  // More text behind a sequence does not change it.
  lemma {:induction false} SameSequence(s: string, t: string)
    requires s != "" && t != "" && SequenceLength(s).Some?
    requires |t| >= SequenceLength(s).value && t[..SequenceLength(s).value] == s[..SequenceLength(s).value]
    ensures SequenceLength(t) == SequenceLength(s)
  {
    var n := SequenceLength(s).value;
    assert forall i :: 0 <= i < n ==> t[i] == t[..n][i] == s[i];
  }

  // A text in UTF-8 is read back from its escaped form, whatever follows the closing quote.
  lemma {:induction false} EscapedIsRead(text: string, x: string, done: string)
    requires WellEncoded(text)
    ensures StringRest(Escape(text) + "\"" + x, done) == Some((done + text, x))
    decreases |text|
  {
    hide Code, SequenceLength, Unescape;
    var s := Escape(text) + "\"" + x;
    if text == "" {
      assert s[1..] == x && done + text == done;
    } else if text[0] as nat < 0x80 {
      var more := Escape(text[1..]) + "\"" + x;
      assert s == Code(text[0]) + more;
      CodeIsRead(text[0], more, done);
      EscapedIsRead(text[1..], x, done + [text[0]]);
      assert done + [text[0]] + text[1..] == done + text;
    } else {
      var n := SequenceLength(text).value;
      forall i | 0 <= i < n ensures text[i] as nat >= 0x80 {
        assert i > 0 ==> Continues(text, i);
      }
      BytesUnescaped(text, n);
      var more := Escape(text[n..]) + "\"" + x;
      assert s == text[..n] + more;
      assert s[..n] == text[..n] && s[n..] == more;
      SameSequence(text, s);
      assert s[0] == text[..n][0] == text[0];
      EscapedIsRead(text[n..], x, done + text[..n]);
      assert done + text[..n] + text[n..] == done + text;
    }
  }

  lemma {:induction false} BytesComeFromText(text: string, x: string, n: nat)
    requires var s := Escape(text) + "\"" + x; n <= |s| && forall i :: 0 <= i < n ==> s[i] as nat >= 0x80
    ensures n <= |text| && (Escape(text) + "\"" + x)[..n] == text[..n]
  {
    hide Code;
    var s := Escape(text) + "\"" + x;
    assert text == "" ==> s[0] == '"';
    if n > 0 {
      assert s[0] as nat >= 0x80;
      var more := Escape(text[1..]) + "\"" + x;
      assert s == Code(text[0]) + more;
      assert s[0] == Code(text[0])[0];
      CodeStarts(text[0]);
      ByteIsItself(text[0]);
      assert s[1..] == more;
      forall i | 0 <= i < n - 1 ensures more[i] as nat >= 0x80 {
        assert more[i] == s[i + 1];
      }
      BytesComeFromText(text[1..], x, n - 1);
      assert s[..n] == [s[0]] + more[..n - 1] && text[..n] == [text[0]] + text[1..][..n - 1];
    }
  }

  lemma CodeStarts(c: char)
    ensures Code(c)[0] as nat >= 0x80 ==> c as nat >= 0x80
  {
  }

  lemma ByteIsItself(c: char)
    ensures c as nat >= 0x80 ==> Code(c) == [c]
  {
  }

  // And only then: the escaped form of any other text is not read at all.
  lemma {:induction false} OthersAreRefused(text: string, x: string, done: string)
    requires !WellEncoded(text)
    ensures StringRest(Escape(text) + "\"" + x, done) == None
    decreases |text|
  {
    hide Code, SequenceLength, Unescape;
    var s := Escape(text) + "\"" + x;
    if text[0] as nat < 0x80 {
      var more := Escape(text[1..]) + "\"" + x;
      assert s == Code(text[0]) + more;
      CodeIsRead(text[0], more, done);
      OthersAreRefused(text[1..], x, done + [text[0]]);
    } else {
      BytesUnescaped(text, 1);
      assert s[0] == text[0];
      if SequenceLength(s).Some? {
        var n := SequenceLength(s).value;
        forall i | 0 <= i < n ensures s[i] as nat >= 0x80 {
          assert i > 0 ==> Continues(s, i);
        }
        BytesComeFromText(text, x, n);
        SameSequence(s, text);
        forall i | 0 <= i < n ensures text[i] as nat >= 0x80 {
          assert text[i] == text[..n][i] == s[i];
        }
        BytesUnescaped(text, n);
        var more := Escape(text[n..]) + "\"" + x;
        assert s == text[..n] + more;
        assert s[n..] == more;
        OthersAreRefused(text[n..], x, done + s[..n]);
      }
    }
  }
}
