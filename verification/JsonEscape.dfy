/** String escaping, cld::EscapeJson (Source/SimpleJson.cpp:515-542), and why a quoted string can be
    read back in only one way. */
module JsonEscape {

  // A digit of the hexadecimal form of a control character.
  function Hex(n: nat): char
    requires n < 16
  {
    if n < 10 then ('0' as int + n) as char else ('a' as int + n - 10) as char
  }

  function Code(c: char): (r: string)
    ensures r != "" && r[0] != '"'
  {
    if c == '\\' then "\\\\"
    else if c == '"' then "\\\""
    else if c == 8 as char then "\\b"
    else if c == 12 as char then "\\f"
    else if c == '\n' then "\\n"
    else if c == '\r' then "\\r"
    else if c == '\t' then "\\t"
    else if c < ' ' then "\\u00" + [Hex(c as nat / 16), Hex(c as nat % 16)]
    else [c]
  }

  function Escape(text: string): string {
    if text == "" then "" else Code(text[0]) + Escape(text[1..])
  }

  // No character's code starts like another's, and none starts with a quote.
  lemma {:induction false} CodeReadsBack(c: char, d: char, x: string, y: string)
    requires Code(c) + x == Code(d) + y
    ensures c == d && x == y
  {
    var s, t := Code(c) + x, Code(d) + y;
    assert s[0] == t[0];
    if s[0] == '\\' {
      assert s[1] == t[1];
      if s[1] == 'u' {
        assert s[4] == t[4] && s[5] == t[5];
      }
    }
    assert x == s[|Code(c)|..] && y == t[|Code(d)|..];
  }

  // A quoted string ends at the first bare quote, and different texts are quoted differently.
  lemma {:induction false} QuotedReadsBack(a: string, b: string, x: string, y: string)
    requires Escape(a) + "\"" + x == Escape(b) + "\"" + y
    ensures a == b && x == y
    decreases |a|
  {
    hide Code;
    var s, t := Escape(a) + "\"" + x, Escape(b) + "\"" + y;
    assert s[0] == t[0];
    if a == "" || b == "" {
      assert a == "" && b == "";
      assert x == s[1..] && y == t[1..];
    } else {
      var u, v := Escape(a[1..]) + "\"" + x, Escape(b[1..]) + "\"" + y;
      assert s == Code(a[0]) + u && t == Code(b[0]) + v;
      CodeReadsBack(a[0], b[0], u, v);
      QuotedReadsBack(a[1..], b[1..], x, y);
    }
  }
}
