/** The canonical text of a number (Source/McpServer.cpp:123-185). A finite number other than zero
    is known by the text std::to_chars prints with sixteen fraction digits: seventeen significant
    digits tell any two doubles apart. */
module JsonNumber {

  const PRECISION := 16

  datatype Number =
    | NonFinite
    | Zero(negative: bool)
    | Scientific(negative: bool, lead: char, fraction: string, exponent: int)

  predicate IsDigit(c: char) {
    '0' <= c <= '9'
  }

  predicate Wellformed(n: Number) {
    n.Scientific? ==> '1' <= n.lead <= '9' && |n.fraction| == PRECISION && forall i :: 0 <= i < |n.fraction| ==>
        IsDigit(n.fraction[i])
  }

  // ----- what std::to_chars prints

  function Decimal(n: nat): (s: string)
    ensures s != "" && forall i :: 0 <= i < |s| ==> IsDigit(s[i])
  {
    (if n < 10 then "" else Decimal(n / 10)) + [('0' as int + n % 10) as char]
  }

  function Magnitude(x: int): nat {
    if x < 0 then -x else x
  }

  function Sign(negative: bool): string {
    if negative then "-" else ""
  }

  // The exponent has its sign and at least two digits.
  function Exponent(x: int): string {
    (if x < 0 then "-" else "+") + (if Magnitude(x) < 10 then "0" else "") + Decimal(Magnitude(x))
  }

  function ToChars(n: Number): (s: string)
    requires n.Scientific?
    ensures 'e' in s
  {
    var mantissa := Sign(n.negative) + [n.lead] + "." + n.fraction;
    assert (mantissa + "e" + Exponent(n.exponent))[|mantissa|] == 'e';
    mantissa + "e" + Exponent(n.exponent)
  }

  // ----- what is kept of it

  function IndexOf(s: string, c: char): (i: nat)
    ensures i <= |s| && (forall j :: 0 <= j < i ==> s[j] != c) && (i < |s| ==> s[i] == c)
  {
    if s == "" || s[0] == c then 0 else 1 + IndexOf(s[1..], c)
  }

  function DropLast(s: string, c: char): string {
    if s != "" && s[|s| - 1] == c then s[..|s| - 1] else s
  }

  function TrimZeros(s: string): string {
    if s != "" && s[|s| - 1] == '0' then TrimZeros(s[..|s| - 1]) else s
  }

  function SkipZeros(s: string): string {
    if s != "" && s[0] == '0' then SkipZeros(s[1..]) else s
  }

  function ShortExponent(s: string): string {
    var signed := s != "" && (s[0] == '+' || s[0] == '-');
    var digits := SkipZeros(if signed then s[1..] else s);
    if digits == "" then "0" else Sign(signed && s[0] == '-') + digits
  }

  function NumberText(n: Number): string {
    match n
    case NonFinite => ""
    case Zero(_) => "0"
    case Scientific(_, _, _, _) =>
      var text := ToChars(n);
      var e := IndexOf(text, 'e');
      DropLast(TrimZeros(text[..e]), '.') + "e" + ShortExponent(text[e + 1..])
  }

  // ----- its parts

  function Mantissa(n: Number): string
    requires n.Scientific?
  {
    Sign(n.negative) + [n.lead] + DropLast("." + TrimZeros(n.fraction), '.')
  }

  function Power(x: int): string {
    if x == 0 then "0" else Sign(x < 0) + Decimal(Magnitude(x))
  }

  lemma {:induction false} TrimKeeps(front: string, digits: string)
    requires front != "" && front[|front| - 1] == '.'
    ensures TrimZeros(front + digits) == front + TrimZeros(digits)
  {
    if digits == "" {
      assert front + digits == front;
    } else if digits[|digits| - 1] == '0' {
      assert (front + digits)[..|front + digits| - 1] == front + digits[..|digits| - 1];
      TrimKeeps(front, digits[..|digits| - 1]);
    }
  }

  lemma {:induction false} TrimmedDigits(digits: string)
    requires forall i :: 0 <= i < |digits| ==> IsDigit(digits[i])
    ensures |TrimZeros(digits)| <= |digits|
          && digits == TrimZeros(digits) + seq(|digits| - |TrimZeros(digits)|, _ => '0')
  {
    if digits != "" && digits[|digits| - 1] == '0' {
      TrimmedDigits(digits[..|digits| - 1]);
    }
  }

  lemma {:induction false} LeadingDigit(n: nat)
    requires n > 0
    ensures Decimal(n)[0] != '0'
  {
    if n >= 10 {
      LeadingDigit(n / 10);
    }
  }

  lemma {:induction false} ExponentShortened(x: int)
    ensures ShortExponent(Exponent(x)) == Power(x)
  {
    hide Decimal;
    var s := Exponent(x);
    var d := Decimal(Magnitude(x));
    assert s[1..] == (if Magnitude(x) < 10 then "0" else "") + d;
    if Magnitude(x) < 10 {
      assert ("0" + d)[1..] == d;
    }
    if x == 0 {
      ZeroSkipped();
    } else {
      LeadingDigit(Magnitude(x));
      assert SkipZeros(d) == d;
    }
  }

  lemma ZeroSkipped()
    ensures SkipZeros(Decimal(0)) == "" && SkipZeros("0" + Decimal(0)) == ""
  {
    assert Decimal(0) == "0";
    assert ("0" + Decimal(0))[1..] == "0";
  }

  lemma {:induction false} FindsE(mantissa: string, power: string)
    requires forall j :: 0 <= j < |mantissa| ==> mantissa[j] != 'e'
    ensures var text := mantissa + "e" + power;
            IndexOf(text, 'e') == |mantissa| && text[..|mantissa|] == mantissa && text[|mantissa| + 1..] == power
  {
    var text := mantissa + "e" + power;
    assert text[|mantissa|] == 'e';
    assert forall j :: 0 <= j < |mantissa| ==> text[j] == mantissa[j];
  }

  lemma {:induction false} NumberParts(n: Number)
    requires n.Scientific? && Wellformed(n)
    ensures NumberText(n) == Mantissa(n) + "e" + Power(n.exponent)
  {
    hide TrimZeros, ShortExponent, Exponent, Decimal, IndexOf, Power;
    var front := Sign(n.negative) + [n.lead] + ".";
    FindsE(front + n.fraction, Exponent(n.exponent));
    TrimKeeps(front, n.fraction);
    ExponentShortened(n.exponent);
    DotKept(n);
  }

  lemma {:induction false} DotKept(n: Number)
    requires n.Scientific?
    ensures var front := Sign(n.negative) + [n.lead] + ".";
            DropLast(front + TrimZeros(n.fraction), '.') == Mantissa(n)
  {
    hide TrimZeros, DropLast;
    var front, kept := Sign(n.negative) + [n.lead], TrimZeros(n.fraction);
    assert front + "." + kept == front + ("." + kept);
    DropLastBehind(front, "." + kept, '.');
  }

  lemma {:induction false} DropLastBehind(front: string, s: string, c: char)
    requires s != ""
    ensures DropLast(front + s, c) == front + DropLast(s, c)
  {
    assert (front + s)[..|front + s| - 1] == front + s[..|s| - 1];
  }

  // ----- reading it back

  predicate IsNumberChar(c: char) {
    IsDigit(c) || c == '-' || c == '.' || c == 'e'
  }

  predicate AllNumberChars(s: string) {
    forall i :: 0 <= i < |s| ==> IsNumberChar(s[i])
  }

  lemma {:induction false} MantissaChars(n: Number)
    requires n.Scientific? && Wellformed(n)
    ensures var s := Mantissa(n); s != "" && (IsDigit(s[0]) || s[0] == '-') && AllNumberChars(s)
    ensures forall i :: 0 <= i < |Mantissa(n)| ==> Mantissa(n)[i] != 'e'
  {
    hide TrimZeros;
    TrimmedDigits(n.fraction);
    var kept := TrimZeros(n.fraction);
    assert forall i :: 0 <= i < |kept| ==> kept[i] == n.fraction[i];
  }

  lemma {:induction false} PowerChars(x: int)
    ensures AllNumberChars(Power(x))
  {
    hide Decimal;
  }

  lemma {:induction false} NumberChars(n: Number)
    requires !n.NonFinite? && Wellformed(n)
    ensures var s := NumberText(n); s != "" && (IsDigit(s[0]) || s[0] == '-') && AllNumberChars(s)
  {
    hide NumberText, Mantissa, Power, IsNumberChar;
    assert IsNumberChar('e') && IsNumberChar('0') by { EIsNumberChar(); }
    if n.Scientific? {
      NumberParts(n);
      MantissaChars(n);
      PowerChars(n.exponent);
    } else {
      ZeroText(n);
    }
  }

  lemma EIsNumberChar()
    ensures IsNumberChar('e') && IsNumberChar('0')
  {
  }

  lemma ZeroText(n: Number)
    requires n.Zero?
    ensures NumberText(n) == "0"
  {
  }

  lemma {:induction false} DecimalReadsBack(m: nat, n: nat)
    requires Decimal(m) == Decimal(n)
    ensures m == n
  {
    var s, t := Decimal(m), Decimal(n);
    assert s[|s| - 1] == t[|t| - 1];
    assert s[..|s| - 1] == t[..|t| - 1];
    if m >= 10 && n >= 10 {
      assert Decimal(m / 10) == s[..|s| - 1] && Decimal(n / 10) == t[..|t| - 1];
      DecimalReadsBack(m / 10, n / 10);
    }
  }

  lemma {:induction false} PowerReadsBack(x: int, y: int)
    requires Power(x) == Power(y)
    ensures x == y
  {
    hide Decimal;
    var a, b := Decimal(Magnitude(x)), Decimal(Magnitude(y));
    if x != 0 { LeadingDigit(Magnitude(x)); }
    if y != 0 { LeadingDigit(Magnitude(y)); }
    assert Power(x)[0] == Power(y)[0];
    if x != 0 {
      assert a == if x < 0 then Power(x)[1..] else Power(x);
      assert b == if x < 0 then Power(y)[1..] else Power(y);
      DecimalReadsBack(Magnitude(x), Magnitude(y));
    }
  }

  lemma {:induction false} MantissaReadsBack(m: Number, n: Number)
    requires m.Scientific? && n.Scientific? && Wellformed(m) && Wellformed(n) && Mantissa(m) == Mantissa(n)
    ensures m.negative == n.negative && m.lead == n.lead && m.fraction == n.fraction
  {
    hide TrimZeros;
    var s, t := Mantissa(m), Mantissa(n);
    assert s[0] == t[0];
    var k := if m.negative then 1 else 0;
    assert s[k] == m.lead && t[k] == n.lead;
    var a, b := DropLast("." + TrimZeros(m.fraction), '.'), DropLast("." + TrimZeros(n.fraction), '.');
    assert a == s[k + 1..] && b == t[k + 1..];
    TrimmedDigits(m.fraction);
    TrimmedDigits(n.fraction);
    DotFraction(m.fraction);
    DotFraction(n.fraction);
  }

  lemma {:induction false} DotFraction(digits: string)
    requires forall i :: 0 <= i < |digits| ==> IsDigit(digits[i])
    ensures var kept, r := TrimZeros(digits), DropLast("." + TrimZeros(digits), '.');
            (kept == "" ==> r == "") && (kept != "" ==> r != "" && r[1..] == kept)
  {
    hide TrimZeros;
    TrimmedDigits(digits);
    var kept := TrimZeros(digits);
    assert kept != "" ==> kept[|kept| - 1] == digits[|kept| - 1];
  }

  // Only the two zeros share a text.
  lemma {:induction false} NumberReadsBack(m: Number, n: Number)
    requires !m.NonFinite? && !n.NonFinite? && Wellformed(m) && Wellformed(n)
    ensures NumberText(m) == NumberText(n) <==> m == n || (m.Zero? && n.Zero?)
  {
    hide NumberText, Mantissa, Power;
    if m.Scientific? { NumberParts(m); MantissaChars(m); }
    if n.Scientific? { NumberParts(n); MantissaChars(n); }
    if m.Zero? { ZeroText(m); }
    if n.Zero? { ZeroText(n); }
    if m.Scientific? && n.Scientific? && NumberText(m) == NumberText(n) {
      SplitAtE(Mantissa(m), Mantissa(n), Power(m.exponent), Power(n.exponent));
      MantissaReadsBack(m, n);
      PowerReadsBack(m.exponent, n.exponent);
    }
  }

  lemma {:induction false} SplitAtE(a: string, b: string, x: string, y: string)
    requires a + "e" + x == b + "e" + y
    requires (forall i :: 0 <= i < |a| ==> a[i] != 'e') && (forall i :: 0 <= i < |b| ==> b[i] != 'e')
    ensures a == b && x == y
  {
    var s, t := a + "e" + x, b + "e" + y;
    assert s[|a|] == t[|a|] && s[|b|] == t[|b|];
    assert |a| == |b|;
    assert a == s[..|a|] && b == t[..|b|] && x == s[|a| + 1..] && y == t[|b| + 1..];
  }
}
