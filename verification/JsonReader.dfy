/** Reading a JSON value as the repository's own parser does (JsonParser, Source/SimpleJson.cpp:83-267,
    403-446), and that it reads back from its canonical text the value that was printed. */
module JsonReader {
  import opened Options
  import opened JsonEscape
  import opened JsonStrings
  import opened JsonNumber
  import opened KeyOrder
  import opened CanonicalJson

  // ----- numbers

  // A decimal number: digits times ten to the power. The conversion to the nearest double is left out.
  datatype Amount = Amount(digits: int, power: int)

  function Pow10(k: nat): (p: nat)
    ensures p > 0
  {
    if k == 0 then 1 else 10 * Pow10(k - 1)
  }

  predicate SameAmount(a: Amount, b: Amount) {
    if a.power >= b.power then a.digits * Pow10(a.power - b.power) == b.digits
    else b.digits * Pow10(b.power - a.power) == a.digits
  }

  predicate AllDigits(s: string) {
    forall i :: 0 <= i < |s| ==> IsDigit(s[i])
  }

  // The number that decimal digits write.
  function Units(s: string): nat
    requires AllDigits(s)
  {
    if s == "" then 0 else 10 * Units(s[..|s| - 1]) + (s[|s| - 1] as nat - '0' as nat)
  }

  function Signed(negative: bool, n: nat): int {
    if negative then 0 - n else n
  }

  function DigitCount(s: string): (n: nat)
    ensures n <= |s| && AllDigits(s[..n])
  {
    if s == "" || !IsDigit(s[0]) then 0
    else
      var n := DigitCount(s[1..]);
      assert s[..1 + n] == [s[0]] + s[1..][..n];
      1 + n
  }

  // A fraction, if there is one: its digits and the text behind it.
  function ReadFraction(s: string): (r: Option<(string, string)>)
    ensures r.Some? ==> AllDigits(r.value.0) && |r.value.1| <= |s|
  {
    if s == "" || s[0] != '.' then Some(("", s))
    else
      var n := DigitCount(s[1..]);
      if n == 0 then None else Some((s[1..][..n], s[1..][n..]))
  }

  // An exponent, if there is one.
  function ReadExponent(s: string): (r: Option<(int, string)>)
    ensures r.Some? ==> |r.value.1| <= |s|
  {
    if s == "" || (s[0] != 'e' && s[0] != 'E') then Some((0, s))
    else
      var signed := |s| > 1 && (s[1] == '+' || s[1] == '-');
      var t := if signed then s[2..] else s[1..];
      var n := DigitCount(t);
      if n == 0 then None
      else Some((Signed(signed && s[1] == '-', Units(t[..n])), t[n..]))
  }

  function ReadNumber(s: string): (r: Option<(Amount, string)>)
    requires s != ""
    ensures r.Some? ==> |r.value.1| < |s|
  {
    var t := if s[0] == '-' then s[1..] else s;
    var n := DigitCount(t);
    if n == 0 || (t[0] == '0' && n > 1) then None
    else
      match ReadFraction(t[n..])
      case None => None
      case Some((fraction, more)) =>
        match ReadExponent(more)
        case None => None
        case Some((exponent, rest)) =>
          AllDigitsTogether(t[..n], fraction);
          var digits := Units(t[..n] + fraction);
          Some((Amount(Signed(s[0] == '-', digits), exponent - |fraction|), rest))
  }

  lemma AllDigitsTogether(a: string, b: string)
    requires AllDigits(a) && AllDigits(b)
    ensures AllDigits(a + b)
  {
  }

  // ----- values

  // Members in the order of the text.
  datatype Read =
    | NullRead
    | BoolRead(value: bool)
    | NumberRead(amount: Amount)
    | StringRead(text: string)
    | ArrayRead(items: seq<Read>)
    | ObjectRead(members: seq<(string, Read)>)

  const MAX_DEPTH := 64

  function SkipSpace(s: string): (r: string)
    ensures |r| <= |s|
  {
    if s != "" && (s[0] == ' ' || s[0] == '\t' || s[0] == '\r' || s[0] == '\n') then SkipSpace(s[1..]) else s
  }

  function ReadLiteral(s: string, literal: string, value: Read): (r: Option<(Read, string)>)
    requires literal != ""
    ensures r.Some? ==> |r.value.1| < |s|
  {
    if literal <= s then Some((value, s[|literal|..])) else None
  }

  // A value of a text, in `depth` arrays and objects, and the text behind it.
  function ReadValue(text: string, depth: nat): (r: Option<(Read, string)>)
    ensures r.Some? ==> |r.value.1| < |text|
    decreases |text|, 1
  {
    var s := SkipSpace(text);
    if s == "" then None
    else if s[0] == '{' then
      if depth >= MAX_DEPTH then None
      else
        var t := SkipSpace(s[1..]);
        if t != "" && t[0] == '}' then Some((ObjectRead([]), t[1..])) else ReadMembers(t, depth + 1, [])
    else if s[0] == '[' then
      if depth >= MAX_DEPTH then None
      else
        var t := SkipSpace(s[1..]);
        if t != "" && t[0] == ']' then Some((ArrayRead([]), t[1..])) else ReadItems(t, depth + 1, [])
    else if s[0] == '"' then
      match StringRest(s[1..], "")
      case None => None
      case Some((value, rest)) => Some((StringRead(value), rest))
    else if s[0] == 't' then ReadLiteral(s, "true", BoolRead(true))
    else if s[0] == 'f' then ReadLiteral(s, "false", BoolRead(false))
    else if s[0] == 'n' then ReadLiteral(s, "null", NullRead)
    else if s[0] == '-' || IsDigit(s[0]) then
      match ReadNumber(s)
      case None => None
      case Some((amount, rest)) => Some((NumberRead(amount), rest))
    else None
  }

  // The rest of an array of which some items are read.
  function ReadItems(text: string, depth: nat, done: seq<Read>): (r: Option<(Read, string)>)
    ensures r.Some? ==> |r.value.1| < |text|
    decreases |text|, 2
  {
    match ReadValue(text, depth)
    case None => None
    case Some((value, rest)) =>
      var t := SkipSpace(rest);
      if t == "" then None
      else if t[0] == ']' then Some((ArrayRead(done + [value]), t[1..]))
      else if t[0] == ',' then ReadItems(t[1..], depth, done + [value])
      else None
  }

  // A member's key and the text behind the colon.
  function ReadKey(text: string): (r: Option<(string, string)>)
    ensures r.Some? ==> |r.value.1| < |text|
  {
    var s := SkipSpace(text);
    if s == "" || s[0] != '"' then None
    else
      match StringRest(s[1..], "")
      case None => None
      case Some((key, rest)) =>
        var t := SkipSpace(rest);
        if t == "" || t[0] != ':' then None else Some((key, t[1..]))
  }

  function ReadMembers(text: string, depth: nat, done: seq<(string, Read)>): (r: Option<(Read, string)>)
    ensures r.Some? ==> |r.value.1| < |text|
    decreases |text|, 2
  {
    match ReadKey(text)
    case None => None
    case Some((key, more)) =>
      match ReadValue(more, depth)
      case None => None
      case Some((value, rest)) =>
        var t := SkipSpace(rest);
        if t == "" then None
        else if t[0] == '}' then Some((ObjectRead(done + [(key, value)]), t[1..]))
        else if t[0] == ',' then ReadMembers(t[1..], depth, done + [(key, value)])
        else None
  }

  // ----- what is printed

  // The decimal number a double's seventeen digits write.
  function ValueOf(n: Number): Amount
    requires !n.NonFinite? && Wellformed(n)
  {
    match n
    case Zero(_) => Amount(0, 0)
    case Scientific(negative, lead, fraction, exponent) =>
      AllDigitsTogether([lead], fraction);
      var digits := Units([lead] + fraction);
      Amount(Signed(negative, digits), exponent - PRECISION)
  }

  // What is read is what was printed: members by their keys, which come in byte order and once each.
  ghost predicate Means(r: Read, v: Json)
    requires Valid(v)
    decreases v
  {
    match v
    case Null => r.NullRead?
    case Bool(x) => r == BoolRead(x)
    case Numeric(n) => r.NumberRead? && SameAmount(r.amount, ValueOf(n))
    case String(s) => r == StringRead(s)
    case Array(items) =>
      r.ArrayRead? && |r.items| == |items| && (forall i :: 0 <= i < |items| ==> Means(r.items[i], items[i]))
    case Object(members) =>
      && r.ObjectRead? && |r.members| == |members| && Sorted(KeysRead(r.members))
      && (forall k :: k in KeysRead(r.members) <==> k in Keys(members))
      && forall i, j :: 0 <= i < |members| && 0 <= j < |r.members| && r.members[j].0 == members[i].key ==>
           Means(r.members[j].1, members[i].value)
  }

  function KeysRead(members: seq<(string, Read)>): (keys: seq<string>)
    ensures |keys| == |members| && forall i :: 0 <= i < |keys| ==> keys[i] == members[i].0
  {
    seq(|members|, i requires 0 <= i < |members| => members[i].0)
  }

  // How deep arrays and objects are nested, and that all strings are UTF-8: what the parser demands.
  predicate Shallow(v: Json, depth: nat) {
    match v
    case Array(items) => depth < MAX_DEPTH && forall i :: 0 <= i < |items| ==> Shallow(items[i], depth + 1)
    case Object(members) => depth < MAX_DEPTH && forall i :: 0 <= i < |members| ==> Shallow(members[i].value, depth + 1)
    case _ => true
  }

  predicate AllWellEncoded(v: Json) {
    match v
    case String(s) => WellEncoded(s)
    case Array(items) => forall i :: 0 <= i < |items| ==> AllWellEncoded(items[i])
    case Object(members) =>
      forall i :: 0 <= i < |members| ==> WellEncoded(members[i].key) && AllWellEncoded(members[i].value)
    case _ => true
  }

  predicate Readable(v: Json, depth: nat) {
    Valid(v) && Shallow(v, depth) && AllWellEncoded(v)
  }

  // ----- numbers are read back

  lemma {:induction false} DigitsStop(d: string, y: string)
    requires AllDigits(d) && (y == "" || !IsDigit(y[0]))
    ensures DigitCount(d + y) == |d|
  {
    if d != "" {
      assert (d + y)[1..] == d[1..] + y;
      DigitsStop(d[1..], y);
    } else {
      assert d + y == y;
    }
  }

  lemma {:induction false} DecimalUnits(n: nat)
    ensures AllDigits(Decimal(n)) && Units(Decimal(n)) == n
  {
    var s := Decimal(n);
    if n >= 10 {
      DecimalUnits(n / 10);
      assert s[..|s| - 1] == Decimal(n / 10);
    } else {
      assert s[..|s| - 1] == "";
    }
  }

  lemma SignedTimes(negative: bool, n: nat, p: nat)
    ensures Signed(negative, n) * p == Signed(negative, n * p)
  {
    assert (0 - n) * p == 0 - n * p;
  }

  lemma UnitsSnoc(s: string)
    requires s != "" && AllDigits(s)
    ensures Units(s) == 10 * Units(s[..|s| - 1]) + (s[|s| - 1] as nat - '0' as nat)
  {
  }

  lemma TenTimes(u: nat, z: nat)
    requires z > 0
    ensures u * Pow10(z) == 10 * (u * Pow10(z - 1)) && u * Pow10(0) == u
  {
    var p := Pow10(z - 1);
    assert u * (10 * p) == 10 * (u * p);
  }

  lemma {:induction false} UnitsOfZeros(a: string, z: nat)
    requires AllDigits(a)
    ensures AllDigits(a + seq(z, _ => '0')) && Units(a + seq(z, _ => '0')) == Units(a) * Pow10(z)
  {
    hide Units, Pow10;
    var s := a + seq(z, _ => '0');
    if z == 0 {
      assert s == a;
      TenTimes(Units(a), 1);
    } else {
      UnitsOfZeros(a, z - 1);
      assert s[..|s| - 1] == a + seq(z - 1, _ => '0') && s[|s| - 1] == '0';
      UnitsSnoc(s);
      TenTimes(Units(a), z);
    }
  }

  lemma {:induction false} PowerIsRead(x: int, y: string)
    requires Ends(y)
    ensures ReadExponent("e" + (Power(x) + y)) == Some((x, y))
  {
    hide Decimal, Units, DigitCount;
    var d := Decimal(Magnitude(x));
    DecimalUnits(Magnitude(x));
    DigitsStop(d, y);
    assert (d + y)[..|d|] == d && (d + y)[|d|..] == y;
    var s := "e" + (Power(x) + y);
    ZeroIsZero();
    if x < 0 {
      assert s[2..] == d + y;
    } else {
      assert Power(x) == d;
      assert s[1..] == d + y;
      assert IsDigit(d[0]) && s[1] == d[0];
    }
  }

  lemma ZeroIsZero()
    ensures Decimal(0) == "0"
  {
  }

  lemma {:induction false} FractionIsRead(kept: string, y: string)
    requires AllDigits(kept) && y != "" && y[0] == 'e'
    ensures ReadFraction(DropLast("." + kept, '.') + y) == Some((kept, y))
  {
    hide DigitCount;
    var f := "." + kept;
    if kept == "" {
      assert f[..0] == "" && "" + y == y;
    } else {
      assert f[|f| - 1] == kept[|kept| - 1] && IsDigit(kept[|kept| - 1]);
      DigitsStop(kept, y);
      var s := f + y;
      assert s[1..] == kept + y;
      assert (kept + y)[..|kept|] == kept && (kept + y)[|kept|..] == y;
    }
  }

  // The digits that were kept, in their place, are worth what all of them are.
  lemma {:induction false} TrimmedAmount(front: string, digits: string, negative: bool, power: int)
    requires AllDigits(front) && AllDigits(digits)
    ensures AllDigits(TrimZeros(digits)) && AllDigits(front + TrimZeros(digits)) && AllDigits(front + digits)
    ensures var kept := Units(front + TrimZeros(digits));
            var all := Units(front + digits);
            SameAmount(Amount(Signed(negative, kept), power - |TrimZeros(digits)|),
                       Amount(Signed(negative, all), power - |digits|))
  {
    hide TrimZeros, Units, Pow10;
    TrimmedDigits(digits);
    var kept := TrimZeros(digits);
    assert AllDigits(kept) by {
      assert forall i :: 0 <= i < |kept| ==> kept[i] == digits[i];
    }
    AllDigitsTogether(front, kept);
    AllDigitsTogether(front, digits);
    var z := |digits| - |kept|;
    UnitsOfZeros(front + kept, z);
    assert front + kept + seq(z, _ => '0') == front + digits;
    SignedTimes(negative, Units(front + kept), Pow10(z));
  }

  // A number is read part by part.
  lemma {:induction false} PartsAreRead(negative: bool, whole: string, f: string, fraction: string, more: string,
        exponent: int, y: string)
    requires whole != "" && whole[0] != '-' && (whole[0] == '0' ==> |whole| == 1)
    requires AllDigits(whole) && DigitCount(whole + f) == |whole|
    requires ReadFraction(f) == Some((fraction, more)) && ReadExponent(more) == Some((exponent, y))
    requires AllDigits(fraction)
    ensures AllDigits(whole + fraction) && Sign(negative) + (whole + f) != ""
    ensures ReadNumber(Sign(negative) + (whole + f))
         == Some((Amount(Signed(negative, Units(whole + fraction)), exponent - |fraction|), y))
  {
    hide Units, ReadFraction, ReadExponent, DigitCount, Signed;
    AllDigitsTogether(whole, fraction);
    var t := whole + f;
    var s := Sign(negative) + t;
    assert t[..|whole|] == whole && t[|whole|..] == f && t[0] == whole[0];
    if negative {
      assert s[1..] == t;
    } else {
      assert s == t;
    }
  }

  lemma {:induction false} ScientificIsRead(n: Number, y: string)
    requires n.Scientific? && Wellformed(n) && Ends(y)
    ensures var s := Mantissa(n) + "e" + Power(n.exponent) + y;
            && s != "" && ReadNumber(s).Some? && ReadNumber(s).value.1 == y
            && SameAmount(ReadNumber(s).value.0, ValueOf(n))
  {
    hide TrimZeros, Power, Units, ReadFraction, ReadExponent, SameAmount, DropLast, DigitCount, Signed, ReadNumber,
        Sign;
    TrimmedAmount([n.lead], n.fraction, n.negative, n.exponent);
    var kept := TrimZeros(n.fraction);
    var e := "e" + (Power(n.exponent) + y);
    var f := DropLast("." + kept, '.') + e;
    var s := Mantissa(n) + "e" + Power(n.exponent) + y;
    assert s == Sign(n.negative) + ([n.lead] + f);
    PowerIsRead(n.exponent, y);
    KeptDigits(n.fraction);
    FractionIsRead(kept, e);
    FractionStarts(kept, e);
    DigitsStop([n.lead], f);
    PartsAreRead(n.negative, [n.lead], f, kept, e, n.exponent, y);
  }

  lemma {:induction false} KeptDigits(digits: string)
    requires AllDigits(digits)
    ensures AllDigits(TrimZeros(digits))
  {
    TrimmedDigits(digits);
    assert forall i :: 0 <= i < |TrimZeros(digits)| ==> TrimZeros(digits)[i] == digits[i];
  }

  lemma FractionStarts(kept: string, e: string)
    requires e != "" && e[0] == 'e' && AllDigits(kept)
    ensures var f := DropLast("." + kept, '.') + e; f != "" && !IsDigit(f[0])
  {
  }

  lemma {:induction false} NumberIsRead(n: Number, y: string)
    requires !n.NonFinite? && Wellformed(n) && Ends(y)
    ensures var s := NumberText(n) + y;
            s != "" && ReadNumber(s).Some? && ReadNumber(s).value.1 == y
            && SameAmount(ReadNumber(s).value.0, ValueOf(n))
  {
    hide NumberText, Mantissa, Power, SameAmount;
    if n.Scientific? {
      NumberParts(n);
      MantissaChars(n);
      ScientificIsRead(n, y);
    } else {
      ZeroText(n);
      ZeroIsRead(y);
    }
  }

  lemma {:induction false} ZeroIsRead(y: string)
    requires Ends(y)
    ensures ReadNumber("0" + y) == Some((Amount(0, 0), y)) && SameAmount(Amount(0, 0), Amount(0, 0))
  {
    var s := "0" + y;
    assert s[1..] == y;
    DigitsStop("0", y);
    assert s[..1] == "0" && "0" + "" == "0" && "0"[..0] == "";
  }

  // ----- values are read back

  // The text was read as a value that means v, and y is left.
  ghost predicate ReadAs(outcome: Option<(Read, string)>, v: Json, y: string)
    requires Valid(v)
  {
    outcome.Some? && outcome.value.1 == y && Means(outcome.value.0, v)
  }

  lemma NoSpace(s: string)
    requires s != "" && s[0] != ' ' && s[0] != '\t' && s[0] != '\r' && s[0] != '\n'
    ensures SkipSpace(s) == s
  {
  }

  lemma {:induction false} LeafIsRead(v: Json, depth: nat, y: string)
    requires Readable(v, depth) && Ends(y) && !v.Array? && !v.Object?
    ensures ReadAs(ReadValue(Text(v) + y, depth), v, y)
  {
    hide NumberText, Escape, StringRest, ReadNumber, WellEncoded, SameAmount;
    var s := Text(v) + y;
    TextStarts(v);
    assert s[0] == Text(v)[0];
    NoSpace(s);
    if v.Numeric? {
      NumberIsRead(v.number, y);
    } else if v.String? {
      assert s[1..] == Escape(v.text) + "\"" + y;
      EscapedIsRead(v.text, y, "");
      assert "" + v.text == v.text;
    } else {
      assert Text(v) <= s && s[|Text(v)|..] == y;
    }
  }

  // A value's canonical text is read as that value, whatever may follow it.
  lemma {:induction false} TextIsRead(v: Json, depth: nat, y: string)
    requires Readable(v, depth) && Ends(y)
    ensures ReadAs(ReadValue(Text(v) + y, depth), v, y)
    decreases v, 1, 0
  {
    hide Text, ReadItems, ReadMembers, Means, Ends, ItemsText, MembersText, StringRest, ReadNumber;
    match v
    case Array(items) =>
      ArrayText(v, y);
      var t := ItemsText(v, 0) + ("]" + y);
      if items == [] {
        EmptyArray(v, depth, y);
      } else {
        ItemsStart(v, 0, "]" + y);
        FirstItem(v, y);
        ArrayOpens(t, depth);
        ItemsAreRead(v, 0, depth, [], y);
      }
    case Object(members) =>
      ObjectText(v, y);
      var keys := SortedKeys(v);
      var t := MembersText(v, keys, 0) + ("}" + y);
      AllKeys(v);
      if members == [] {
        EmptyObject(v, depth, y);
      } else {
        FirstMember(v, keys, y);
        ObjectOpens(t, depth);
        MembersAreRead(v, keys, 0, depth, [], y);
      }
    case _ => LeafIsRead(v, depth, y);
  }

  lemma ArrayOpens(t: string, depth: nat)
    requires depth < MAX_DEPTH && t != "" && SkipSpace(t) == t && t[0] != ']'
    ensures ReadValue(['['] + t, depth) == ReadItems(t, depth + 1, [])
  {
    hide ReadItems, ReadMembers, StringRest, ReadNumber;
    var s := ['['] + t;
    NoSpace(s);
    assert s[1..] == t;
  }

  lemma ObjectOpens(t: string, depth: nat)
    requires depth < MAX_DEPTH && t != "" && SkipSpace(t) == t && t[0] != '}'
    ensures ReadValue(['{'] + t, depth) == ReadMembers(t, depth + 1, [])
  {
    hide ReadItems, ReadMembers, StringRest, ReadNumber;
    var s := ['{'] + t;
    NoSpace(s);
    assert s[1..] == t;
  }

  lemma {:induction false} EmptyArray(v: Json, depth: nat, y: string)
    requires v == Array([]) && depth < MAX_DEPTH
    ensures Valid(v) && ReadAs(ReadValue(Text(v) + y, depth), v, y)
  {
    hide ReadItems, ReadMembers, StringRest, ReadNumber;
    var s := Text(v) + y;
    assert s == "[" + ("]" + y);
    NoSpace(s);
    NoSpace("]" + y);
    assert s[1..] == "]" + y && ("]" + y)[1..] == y;
  }

  lemma {:induction false} EmptyObject(v: Json, depth: nat, y: string)
    requires v == Object([]) && depth < MAX_DEPTH && Valid(v)
    ensures ReadAs(ReadValue(Text(v) + y, depth), v, y)
  {
    hide ReadItems, ReadMembers, StringRest, ReadNumber, SortedKeys;
    AllKeys(v);
    var s := Text(v) + y;
    ObjectText(v, y);
    NoMembers(v, SortedKeys(v), y);
    assert s == ['{'] + ("}" + y);
    NoSpace(s);
    NoSpace("}" + y);
    assert s[1..] == "}" + y && ("}" + y)[1..] == y;
  }

  // ----- items

  lemma {:induction false} FirstItem(v: Json, y: string)
    requires v.Array? && Valid(v) && v.items != []
    ensures var t := ItemsText(v, 0) + ("]" + y);
            && t == Text(v.items[0]) + (ItemsText(v, 1) + ("]" + y))
            && t != "" && SkipSpace(t) == t && t[0] != ']'
  {
    hide Text, ItemsText, Valid;
    ItemStep(v, 0, "]" + y);
    var u := Text(v.items[0]) + (ItemsText(v, 1) + ("]" + y));
    assert "" + u == u;
    ItemIsValid(v, 0);
    TextStarts(v.items[0]);
    StartIsNoSpace(v.items[0], u);
  }

  lemma ItemIsValid(v: Json, k: nat)
    requires v.Array? && Valid(v) && k < |v.items|
    ensures Valid(v.items[k])
  {
  }

  lemma StartIsNoSpace(v: Json, u: string)
    requires u != "" && StartsLike(v, u[0])
    ensures SkipSpace(u) == u && u[0] != ']'
  {
  }

  // What follows an item: the end of the array, or a comma and the next item.
  lemma {:induction false} AfterItem(v: Json, k: nat, y: string)
    requires v.Array? && Valid(v) && k < |v.items|
    ensures var t := ItemsText(v, k + 1) + ("]" + y);
            && t != "" && SkipSpace(t) == t && Ends(t)
            && (k + 1 == |v.items| ==> t == [']'] + y)
            && (k + 1 < |v.items| ==> t == [','] + (Text(v.items[k + 1]) + (ItemsText(v, k + 2) + ("]" + y))))
  {
    hide Text, Valid;
    var t := ItemsText(v, k + 1) + ("]" + y);
    ItemsEnd(v, k + 1, y);
    if k + 1 < |v.items| {
      ItemStep(v, k + 1, "]" + y);
    } else {
      assert t == [']'] + y;
    }
    NoSpace(t);
  }

  lemma {:induction false} ItemsAreRead(v: Json, k: nat, depth: nat, done: seq<Read>, y: string)
    requires v.Array? && Readable(v, depth) && Ends(y) && k < |v.items| && |done| == k
    requires forall i :: 0 <= i < k ==> Valid(v.items[i]) && Means(done[i], v.items[i])
    ensures ReadAs(ReadItems(Text(v.items[k]) + (ItemsText(v, k + 1) + ("]" + y)), depth + 1, done), v, y)
    decreases v, 0, |v.items| - k
  {
    hide Text, Means, Ends, ItemsText, ReadValue, Valid, Shallow, AllWellEncoded;
    var rest := ItemsText(v, k + 1) + ("]" + y);
    var text := Text(v.items[k]) + rest;
    ItemIsReadable(v, k, depth);
    AfterItem(v, k, y);
    TextIsRead(v.items[k], depth + 1, rest);
    var value := ReadValue(text, depth + 1).value.0;
    if k + 1 == |v.items| {
      assert rest[1..] == y;
      ArrayMeans(v, done + [value]);
    } else {
      ItemIsReadable(v, k + 1, depth);
      var next := Text(v.items[k + 1]) + (ItemsText(v, k + 2) + ("]" + y));
      assert rest[1..] == next;
      ItemsAreRead(v, k + 1, depth, done + [value], y);
      NextItems(text, depth + 1, done, value, rest, next);
    }
  }

  lemma NextItems(text: string, depth: nat, done: seq<Read>, value: Read, rest: string, next: string)
    requires ReadValue(text, depth) == Some((value, rest)) && SkipSpace(rest) == rest && rest == [','] + next
    ensures ReadItems(text, depth, done) == ReadItems(next, depth, done + [value])
  {
    hide ReadValue;
    assert rest[1..] == next;
  }

  lemma ItemIsReadable(v: Json, k: nat, depth: nat)
    requires v.Array? && Readable(v, depth) && k < |v.items|
    ensures Readable(v.items[k], depth + 1) && Valid(v)
  {
  }

  lemma ArrayMeans(v: Json, items: seq<Read>)
    requires v.Array? && Valid(v) && |items| == |v.items|
    requires forall i :: 0 <= i < |items| ==> Valid(v.items[i]) && Means(items[i], v.items[i])
    ensures Means(ArrayRead(items), v)
  {
  }

  // ----- members

  lemma {:induction false} AllKeys(v: Json)
    requires v.Object? && Valid(v)
    ensures |SortedKeys(v)| == |v.members| && Sorted(SortedKeys(v))
  {
    SortSorts(Keys(v.members));
    assert |multiset(SortedKeys(v))| == |multiset(Keys(v.members))|;
  }

  // A member's text up to the value.
  lemma {:induction false} KeyIsRead(key: string, w: string)
    requires WellEncoded(key)
    ensures ReadKey(['"'] + (Escape(key) + "\"" + ([':'] + w))) == Some((key, w))
  {
    hide Escape, StringRest, WellEncoded;
    var t := Escape(key) + "\"" + ([':'] + w);
    var s := ['"'] + t;
    NoSpace(s);
    assert s[1..] == t;
    EscapedIsRead(key, [':'] + w, "");
    assert "" + key == key;
    NoSpace([':'] + w);
    assert ([':'] + w)[1..] == w;
  }

  // The text of member k and what follows it.
  function MemberAt(v: Json, keys: seq<string>, k: nat, y: string): string
    requires v.Object? && AreKeys(v, keys) && k < |keys|
  {
    ['"'] + (Escape(keys[k]) + "\"" + ([':'] + (Text(At(v, keys[k])) + (MembersText(v, keys, k + 1) + ("}" + y)))))
  }

  lemma {:induction false} FirstMember(v: Json, keys: seq<string>, y: string)
    requires v.Object? && AreKeys(v, keys) && keys != []
    ensures var t := MembersText(v, keys, 0) + ("}" + y);
            t == MemberAt(v, keys, 0, y) && t != "" && SkipSpace(t) == t && t[0] != '}'
  {
    hide Text, Escape, MembersText, At;
    MemberStep(v, keys, 0, "}" + y);
    var u := MemberAt(v, keys, 0, y);
    assert "" + u == u;
    NoSpace(u);
  }

  lemma {:induction false} AfterMember(v: Json, keys: seq<string>, k: nat, y: string)
    requires v.Object? && AreKeys(v, keys) && k < |keys|
    ensures var t := MembersText(v, keys, k + 1) + ("}" + y);
            && t != "" && SkipSpace(t) == t && Ends(t)
            && (k + 1 == |keys| ==> t == ['}'] + y)
            && (k + 1 < |keys| ==> t == [','] + MemberAt(v, keys, k + 1, y))
  {
    hide Text, Escape, At, MembersText, AreKeys;
    var t := MembersText(v, keys, k + 1) + ("}" + y);
    MembersEnd(v, keys, k + 1, y);
    if k + 1 < |keys| {
      MemberStep(v, keys, k + 1, "}" + y);
    } else {
      NoMembers(v, keys, y);
    }
    NoSpace(t);
  }

  // Members read so far mean those under the first keys.
  ghost predicate ReadSoFar(done: seq<(string, Read)>, v: Json, keys: seq<string>, k: nat)
    requires v.Object? && Valid(v) && AreKeys(v, keys) && k <= |keys|
  {
    |done| == k && forall i :: 0 <= i < k ==> done[i].0 == keys[i] && MeansAt(done[i].1, v, keys[i])
  }

  ghost predicate MeansAt(r: Read, v: Json, key: string)
    requires v.Object? && Valid(v)
  {
    key in Keys(v.members) && Valid(At(v, key)) && Means(r, At(v, key))
  }

  lemma {:induction false} MemberIsReadable(v: Json, key: string, depth: nat)
    requires v.Object? && Readable(v, depth) && key in Keys(v.members)
    ensures Readable(At(v, key), depth + 1) && WellEncoded(key)
  {
  }

  lemma {:induction false} MembersAreRead(v: Json, keys: seq<string>, k: nat, depth: nat, done: seq<(string, Read)>,
        y: string)
    requires v.Object? && Readable(v, depth) && Ends(y) && keys == SortedKeys(v) && k < |keys|
    requires ReadSoFar(done, v, keys, k)
    ensures ReadAs(ReadMembers(MemberAt(v, keys, k, y), depth + 1, done), v, y)
    decreases v, 0, |keys| - k
  {
    hide Text, Means, Ends, MembersText, ReadValue, ReadKey, Valid, Shallow, AllWellEncoded, Escape, At, SortedKeys,
        MeansAt, AreKeys, WellEncoded;
    KeyAt(v, keys, k);
    var key := keys[k];
    var rest := MembersText(v, keys, k + 1) + ("}" + y);
    var w := Text(At(v, key)) + rest;
    MemberIsReadable(v, key, depth);
    AtSmaller(v, key);
    AfterMember(v, keys, k, y);
    KeyIsRead(key, w);
    TextIsRead(At(v, key), depth + 1, rest);
    var value := ReadValue(w, depth + 1).value.0;
    MeansThere(value, v, key);
    if k + 1 == |keys| {
      assert rest[1..] == y;
      ObjectMeans(v, keys, done + [(key, value)]);
    } else {
      assert rest[1..] == MemberAt(v, keys, k + 1, y);
      MembersAreRead(v, keys, k + 1, depth, done + [(key, value)], y);
    }
  }

  lemma MeansThere(r: Read, v: Json, key: string)
    requires v.Object? && Valid(v) && key in Keys(v.members) && Valid(At(v, key)) && Means(r, At(v, key))
    ensures MeansAt(r, v, key)
  {
  }

  lemma {:induction false} ObjectMeans(v: Json, keys: seq<string>, done: seq<(string, Read)>)
    requires v.Object? && Valid(v) && keys == SortedKeys(v) && ReadSoFar(done, v, keys, |keys|)
    ensures Means(ObjectRead(done), v)
  {
    hide At, SortedKeys, Sorted;
    AllKeys(v);
    assert KeysRead(done) == keys;
    forall i, j | 0 <= i < |v.members| && 0 <= j < |done| && done[j].0 == v.members[i].key
      ensures Means(done[j].1, v.members[i].value)
    {
      AtMember(v, i);
      assert MeansAt(done[j].1, v, keys[j]);
    }
  }

  // The canonical text of a value is read back, alone, as that value.
  lemma {:induction false} CanonicalIsRead(v: Json)
    requires Readable(v, 0)
    ensures ReadAs(ReadValue(Text(v), 0), v, "")
  {
    hide Text, ReadValue, Means, Readable;
    TextIsRead(v, 0, "");
    assert Text(v) + "" == Text(v);
  }
}
