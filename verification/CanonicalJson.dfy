/** The canonical text of a JSON value (AppendCanonicalJson, Source/McpServer.cpp:113-229): two values
    have the same text exactly when they are equal up to the order of object members. */
module CanonicalJson {
  import opened Options
  import opened JsonEscape
  import opened JsonNumber
  import opened KeyOrder

  // An object's members come in the order in which the hash table holding them happens to walk.
  datatype Json =
    | Null
    | Bool(value: bool)
    | Numeric(number: Number)
    | String(text: string)
    | Array(items: seq<Json>)
    | Object(members: seq<Member>)

  datatype Member = Member(key: string, value: Json)

  function Keys(members: seq<Member>): (keys: seq<string>)
    ensures |keys| == |members| && forall i :: 0 <= i < |keys| ==> keys[i] == members[i].key
  {
    seq(|members|, i requires 0 <= i < |members| => members[i].key)
  }

  // No key twice, no number that is not finite.
  predicate Valid(v: Json) {
    match v
    case Numeric(n) => !n.NonFinite? && Wellformed(n)
    case Array(items) => forall i :: 0 <= i < |items| ==> Valid(items[i])
    case Object(members) => Distinct(Keys(members)) && forall i :: 0 <= i < |members| ==> Valid(members[i].value)
    case _ => true
  }

  // Equal values, objects as maps and the two zeros as one number.
  ghost predicate Same(a: Json, b: Json)
    decreases a
  {
    match a
    case Null => b.Null?
    case Bool(x) => b.Bool? && b.value == x
    case Numeric(m) => b.Numeric? && (m == b.number || (m.Zero? && b.number.Zero?))
    case String(s) => b.String? && b.text == s
    case Array(items) => b.Array? && |b.items| == |items| && forall i :: 0 <= i < |items| ==> Same(items[i], b.items[i])
    case Object(members) =>
      && b.Object?
      && (forall k :: k in Keys(members) <==> k in Keys(b.members))
      && forall i, j :: 0 <= i < |members| && 0 <= j < |b.members| && members[i].key == b.members[j].key ==>
           Same(members[i].value, b.members[j].value)
  }

  function Position(members: seq<Member>, key: string): (i: nat)
    requires key in Keys(members)
    ensures i < |members| && members[i].key == key
  {
    if members[0].key == key then 0
    else
      assert Keys(members) == [members[0].key] + Keys(members[1..]);
      1 + Position(members[1..], key)
  }

  // ----- the text

  function SortedKeys(v: Json): (keys: seq<string>)
    requires v.Object?
    ensures (forall k :: k in keys <==> k in Keys(v.members)) && AreKeys(v, keys)
  {
    SameMembers(Keys(v.members));
    Sort(Keys(v.members))
  }

  function Text(v: Json): string
    decreases v, 1, 0
  {
    match v
    case Null => "null"
    case Bool(x) => if x then "true" else "false"
    case Numeric(n) => NumberText(n)
    case String(s) => "\"" + Escape(s) + "\""
    case Array(items) => "[" + ItemsText(v, 0) + "]"
    case Object(_) => "{" + MembersText(v, SortedKeys(v), 0) + "}"
  }

  function ItemsText(v: Json, k: nat): string
    requires v.Array? && k <= |v.items|
    decreases v, 0, |v.items| - k
  {
    if k == |v.items| then ""
    else (if k == 0 then "" else ",") + Text(v.items[k]) + ItemsText(v, k + 1)
  }

  predicate AreKeys(v: Json, keys: seq<string>)
    requires v.Object?
  {
    forall i :: 0 <= i < |keys| ==> keys[i] in Keys(v.members)
  }

  function MembersText(v: Json, keys: seq<string>, k: nat): string
    requires v.Object? && k <= |keys| && AreKeys(v, keys)
    decreases v, 0, |keys| - k
  {
    if k == |keys| then ""
    else
      (if k == 0 then "" else ",") + "\"" + Escape(keys[k]) + "\":"
      + Text(v.members[Position(v.members, keys[k])].value) + MembersText(v, keys, k + 1)
  }

  predicate AllFinite(v: Json) {
    match v
    case Numeric(n) => !n.NonFinite?
    case Array(items) => forall i :: 0 <= i < |items| ==> AllFinite(items[i])
    case Object(members) => forall i :: 0 <= i < |members| ==> AllFinite(members[i].value)
    case _ => true
  }

  // The printer gives up on a number that is not finite.
  function CanonicalText(v: Json): Option<string> {
    if AllFinite(v) then Some(Text(v)) else None
  }

  // ----- equal values, equal texts

  lemma {:induction false} SameHasSameText(a: Json, b: Json)
    requires Valid(a) && Valid(b) && Same(a, b)
    ensures Text(a) == Text(b)
    decreases a, 1, 0
  {
    hide NumberText, Escape;
    match a
    case Numeric(m) => if m.Zero? { ZeroText(m); ZeroText(b.number); }
    case Array(_) => SameItems(a, b, 0);
    case Object(members) =>
      SortSorts(Keys(members));
      SortSorts(Keys(b.members));
      SortedIsUnique(SortedKeys(a), SortedKeys(b));
      SameMemberTexts(a, b, SortedKeys(a), 0);
    case _ =>
  }

  lemma {:induction false} SameItems(a: Json, b: Json, k: nat)
    requires a.Array? && Valid(a) && Valid(b) && Same(a, b) && k <= |a.items|
    ensures ItemsText(a, k) == ItemsText(b, k)
    decreases a, 0, |a.items| - k
  {
    if k < |a.items| {
      SameHasSameText(a.items[k], b.items[k]);
      SameItems(a, b, k + 1);
    }
  }

  lemma {:induction false} SameMemberTexts(a: Json, b: Json, keys: seq<string>, k: nat)
    requires a.Object? && Valid(a) && Valid(b) && Same(a, b) && k <= |keys|
    requires AreKeys(a, keys) && AreKeys(b, keys)
    ensures MembersText(a, keys, k) == MembersText(b, keys, k)
    decreases a, 0, |keys| - k
  {
    hide Escape;
    if k < |keys| {
      SameHasSameText(a.members[Position(a.members, keys[k])].value, b.members[Position(b.members, keys[k])].value);
      SameMemberTexts(a, b, keys, k + 1);
    }
  }

  // ----- equal texts, equal values

  // What may follow a value.
  predicate Ends(s: string) {
    s == "" || s[0] == ',' || s[0] == ']' || s[0] == '}'
  }

  // The first character gives the kind of value away.
  predicate StartsLike(v: Json, c: char) {
    match v
    case Null => c == 'n'
    case Bool(x) => c == if x then 't' else 'f'
    case Numeric(_) => IsDigit(c) || c == '-'
    case String(_) => c == '"'
    case Array(_) => c == '['
    case Object(_) => c == '{'
  }

  lemma {:induction false} TextStarts(v: Json)
    requires Valid(v)
    ensures Text(v) != "" && StartsLike(v, Text(v)[0])
  {
    hide NumberText, Escape;
    if v.Numeric? { NumberChars(v.number); }
  }

  // A number stops at the first character no number contains.
  lemma {:induction false} NumberStops(a: string, b: string, x: string, y: string)
    requires AllNumberChars(a) && AllNumberChars(b) && Ends(x) && Ends(y) && a + x == b + y
    ensures a == b && x == y
  {
    var s, t := a + x, b + y;
    if |a| < |b| { Overlap(a, b, x, y); }
    if |b| < |a| { Overlap(b, a, y, x); }
    assert a == s[..|a|] && b == t[..|b|] && x == s[|a|..] && y == t[|b|..];
  }

  lemma Overlap(a: string, b: string, x: string, y: string)
    requires AllNumberChars(b) && a + x == b + y && |a| < |b|
    ensures x != "" && IsNumberChar(x[0])
  {
    assert (a + x)[|a|] == b[|a|];
  }

  // A value's text ends itself, whatever follows, and only values equal up to member order share it.
  lemma {:induction false} ReadsBack(a: Json, b: Json, x: string, y: string)
    requires Valid(a) && Valid(b) && Ends(x) && Ends(y) && Text(a) + x == Text(b) + y
    ensures Same(a, b) && x == y
    decreases a, 1, 0
  {
    hide Text, StartsLike, Ends, Valid, Same;
    TextStarts(a);
    TextStarts(b);
    assert (Text(a) + x)[0] == (Text(b) + y)[0];
    SameKind(a, b, Text(a)[0]);
    match a
    case Array(_) =>
      ArrayText(a, x);
      ArrayText(b, y);
      Uncons('[', ItemsText(a, 0) + ("]" + x), ItemsText(b, 0) + ("]" + y));
      ItemsReadBack(a, b, 0, x, y);
      ArraysSame(a, b);
    case Object(_) =>
      ObjectText(a, x);
      ObjectText(b, y);
      Uncons('{', MembersText(a, SortedKeys(a), 0) + ("}" + x), MembersText(b, SortedKeys(b), 0) + ("}" + y));
      MembersReadBack(a, b, SortedKeys(a), SortedKeys(b), 0, x, y);
      ObjectsSame(a, b);
    case _ => LeafReadsBack(a, b, x, y);
  }

  lemma {:induction false} Uncons(c: char, s: string, t: string)
    requires [c] + s == [c] + t
    ensures s == t
  {
    assert s == ([c] + s)[1..] && t == ([c] + t)[1..];
  }

  lemma {:induction false} ArrayText(v: Json, x: string)
    requires v.Array?
    ensures Text(v) + x == ['['] + (ItemsText(v, 0) + ("]" + x))
  {
    hide ItemsText;
  }

  lemma {:induction false} ObjectText(v: Json, x: string)
    requires v.Object?
    ensures Text(v) + x == ['{'] + (MembersText(v, SortedKeys(v), 0) + ("}" + x))
  {
    hide MembersText;
  }

  // ----- arrays

  function Separator(k: nat): string {
    if k == 0 then "" else ","
  }

  lemma {:induction false} ItemStep(v: Json, k: nat, z: string)
    requires v.Array? && Valid(v) && k < |v.items|
    ensures ItemsText(v, k) + z == Separator(k) + (Text(v.items[k]) + (ItemsText(v, k + 1) + z))
  {
    hide Text;
  }

  // What follows an item ends it.
  lemma {:induction false} ItemsEnd(v: Json, k: nat, x: string)
    requires v.Array? && Valid(v) && 0 < k <= |v.items|
    ensures Ends(ItemsText(v, k) + ("]" + x))
  {
    hide Text;
  }

  // The closing bracket is not an item.
  lemma {:induction false} ItemsStart(v: Json, k: nat, z: string)
    requires v.Array? && Valid(v) && k < |v.items|
    ensures ItemsText(v, k) + z != "" && (ItemsText(v, k) + z)[0] != ']'
  {
    hide Text;
    TextStarts(v.items[k]);
  }

  lemma {:induction false} ItemsReadBack(a: Json, b: Json, k: nat, x: string, y: string)
    requires a.Array? && b.Array? && Valid(a) && Valid(b) && k <= |a.items| && k <= |b.items|
    requires Ends(x) && Ends(y) && ItemsText(a, k) + ("]" + x) == ItemsText(b, k) + ("]" + y)
    ensures |a.items| == |b.items| && x == y && forall i :: k <= i < |a.items| ==> Same(a.items[i], b.items[i])
    decreases a, 0, |a.items| - k
  {
    hide Text, Same, Ends;
    if k < |a.items| { ItemsStart(a, k, "]" + x); }
    if k < |b.items| { ItemsStart(b, k, "]" + y); }
    if k == |a.items| || k == |b.items| {
      assert ("]" + x)[0] == ']' && ("]" + y)[0] == ']';
      assert k == |a.items| && k == |b.items|;
      assert ItemsText(a, k) + ("]" + x) == [']'] + x && ItemsText(b, k) + ("]" + y) == [']'] + y;
      Uncons(']', x, y);
    } else {
      NextItem(a, b, k, x, y);
      var u, v := ItemsText(a, k + 1) + ("]" + x), ItemsText(b, k + 1) + ("]" + y);
      ItemsEnd(a, k + 1, x);
      ItemsEnd(b, k + 1, y);
      ReadsBack(a.items[k], b.items[k], u, v);
      ItemsReadBack(a, b, k + 1, x, y);
    }
  }

  lemma {:induction false} NextItem(a: Json, b: Json, k: nat, x: string, y: string)
    requires a.Array? && b.Array? && Valid(a) && Valid(b) && k < |a.items| && k < |b.items|
    requires ItemsText(a, k) + ("]" + x) == ItemsText(b, k) + ("]" + y)
    ensures Text(a.items[k]) + (ItemsText(a, k + 1) + ("]" + x)) == Text(b.items[k]) + (ItemsText(b, k + 1) + ("]" + y))
  {
    hide Text, ItemsText;
    ItemStep(a, k, "]" + x);
    ItemStep(b, k, "]" + y);
    var u, v := Text(a.items[k]) + (ItemsText(a, k + 1) + ("]" + x)),
        Text(b.items[k]) + (ItemsText(b, k + 1) + ("]" + y));
    if k == 0 {
      assert "" + u == u && "" + v == v;
    } else {
      Uncons(',', u, v);
    }
  }

  lemma {:induction false} ArraysSame(a: Json, b: Json)
    requires a.Array? && b.Array? && |a.items| == |b.items| && forall i :: 0 <= i < |a.items| ==>
          Same(a.items[i], b.items[i])
    ensures Same(a, b)
  {
  }

  // ----- objects

  function At(v: Json, key: string): Json
    requires v.Object? && key in Keys(v.members)
  {
    v.members[Position(v.members, key)].value
  }

  lemma KeyAt(v: Json, keys: seq<string>, k: nat)
    requires v.Object? && AreKeys(v, keys) && k < |keys|
    ensures keys[k] in Keys(v.members)
  {
  }

  lemma {:induction false} MemberStep(v: Json, keys: seq<string>, k: nat, z: string)
    requires v.Object? && AreKeys(v, keys) && k < |keys|
    ensures MembersText(v, keys, k) + z ==
              Separator(k)
                  + (['"'] + (Escape(keys[k]) + "\""
                  + ([':'] + (Text(At(v, keys[k])) + (MembersText(v, keys, k + 1) + z)))))
  {
    hide Text, Escape, Position;
    Regroup(Separator(k), Escape(keys[k]), Text(At(v, keys[k])), MembersText(v, keys, k + 1), z);
  }

  lemma {:induction false} Regroup(a: string, key: string, value: string, more: string, z: string)
    ensures a + "\"" + key + "\":" + value + more + z
         == a + (['"'] + (key + "\"" + ([':'] + (value + (more + z)))))
  {
    assert "\":" == "\"" + ":";
  }

  lemma {:induction false} MembersEnd(v: Json, keys: seq<string>, k: nat, x: string)
    requires v.Object? && AreKeys(v, keys) && 0 < k <= |keys|
    ensures Ends(MembersText(v, keys, k) + ("}" + x))
  {
    hide Text, Escape, Position;
  }

  lemma {:induction false} MembersStart(v: Json, keys: seq<string>, k: nat, z: string)
    requires v.Object? && AreKeys(v, keys) && k < |keys|
    ensures MembersText(v, keys, k) + z != "" && (MembersText(v, keys, k) + z)[0] != '}'
  {
    hide Text, Escape, Position;
  }

  ghost predicate AlikeAt(a: Json, b: Json, key: string)
    requires a.Object? && b.Object?
  {
    key in Keys(a.members) && key in Keys(b.members) && Same(At(a, key), At(b, key))
  }

  lemma AlikeThere(a: Json, b: Json, key: string)
    requires a.Object? && b.Object? && key in Keys(a.members) && key in Keys(b.members) && Same(At(a, key), At(b, key))
    ensures AlikeAt(a, b, key)
  {
  }

  lemma AtSmaller(v: Json, key: string)
    requires v.Object? && key in Keys(v.members)
    ensures v decreases to At(v, key)
    ensures Valid(v) ==> Valid(At(v, key))
  {
  }

  lemma NoMembers(v: Json, keys: seq<string>, x: string)
    requires v.Object? && AreKeys(v, keys)
    ensures MembersText(v, keys, |keys|) + ("}" + x) == ['}'] + x
  {
  }

  lemma {:induction false} MembersReadBack(a: Json, b: Json, s: seq<string>, t: seq<string>, k: nat, x: string,
        y: string)
    requires a.Object? && b.Object? && Valid(a) && Valid(b) && AreKeys(a, s) && AreKeys(b, t) && k <= |s| && k <= |t|
    requires Ends(x) && Ends(y) && MembersText(a, s, k) + ("}" + x) == MembersText(b, t, k) + ("}" + y)
    ensures |s| == |t| && x == y && forall i :: k <= i < |s| ==> s[i] == t[i] && AlikeAt(a, b, s[i])
    decreases a, 0, |s| - k
  {
    hide Text, Same, Ends, Escape, AreKeys, MembersText, At, AlikeAt;
    if k < |s| { MembersStart(a, s, k, "}" + x); } else { NoMembers(a, s, x); }
    if k < |t| { MembersStart(b, t, k, "}" + y); } else { NoMembers(b, t, y); }
    if k == |s| || k == |t| {
      assert k == |s| && k == |t|;
      Uncons('}', x, y);
    } else {
      KeyAt(a, s, k);
      KeyAt(b, t, k);
      NextMember(a, b, s, t, k, x, y);
      var u, v := MembersText(a, s, k + 1) + ("}" + x), MembersText(b, t, k + 1) + ("}" + y);
      MembersEnd(a, s, k + 1, x);
      MembersEnd(b, t, k + 1, y);
      AtSmaller(a, s[k]);
      AtSmaller(b, t[k]);
      ReadsBack(At(a, s[k]), At(b, t[k]), u, v);
      AlikeThere(a, b, s[k]);
      MembersReadBack(a, b, s, t, k + 1, x, y);
    }
  }

  lemma {:induction false} NextMember(a: Json, b: Json, s: seq<string>, t: seq<string>, k: nat, x: string, y: string)
    requires a.Object? && b.Object? && AreKeys(a, s) && AreKeys(b, t) && k < |s| && k < |t|
    ensures s[k] in Keys(a.members) && t[k] in Keys(b.members)
    ensures MembersText(a, s, k) + ("}" + x) == MembersText(b, t, k) + ("}" + y) ==>
              && s[k] == t[k]
              && Text(At(a, s[k])) + (MembersText(a, s, k + 1) + ("}" + x))
                  == Text(At(b, t[k])) + (MembersText(b, t, k + 1) + ("}" + y))
  {
    hide Text, Escape, Position, MembersText, AreKeys, At;
    KeyAt(a, s, k);
    KeyAt(b, t, k);
    if MembersText(a, s, k) + ("}" + x) == MembersText(b, t, k) + ("}" + y) {
      MemberStep(a, s, k, "}" + x);
      MemberStep(b, t, k, "}" + y);
      var u, v := Text(At(a, s[k])) + (MembersText(a, s, k + 1) + ("}" + x)),
          Text(At(b, t[k])) + (MembersText(b, t, k + 1) + ("}" + y));
      var p, q := ['"'] + (Escape(s[k]) + "\"" + ([':'] + u)), ['"'] + (Escape(t[k]) + "\"" + ([':'] + v));
      if k == 0 {
        assert "" + p == p && "" + q == q;
      } else {
        Uncons(',', p, q);
      }
      Uncons('"', Escape(s[k]) + "\"" + ([':'] + u), Escape(t[k]) + "\"" + ([':'] + v));
      QuotedReadsBack(s[k], t[k], [':'] + u, [':'] + v);
      Uncons(':', u, v);
    }
  }

  lemma {:induction false} AtMember(v: Json, i: nat)
    requires v.Object? && Valid(v) && i < |v.members|
    ensures v.members[i].key in Keys(v.members) && At(v, v.members[i].key) == v.members[i].value
  {
    var key := v.members[i].key;
    assert Keys(v.members)[i] == key;
    var p := Position(v.members, key);
    assert Keys(v.members)[p] == key;
  }

  lemma {:induction false} ObjectsSame(a: Json, b: Json)
    requires a.Object? && b.Object? && Valid(a) && Valid(b) && SortedKeys(a) == SortedKeys(b)
    requires forall i :: 0 <= i < |SortedKeys(a)| ==> AlikeAt(a, b, SortedKeys(a)[i])
    ensures Same(a, b)
  {
    hide Valid, At, SortedKeys;
    forall i, j | 0 <= i < |a.members| && 0 <= j < |b.members| && a.members[i].key == b.members[j].key
      ensures Same(a.members[i].value, b.members[j].value)
    {
      AtMember(a, i);
      AtMember(b, j);
      assert a.members[i].key in SortedKeys(a);
    }
  }

  lemma {:induction false} SameKind(a: Json, b: Json, c: char)
    requires StartsLike(a, c) && StartsLike(b, c)
    ensures (a.Array? <==> b.Array?) && (a.Object? <==> b.Object?) && (a.String? <==> b.String?)
    ensures (a.Numeric? <==> b.Numeric?) && (a.Null? <==> b.Null?) && (a.Bool? <==> b.Bool?)
    ensures a.Bool? ==> a.value == b.value
  {
  }

  lemma {:induction false} LeafReadsBack(a: Json, b: Json, x: string, y: string)
    requires Valid(a) && Valid(b) && Ends(x) && Ends(y) && Text(a) + x == Text(b) + y
    requires (a.String? && b.String?) || (a.Numeric? && b.Numeric?) || (a.Null? && b.Null?)
          || (a.Bool? && b.Bool? && a.value == b.value)
    ensures Same(a, b) && x == y
  {
    hide Ends, NumberText, Escape;
    if a.Numeric? {
      NumberChars(a.number);
      NumberChars(b.number);
      NumberStops(Text(a), Text(b), x, y);
      NumberReadsBack(a.number, b.number);
    } else if a.String? {
      var s, t := Escape(a.text) + "\"" + x, Escape(b.text) + "\"" + y;
      assert Text(a) + x == "\"" + s && Text(b) + y == "\"" + t;
      assert s == ("\"" + s)[1..] && t == ("\"" + t)[1..];
      QuotedReadsBack(a.text, b.text, x, y);
    } else {
      assert x == (Text(a) + x)[|Text(a)|..] && y == (Text(b) + y)[|Text(b)|..];
    }
  }

  // Canonical texts agree exactly on values equal up to the order of object members.
  lemma {:induction false} CanonicalExactly(a: Json, b: Json)
    requires Valid(a) && Valid(b)
    ensures Text(a) == Text(b) <==> Same(a, b)
  {
    hide Text, Same, Valid;
    if Text(a) == Text(b) {
      ReadsBack(a, b, "", "");
    }
    if Same(a, b) {
      SameHasSameText(a, b);
    }
  }

  // A value has a canonical text unless a number in it is not finite.
  lemma {:induction false} ValidIsPrinted(v: Json)
    requires Valid(v)
    ensures CanonicalText(v) == Some(Text(v))
  {
    hide Text;
    ValidIsFinite(v);
  }

  lemma {:induction false} ValidIsFinite(v: Json)
    requires Valid(v)
    ensures AllFinite(v)
  {
    match v
    case Array(items) =>
      forall i | 0 <= i < |items| ensures AllFinite(items[i]) {
        ValidIsFinite(items[i]);
      }
    case Object(members) =>
      forall i | 0 <= i < |members| ensures AllFinite(members[i].value) {
        ValidIsFinite(members[i].value);
      }
    case _ =>
  }

  // A number that is not finite leaves every value it is in without one.
  lemma {:induction false} NonFiniteIsRefused(v: Json, i: nat)
    ensures v == Numeric(NonFinite) ==> CanonicalText(v) == None
    ensures v.Array? && i < |v.items| && CanonicalText(v.items[i]) == None ==> CanonicalText(v) == None
    ensures v.Object? && i < |v.members| && CanonicalText(v.members[i].value) == None ==> CanonicalText(v) == None
  {
    hide Text;
  }
}
