/** Header values that may be wrapped base64 (DecodeHeaderValue, Source/McpServer.cpp:667-718; section 4
    of RFC 4648). Bytes are numbers below 256, text is characters. */
module HeaderValues {
  import opened Bytes
  import opened Options

  const SENTINEL: string := "=?base64?"
  const CLOSING: string := "?="

  // ----- the alphabet

  // The value of a character, or None outside the alphabet.
  function Sextet(c: char): (v: Option<nat>)
    ensures v.Some? ==> v.value < 64
  {
    if 'A' <= c <= 'Z' then Some(c as nat - 'A' as nat)
    else if 'a' <= c <= 'z' then Some(c as nat - 'a' as nat + 26)
    else if '0' <= c <= '9' then Some(c as nat - '0' as nat + 52)
    else if c == '+' then Some(62)
    else if c == '/' then Some(63)
    else None
  }

  function Letter(v: nat): (c: char)
    requires v < 64
    ensures Sextet(c) == Some(v) && c != '='
  {
    if v < 26 then ('A' as int + v) as char
    else if v < 52 then ('a' as int + v - 26) as char
    else if v < 62 then ('0' as int + v - 52) as char
    else if v == 62 then '+'
    else '/'
  }

  // ----- decoding

  // The one to three bytes of a group of four characters; padding only where it may stand.
  function DecodeGroup(p: string): Option<seq<Byte>>
    requires |p| == 4
  {
    if Sextet(p[0]).None? || Sextet(p[1]).None? then None
    else
      var high := Sextet(p[0]).value * 262144 + Sextet(p[1]).value * 4096;
      if p[2] == '=' then
        if p[3] == '=' then Some([high / 65536 % 256]) else None
      else if Sextet(p[2]).None? then None
      else
        var bits := high + Sextet(p[2]).value * 64;
        if p[3] == '=' then Some([bits / 65536 % 256, bits / 256 % 256])
        else if Sextet(p[3]).None? then None
        else
          var all := bits + Sextet(p[3]).value;
          Some([all / 65536 % 256, all / 256 % 256, all % 256])
  }

  predicate Padded(p: string)
    requires |p| == 4
  {
    p[2] == '=' || p[3] == '='
  }

  // Continues a payload of which some bytes are decoded; padding ends it.
  function DecodeFrom(p: string, done: seq<Byte>): Option<seq<Byte>>
    requires |p| % 4 == 0
  {
    if p == "" then Some(done)
    else
      match DecodeGroup(p[..4])
      case None => None
      case Some(bytes) => if Padded(p[..4]) && |p| > 4 then None else DecodeFrom(p[4..], done + bytes)
  }

  datatype Value = Literal(text: string) | Decoded(bytes: seq<Byte>) | Invalid

  predicate IsWrapped(text: string) {
    SENTINEL <= text && |text| >= 12 && text[|text| - 2..] == CLOSING
  }

  function Payload(text: string): string
    requires IsWrapped(text)
  {
    text[9..|text| - 2]
  }

  function Decode(text: string): Value {
    if !IsWrapped(text) then Literal(text)
    else
      var p := Payload(text);
      if p == "" || |p| % 4 != 0 then Invalid
      else
        match DecodeFrom(p, [])
        case None => Invalid
        case Some(bytes) => Decoded(bytes)
  }

  method DecodePayload(p: string) returns (r: Option<seq<Byte>>)
    requires |p| % 4 == 0
    ensures r == DecodeFrom(p, [])
  {
    hide DecodeGroup, Padded;
    var decoded: seq<Byte> := [];
    var i := 0;
    while i < |p|
      invariant 0 <= i <= |p| && i % 4 == 0
      invariant DecodeFrom(p, []) == DecodeFrom(p[i..], decoded)
    {
      var group := p[i..i + 4];
      assert p[i..][..4] == group && p[i..][4..] == p[i + 4..];
      var bytes := DecodeGroup(group);
      if bytes.None? {
        return None;
      }
      if Padded(group) && i + 4 != |p| {
        return None;
      }
      decoded := decoded + bytes.value;
      i := i + 4;
    }
    r := Some(decoded);
  }

  // ----- encoding, as section 4 of RFC 4648 says

  function Encode(b: seq<Byte>): (p: string)
    ensures |p| % 4 == 0 && |p| >= |b|
  {
    if b == [] then ""
    else if |b| == 1 then [Letter(b[0] / 4), Letter(b[0] % 4 * 16), '=', '=']
    else if |b| == 2 then [Letter(b[0] / 4), Letter(b[0] % 4 * 16 + b[1] / 16), Letter(b[1] % 16 * 4), '=']
    else
      [Letter(b[0] / 4), Letter(b[0] % 4 * 16 + b[1] / 16), Letter(b[1] % 16 * 4 + b[2] / 64), Letter(b[2] % 64)]
      + Encode(b[3..])
  }

  // Six bits, two and four, four and two, six: the same number.
  lemma {:induction false} SameBits(b0: Byte, b1: Byte, b2: Byte)
    ensures b0 / 4 * 262144 + (b0 % 4 * 16 + b1 / 16) * 4096 + (b1 % 16 * 4 + b2 / 64) * 64 + b2 % 64
          == b0 * 65536 + b1 * 256 + b2
  {
    assert b0 == 4 * (b0 / 4) + b0 % 4 && b1 == 16 * (b1 / 16) + b1 % 16 && b2 == 64 * (b2 / 64) + b2 % 64;
  }

  lemma {:induction false} SplitBits(b0: Byte, b1: Byte, b2: Byte)
    ensures var all := b0 * 65536 + b1 * 256 + b2;
            all / 65536 % 256 == b0 && all / 256 % 256 == b1 && all % 256 == b2
  {
  }

  lemma {:induction false} ThreeBytes(b0: Byte, b1: Byte, b2: Byte)
    ensures DecodeGroup([Letter(b0 / 4), Letter(b0 % 4 * 16 + b1 / 16), Letter(b1 % 16 * 4 + b2 / 64), Letter(b2 % 64)])
            == Some([b0, b1, b2])
  {
    hide Letter, Sextet;
    SameBits(b0, b1, b2);
    SplitBits(b0, b1, b2);
    GroupOfFour(b0 / 4, b0 % 4 * 16 + b1 / 16, b1 % 16 * 4 + b2 / 64, b2 % 64);
  }

  lemma {:induction false} GroupOfFour(v0: nat, v1: nat, v2: nat, v3: nat)
    requires v0 < 64 && v1 < 64 && v2 < 64 && v3 < 64
    ensures var all := v0 * 262144 + v1 * 4096 + v2 * 64 + v3;
            && DecodeGroup([Letter(v0), Letter(v1), Letter(v2), Letter(v3)])
                == Some([all / 65536 % 256, all / 256 % 256, all % 256])
            && DecodeGroup([Letter(v0), Letter(v1), Letter(v2), '='])
                == Some([(all - v3) / 65536 % 256, (all - v3) / 256 % 256])
  {
    hide Letter, Sextet;
  }

  lemma {:induction false} TwoBytes(b0: Byte, b1: Byte)
    ensures DecodeGroup([Letter(b0 / 4), Letter(b0 % 4 * 16 + b1 / 16), Letter(b1 % 16 * 4), '=']) == Some([b0, b1])
  {
    hide Letter, Sextet;
    SameBits(b0, b1, 0);
    SplitBits(b0, b1, 0);
    GroupOfFour(b0 / 4, b0 % 4 * 16 + b1 / 16, b1 % 16 * 4, 0);
  }

  lemma {:induction false} OneByte(b0: Byte)
    ensures DecodeGroup([Letter(b0 / 4), Letter(b0 % 4 * 16), '=', '=']) == Some([b0])
  {
    hide Letter, Sextet;
  }

  lemma {:induction false} EncodedDecodes(b: seq<Byte>, done: seq<Byte>)
    ensures DecodeFrom(Encode(b), done) == Some(done + b)
    decreases |b|
  {
    hide DecodeGroup, Encode, Padded;
    if b == [] {
      assert done + b == done;
      EncodeNothing(done);
      assert done[|done|..] == b;
    } else {
      FirstGroup(b);
      var n := if |b| < 3 then |b| else 3;
      if n < 3 {
        assert b[..n] == b && b[n..] == [];
      }
      EncodeNothing(done);
      assert done[|done|..] == [];
      EncodedDecodes(b[n..], done + b[..n]);
      assert done + b[..n] + b[n..] == done + b;
    }
  }

  // The first group stands for the first bytes, the others for the rest; only the last is padded.
  lemma {:induction false} FirstGroup(b: seq<Byte>)
    requires b != []
    ensures var p, n := Encode(b), if |b| < 3 then |b| else 3;
            && |p| >= 4 && p[4..] == Encode(b[n..]) && DecodeGroup(p[..4]) == Some(b[..n])
            && (Padded(p[..4]) ==> |p| == 4)
  {
    hide DecodeGroup, Letter;
    var p := Encode(b);
    if |b| == 1 {
      OneByte(b[0]);
      assert p[..4] == p && b[..1] == [b[0]] && b[1..] == [] && p[4..] == Encode([]);
    } else if |b| == 2 {
      TwoBytes(b[0], b[1]);
      assert p[..4] == p && b[..2] == [b[0], b[1]] && b[2..] == [] && p[4..] == Encode([]);
    } else {
      ThreeBytes(b[0], b[1], b[2]);
      assert p[..4] == [Letter(b[0] / 4), Letter(b[0] % 4 * 16 + b[1] / 16), Letter(b[1] % 16 * 4 + b[2] / 64),
          Letter(b[2] % 64)];
      assert b[..3] == [b[0], b[1], b[2]];
    }
  }

  // A wrapped encoding decodes to its bytes. The empty value cannot be wrapped: its wrapping is one
  // character short of what is recognised, and is taken for plain text.
  lemma {:induction false} WrappedDecodes(b: seq<Byte>)
    ensures Decode(SENTINEL + Encode(b) + CLOSING) ==
              if b == [] then Literal(SENTINEL + CLOSING) else Decoded(b)
  {
    hide DecodeFrom;
    var p := Encode(b);
    var text := SENTINEL + p + CLOSING;
    if b == [] {
      assert text == SENTINEL + CLOSING;
    } else {
      assert text[|text| - 2..] == CLOSING && text[9..|text| - 2] == p;
      EncodedDecodes(b, []);
      assert [] + b == b;
    }
  }

  // ----- what else is accepted

  // The bits of the last letter that a padded payload does not use.
  function Spare(p: string): nat {
    var n := |p|;
    if n < 4 || p[n - 1] != '=' then 0
    else if p[n - 2] == '=' then if Sextet(p[n - 3]).Some? then Sextet(p[n - 3]).value % 16 else 0
    else if Sextet(p[n - 2]).Some? then Sextet(p[n - 2]).value % 4
    else 0
  }

  // The payload with these bits set to zero.
  function Cleared(p: string): (c: string)
    ensures |c| == |p|
  {
    var n := |p|;
    if Spare(p) == 0 then p
    else if p[n - 2] == '=' then p[n - 3 := Letter(Sextet(p[n - 3]).value - Spare(p))]
    else p[n - 2 := Letter(Sextet(p[n - 2]).value - Spare(p))]
  }

  lemma {:induction false} LetterOfSextet(c: char)
    requires Sextet(c).Some?
    ensures Letter(Sextet(c).value) == c
  {
  }

  lemma {:induction false} ClearedExactly(p: string)
    ensures Cleared(p) == p <==> Spare(p) == 0
  {
    var n := |p|;
    if Spare(p) != 0 {
      assert Cleared(p)[n - 3] != p[n - 3] || Cleared(p)[n - 2] != p[n - 2];
    }
  }

  // The bytes of four letters are cut out of the letters' bits, and the letters are cut out of them.
  lemma {:induction false} BytesOfLetters(v0: nat, v1: nat, v2: nat, v3: nat) returns (b0: Byte, b1: Byte, b2: Byte)
    requires v0 < 64 && v1 < 64 && v2 < 64 && v3 < 64
    ensures var all := v0 * 262144 + v1 * 4096 + v2 * 64 + v3;
            b0 == all / 65536 % 256 && b1 == all / 256 % 256 && b2 == all % 256
    ensures b0 / 4 == v0 && b0 % 4 * 16 == v1 - v1 % 16 && b0 % 4 * 16 + b1 / 16 == v1
    ensures b1 % 16 * 4 == v2 - v2 % 4 && b1 % 16 * 4 + b2 / 64 == v2 && b2 % 64 == v3
  {
    b0, b1, b2 := 4 * v0 + v1 / 16, v1 % 16 * 16 + v2 / 4, v2 % 4 * 64 + v3;
    SplitBits(b0, b1, b2);
    assert v1 == 16 * (v1 / 16) + v1 % 16 && v2 == 4 * (v2 / 4) + v2 % 4;
  }

  // One accepted group is the encoding of its bytes but for the spare bits.
  lemma {:induction false} OneByteGroup(g: string)
    requires |g| == 4 && Sextet(g[0]).Some? && Sextet(g[1]).Some? && g[2] == '=' && g[3] == '='
    ensures DecodeGroup(g).Some? && |DecodeGroup(g).value| == 1 && Encode(DecodeGroup(g).value) == Cleared(g)
  {
    hide Letter, Sextet;
    var v0, v1 := Sextet(g[0]).value, Sextet(g[1]).value;
    LetterOfSextet(g[0]);
    LetterOfSextet(g[1]);
    var b0, b1, b2 := BytesOfLetters(v0, v1, 0, 0);
    assert DecodeGroup(g) == Some([b0]);
    assert Encode([b0]) == [g[0], Letter(v1 - v1 % 16), '=', '='];
    assert g == [g[0], g[1], '=', '='];
    assert Spare(g) == v1 % 16;
  }

  lemma {:induction false} TwoByteGroup(g: string)
    requires |g| == 4 && Sextet(g[0]).Some? && Sextet(g[1]).Some? && Sextet(g[2]).Some?
    requires g[2] != '=' && g[3] == '='
    ensures DecodeGroup(g).Some? && |DecodeGroup(g).value| == 2 && Encode(DecodeGroup(g).value) == Cleared(g)
  {
    hide Letter, Sextet;
    var v0, v1, v2 := Sextet(g[0]).value, Sextet(g[1]).value, Sextet(g[2]).value;
    LetterOfSextet(g[0]);
    LetterOfSextet(g[1]);
    LetterOfSextet(g[2]);
    var b0, b1, b2 := BytesOfLetters(v0, v1, v2, 0);
    assert DecodeGroup(g) == Some([b0, b1]);
    assert Encode([b0, b1]) == [g[0], g[1], Letter(v2 - v2 % 4), '='];
    assert g == [g[0], g[1], g[2], '='];
    assert Spare(g) == v2 % 4;
  }

  lemma {:induction false} ThreeByteGroup(g: string)
    requires |g| == 4 && DecodeGroup(g).Some? && g[2] != '=' && g[3] != '='
    ensures |DecodeGroup(g).value| == 3 && Encode(DecodeGroup(g).value) == g
  {
    hide Letter, Sextet;
    var v0, v1, v2, v3 := Sextet(g[0]).value, Sextet(g[1]).value, Sextet(g[2]).value, Sextet(g[3]).value;
    LetterOfSextet(g[0]);
    LetterOfSextet(g[1]);
    LetterOfSextet(g[2]);
    LetterOfSextet(g[3]);
    var b0, b1, b2 := BytesOfLetters(v0, v1, v2, v3);
    assert DecodeGroup(g) == Some([b0, b1, b2]);
    assert Encode([b0, b1, b2]) == [g[0], g[1], g[2], g[3]] + Encode([]);
  }

  lemma {:induction false} GroupIsEncoding(g: string)
    requires |g| == 4 && DecodeGroup(g).Some?
    ensures var bytes := DecodeGroup(g).value;
            Encode(bytes) == Cleared(g) && 1 <= |bytes| <= 3 && (|bytes| == 3 <==> !Padded(g))
  {
    hide Letter, Sextet, Encode;
    if g[2] == '=' {
      OneByteGroup(g);
    } else if g[3] == '=' {
      TwoByteGroup(g);
    } else {
      ThreeByteGroup(g);
    }
  }

  lemma {:induction false} EncodeThree(first: seq<Byte>, more: seq<Byte>)
    requires |first| == 3
    ensures Encode(first + more) == Encode(first) + Encode(more)
  {
    hide Letter;
    assert (first + more)[3..] == more && first[3..] == [];
  }

  // What stands before the last group does not matter to the spare bits.
  lemma {:induction false} ClearedLater(group: string, later: string)
    requires |group| == 4 && |later| >= 4
    ensures Cleared(group + later) == group + Cleared(later) && Spare(group + later) == Spare(later)
  {
    hide Letter, Sextet;
  }

  // A payload that is accepted is the encoding of its bytes but for the spare bits.
  lemma {:induction false} AcceptedIsEncoding(p: string, done: seq<Byte>)
    requires |p| % 4 == 0 && DecodeFrom(p, done).Some?
    ensures var r := DecodeFrom(p, done).value;
            done <= r && Encode(r[|done|..]) == Cleared(p)
    decreases |p|
  {
    hide DecodeGroup, Padded, Encode, Cleared;
    if p == "" {
      EncodeNothing(done);
    } else {
      var bytes := DecodeGroup(p[..4]).value;
      var r := DecodeFrom(p, done).value;
      GroupIsEncoding(p[..4]);
      AcceptedIsEncoding(p[4..], done + bytes);
      assert r[|done|..] == bytes + r[|done + bytes|..];
      if |p| == 4 {
        assert p[..4] == p && p[4..] == "" && r[|done + bytes|..] == [];
        assert bytes + [] == bytes;
      } else {
        UnpaddedIsItself(p[..4]);
        EncodeThree(bytes, r[|done + bytes|..]);
        ClearedLater(p[..4], p[4..]);
        assert p[..4] + p[4..] == p;
      }
    }
  }

  lemma {:induction false} EncodeNothing(done: seq<Byte>)
    ensures Encode(done[|done|..]) == "" == Cleared("")
  {
  }

  lemma {:induction false} UnpaddedIsItself(g: string)
    requires |g| == 4 && !Padded(g)
    ensures Cleared(g) == g
  {
  }

  // So RFC 4648 would write an accepted payload exactly when its spare bits are zero.
  lemma {:induction false} StrictExactly(p: string)
    requires |p| % 4 == 0 && DecodeFrom(p, []).Some?
    ensures Encode(DecodeFrom(p, []).value) == p <==> Spare(p) == 0
  {
    hide DecodeFrom, Encode, Cleared, Spare;
    AcceptedIsEncoding(p, []);
    var b := DecodeFrom(p, []).value;
    assert b[0..] == b;
    ClearedExactly(p);
  }

  lemma Quotients(q: nat, r: nat)
    ensures r < 256 ==> (256 * q + r) / 256 == q
    ensures r < 65536 ==> (65536 * q + r) / 65536 == q
  {
  }

  lemma {:induction false} LowBits(v: nat, w: nat)
    requires v < 64 && w < 64
    ensures (v * 262144 + w * 4096) / 65536 == (v * 262144 + (w - w % 16) * 4096) / 65536
  {
    Quotients(4 * v + w / 16, w % 16 * 4096);
    Quotients(4 * v + w / 16, 0);
  }

  lemma {:induction false} MiddleBits(high: nat, v: nat)
    requires v < 64
    ensures (high * 4096 + v * 64) / 256 == (high * 4096 + (v - v % 4) * 64) / 256
  {
    Quotients(16 * high + v / 4, v % 4 * 64);
    Quotients(16 * high + v / 4, 0);
  }

  lemma {:induction false} HighBits(high: nat, v: nat)
    requires v < 64
    ensures (high * 4096 + v * 64) / 65536 == (high * 4096 + (v - v % 4) * 64) / 65536
  {
    Quotients(high / 16, high % 16 * 4096 + v * 64);
    Quotients(high / 16, high % 16 * 4096 + (v - v % 4) * 64);
  }

  lemma {:induction false} ClearedGroup(g: string)
    requires |g| == 4
    ensures DecodeGroup(Cleared(g)) == DecodeGroup(g) && Padded(Cleared(g)) == Padded(g)
  {
    hide Letter, Sextet;
    if Spare(g) != 0 && Sextet(g[0]).Some? && Sextet(g[1]).Some? {
      var v0, v1 := Sextet(g[0]).value, Sextet(g[1]).value;
      if g[2] == '=' {
        LowBits(v0, v1);
        assert Cleared(g) == [g[0], Letter(v1 - v1 % 16), '=', '='];
      } else {
        var v2 := Sextet(g[2]).value;
        MiddleBits(v0 * 64 + v1, v2);
        HighBits(v0 * 64 + v1, v2);
        assert Cleared(g) == [g[0], g[1], Letter(v2 - v2 % 4), '='];
      }
    }
  }

  // The spare bits change nothing of what is decoded or rejected.
  lemma {:induction false} SpareBitsAreIgnored(p: string, done: seq<Byte>)
    requires |p| % 4 == 0
    ensures DecodeFrom(Cleared(p), done) == DecodeFrom(p, done)
    decreases |p|
  {
    hide DecodeGroup, Padded, Cleared;
    if p != "" {
      var group, later := p[..4], p[4..];
      assert p == group + later;
      if later == "" {
        assert p == group && Cleared(p)[..4] == Cleared(p) && Cleared(p)[4..] == later;
        ClearedGroup(group);
      } else {
        ClearedLater(group, later);
        assert Cleared(p)[..4] == group && Cleared(p)[4..] == Cleared(later);
        var bytes := DecodeGroup(group);
        if bytes.Some? {
          SpareBitsAreIgnored(later, done + bytes.value);
        }
      }
    }
  }

  // What is accepted is exactly the encodings but for the spare bits.
  lemma {:induction false} AcceptedExactly(p: string, b: seq<Byte>)
    requires |p| % 4 == 0
    ensures DecodeFrom(p, []) == Some(b) <==> Encode(b) == Cleared(p)
  {
    hide DecodeFrom, Encode, Cleared;
    if DecodeFrom(p, []) == Some(b) {
      AcceptedIsEncoding(p, []);
      assert b[0..] == b;
    }
    SpareBitsAreIgnored(p, []);
    EncodedDecodes(b, []);
    assert [] + b == b;
  }

  // Two accepted payloads have the same bytes exactly when they differ at most in the spare bits.
  lemma {:induction false} AlikeExactly(p: string, q: string)
    requires |p| % 4 == 0 && |q| % 4 == 0
    ensures Cleared(p) == Cleared(q) ==> DecodeFrom(p, []) == DecodeFrom(q, [])
    ensures DecodeFrom(p, []).Some? && DecodeFrom(p, []) == DecodeFrom(q, []) ==> Cleared(p) == Cleared(q)
  {
    hide DecodeFrom, Encode, Cleared;
    SpareBitsAreIgnored(p, []);
    SpareBitsAreIgnored(q, []);
    if DecodeFrom(p, []).Some? && DecodeFrom(p, []) == DecodeFrom(q, []) {
      AcceptedIsEncoding(p, []);
      AcceptedIsEncoding(q, []);
    }
  }

  // For example the letters of the byte 65, with four bits to spare.
  lemma {:induction false} SpareExample()
    ensures DecodeGroup("QQ==") == DecodeGroup("QR==") == Some([65]) && Spare("QR==") == 1
  {
  }

  // ----- the alphabet and the markers as they stand in the standard and the protocol

  const UPPER: string := "ABCDEFGHIJKLMNOPQRSTUVWXYZ"
  const LOWER: string := "abcdefghijklmnopqrstuvwxyz"
  const OTHER: string := "0123456789+/"

  lemma {:induction false} LettersAre(v: nat)
    requires v < 64
    ensures |UPPER| == |LOWER| == 26 && |OTHER| == 12
    ensures Letter(v) == if v < 26 then UPPER[v] else if v < 52 then LOWER[v - 26] else OTHER[v - 52]
  {
  }

  // What stands between the markers is read as its bytes, which are there exactly when it is an encoding
  // but for the spare bits.
  lemma {:induction false} WrappingIs(payload: string, b: seq<Byte>)
    requires payload != ""
    ensures var value := Decode("=?base64?" + payload + "?=");
            && !value.Literal?
            && (value == Decoded(b) <==> |payload| % 4 == 0 && Encode(b) == Cleared(payload))
  {
    hide Encode, DecodeFrom, Cleared;
    var text := "=?base64?" + payload + "?=";
    assert text[|text| - 2..] == "?=" && text[9..|text| - 2] == payload && text[..9] == "=?base64?";
    if |payload| % 4 == 0 {
      AcceptedExactly(payload, b);
    }
  }

  // Any other text is read as itself.
  lemma {:induction false} OthersArePlain(text: string)
    requires forall payload: string :: payload != "" ==> text != "=?base64?" + payload + "?="
    ensures Decode(text) == Literal(text)
  {
    if IsWrapped(text) {
      var payload := text[9..|text| - 2];
      assert text == "=?base64?" + payload + "?=";
    }
  }

  lemma {:induction false} FourLetters(b: seq<Byte>)
    requires |b| == 3
    ensures Encode(b)
      == [Letter(b[0] / 4), Letter(b[0] % 4 * 16 + b[1] / 16), Letter(b[1] % 16 * 4 + b[2] / 64), Letter(b[2] % 64)]
  {
    hide Letter;
    assert b[3..] == [];
    assert Encode(b[3..]) == "";
  }

  // The test vector "foo" of section 10 of RFC 4648.
  lemma {:induction false} TestVector()
    ensures Encode([102, 111, 111]) == "Zm9v"
  {
    hide Encode;
    FourLetters([102, 111, 111]);
  }
}
