/** Where the numbers of SHA-256 come from, and what its bytes stand for: sections 3.1, 4.2.2 and 5.3.3
    of FIPS 180-4. The tables and conversions are those of Source/BenchmarkHarness.cpp:64-125. */
module SecureConstants {
  import opened Bytes
  import opened SecureHash

  // ----- bytes and the numbers they write

  // The number that bytes write, the most significant first.
  function Number(bytes: seq<Byte>): nat {
    if bytes == [] then 0 else Number(bytes[..|bytes| - 1]) * 256 + bytes[|bytes| - 1]
  }

  function Power256(k: nat): (p: nat)
    ensures p > 0
  {
    if k == 0 then 1 else Power256(k - 1) * 256
  }

  lemma {:induction false} BigEndianWrites(n: nat, k: nat)
    requires n < Power256(k)
    ensures Number(BigEndian(n, k)) == n
  {
    if k > 0 {
      BigEndianWrites(n / 256, k - 1);
      var s := BigEndian(n, k);
      assert s[..|s| - 1] == BigEndian(n / 256, k - 1);
    }
  }

  lemma {:induction false} Number4(b0: Byte, b1: Byte, b2: Byte, b3: Byte)
    ensures Number([b0, b1, b2, b3]) == ((b0 * 256 + b1) * 256 + b2) * 256 + b3
  {
    var s := [b0, b1, b2, b3];
    assert s[..3] == [b0, b1, b2] && s[..3][..2] == [b0, b1] && s[..2][..1] == [b0] && s[..1][..0] == [];
    assert Number([b0]) == b0;
    assert Number([b0, b1]) == b0 * 256 + b1;
    assert Number([b0, b1, b2]) == (b0 * 256 + b1) * 256 + b2;
  }

  // A word is read from the four bytes that write it.
  lemma {:induction false} WordIsNumber(b0: Byte, b1: Byte, b2: Byte, b3: Byte)
    ensures BigEndianWord(b0, b1, b2, b3) == Number([b0, b1, b2, b3])
  {
    Number4(b0, b1, b2, b3);
  }

  lemma {:induction false} FourBytes(w: Word)
    ensures w == ((w / 0x100_0000 * 256 + w / 0x1_0000 % 256) * 256 + w / 0x100 % 256) * 256 + w % 256
    ensures w / 0x100_0000 < 256
  {
    assert w / 0x1_0000 == w / 0x100 / 256 && w / 0x100_0000 == w / 0x1_0000 / 256;
  }

  // A word is written as four bytes, and reading them gives it back.
  lemma {:induction false} WordBytesWrite(w: Word)
    ensures |WordBytes(w)| == 4 && Number(WordBytes(w)) == w
    ensures BigEndianWord(WordBytes(w)[0], WordBytes(w)[1], WordBytes(w)[2], WordBytes(w)[3]) == w
  {
    FourBytes(w);
    var s := WordBytes(w);
    assert s == [s[0], s[1], s[2], s[3]];
    Number4(s[0], s[1], s[2], s[3]);
  }

  // The digest is the eight words of the state one after the other.
  lemma {:induction false} DigestWrites(m: seq<Byte>)
    ensures var d, s := Sha256(m), PaddedHash(m);
            && |d| == 32
            && Number(d[..4]) == s.a && Number(d[4..8]) == s.b && Number(d[8..12]) == s.c && Number(d[12..16]) == s.d
            && Number(d[16..20]) == s.e && Number(d[20..24]) == s.f && Number(d[24..28]) == s.g
            && Number(d[28..]) == s.h
  {
    hide PaddedHash, WordBytes, Number;
    var s := PaddedHash(m);
    var words := [s.a, s.b, s.c, s.d, s.e, s.f, s.g, s.h];
    forall i: nat | i < 8 ensures Number(WordsBytes(words)[4 * i..4 * i + 4]) == words[i] {
      WordInBytes(words, i);
      WordBytesWrite(words[i]);
    }
    var d := Sha256(m);
    assert d[0..4] == d[..4] && d[28..32] == d[28..];
    assert Number(d[4 * 0..4 * 0 + 4]) == words[0] && Number(d[4 * 1..4 * 1 + 4]) == words[1];
    assert Number(d[4 * 2..4 * 2 + 4]) == words[2] && Number(d[4 * 3..4 * 3 + 4]) == words[3];
    assert Number(d[4 * 4..4 * 4 + 4]) == words[4] && Number(d[4 * 5..4 * 5 + 4]) == words[5];
    assert Number(d[4 * 6..4 * 6 + 4]) == words[6] && Number(d[4 * 7..4 * 7 + 4]) == words[7];
  }

  lemma {:induction false} WordInBytes(words: seq<Word>, i: nat)
    requires i < |words|
    ensures WordsBytes(words)[4 * i..4 * i + 4] == WordBytes(words[i])
  {
    hide WordBytes;
    var n := |words| - 1;
    FourLong(words[n]);
    var all, front := WordsBytes(words), WordsBytes(words[..n]);
    assert all == front + WordBytes(words[n]);
    if i < n {
      WordInBytes(words[..n], i);
      assert all[4 * i..4 * i + 4] == front[4 * i..4 * i + 4];
    } else {
      assert all[4 * i..] == WordBytes(words[n]);
    }
  }

  lemma FourLong(w: Word)
    ensures |WordBytes(w)| == 4
  {
  }

  // ----- the constants

  // The first 64 primes, sixteen at a time.
  function P0(): (p: seq<nat>)
    ensures |p| == 16
  {
    [2, 3, 5, 7, 11, 13, 17, 19, 23, 29, 31, 37, 41, 43, 47, 53]
  }

  function P1(): (p: seq<nat>)
    ensures |p| == 16
  {
    [59, 61, 67, 71, 73, 79, 83, 89, 97, 101, 103, 107, 109, 113, 127, 131]
  }

  function P2(): (p: seq<nat>)
    ensures |p| == 16
  {
    [137, 139, 149, 151, 157, 163, 167, 173, 179, 181, 191, 193, 197, 199, 211, 223]
  }

  function P3(): (p: seq<nat>)
    ensures |p| == 16
  {
    [227, 229, 233, 239, 241, 251, 257, 263, 269, 271, 277, 281, 283, 293, 307, 311]
  }

  function Primes(): (p: seq<nat>)
    ensures |p| == 64
  {
    P0() + P1() + P2() + P3()
  }

  // `bits` are the first 32 bits of the fractional part of the cube root of p.
  ghost predicate CubeRootBits(p: nat, bits: Word) {
    exists whole: nat :: IsCubeRoot(p, whole * 0x1_0000_0000 + bits)
  }

  // The cube root of p in units of 2^-32, rounded down.
  predicate IsCubeRoot(p: nat, n: nat) {
    n * n * n <= p * 0x1_0000_0000_0000_0000_0000_0000 < (n + 1) * (n + 1) * (n + 1)
  }

  ghost predicate SquareRootBits(p: nat, bits: Word) {
    exists whole: nat :: IsSquareRoot(p, whole * 0x1_0000_0000 + bits)
  }

  predicate IsSquareRoot(p: nat, n: nat) {
    n * n <= p * 0x1_0000_0000_0000_0000 < (n + 1) * (n + 1)
  }

  lemma Root(p: nat, whole: nat, bits: Word)
    requires IsCubeRoot(p, whole * 0x1_0000_0000 + bits)
    ensures CubeRootBits(p, bits)
  {
  }

  lemma Root2(p: nat, whole: nat, bits: Word)
    requires IsSquareRoot(p, whole * 0x1_0000_0000 + bits)
    ensures SquareRootBits(p, bits)
  {
  }

  lemma {:induction false} Roots0()
    ensures forall t :: 0 <= t < 16 ==> CubeRootBits(P0()[t], K0()[t])
  {
    hide CubeRootBits;
    var p, k := P0(), K0();
    Root(p[0], 1, k[0]);
    Root(p[1], 1, k[1]);
    Root(p[2], 1, k[2]);
    Root(p[3], 1, k[3]);
    Root(p[4], 2, k[4]);
    Root(p[5], 2, k[5]);
    Root(p[6], 2, k[6]);
    Root(p[7], 2, k[7]);
    Root(p[8], 2, k[8]);
    Root(p[9], 3, k[9]);
    Root(p[10], 3, k[10]);
    Root(p[11], 3, k[11]);
    Root(p[12], 3, k[12]);
    Root(p[13], 3, k[13]);
    Root(p[14], 3, k[14]);
    Root(p[15], 3, k[15]);
  }

  lemma {:induction false} Roots1()
    ensures forall t :: 0 <= t < 16 ==> CubeRootBits(P1()[t], K1()[t])
  {
    hide CubeRootBits;
    var p, k := P1(), K1();
    Root(p[0], 3, k[0]);
    Root(p[1], 3, k[1]);
    Root(p[2], 4, k[2]);
    Root(p[3], 4, k[3]);
    Root(p[4], 4, k[4]);
    Root(p[5], 4, k[5]);
    Root(p[6], 4, k[6]);
    Root(p[7], 4, k[7]);
    Root(p[8], 4, k[8]);
    Root(p[9], 4, k[9]);
    Root(p[10], 4, k[10]);
    Root(p[11], 4, k[11]);
    Root(p[12], 4, k[12]);
    Root(p[13], 4, k[13]);
    Root(p[14], 5, k[14]);
    Root(p[15], 5, k[15]);
  }

  lemma {:induction false} Roots2()
    ensures forall t :: 0 <= t < 16 ==> CubeRootBits(P2()[t], K2()[t])
  {
    hide CubeRootBits;
    var p, k := P2(), K2();
    Root(p[0], 5, k[0]);
    Root(p[1], 5, k[1]);
    Root(p[2], 5, k[2]);
    Root(p[3], 5, k[3]);
    Root(p[4], 5, k[4]);
    Root(p[5], 5, k[5]);
    Root(p[6], 5, k[6]);
    Root(p[7], 5, k[7]);
    Root(p[8], 5, k[8]);
    Root(p[9], 5, k[9]);
    Root(p[10], 5, k[10]);
    Root(p[11], 5, k[11]);
    Root(p[12], 5, k[12]);
    Root(p[13], 5, k[13]);
    Root(p[14], 5, k[14]);
    Root(p[15], 6, k[15]);
  }

  lemma {:induction false} Roots3()
    ensures forall t :: 0 <= t < 16 ==> CubeRootBits(P3()[t], K3()[t])
  {
    hide CubeRootBits;
    var p, k := P3(), K3();
    Root(p[0], 6, k[0]);
    Root(p[1], 6, k[1]);
    Root(p[2], 6, k[2]);
    Root(p[3], 6, k[3]);
    Root(p[4], 6, k[4]);
    Root(p[5], 6, k[5]);
    Root(p[6], 6, k[6]);
    Root(p[7], 6, k[7]);
    Root(p[8], 6, k[8]);
    Root(p[9], 6, k[9]);
    Root(p[10], 6, k[10]);
    Root(p[11], 6, k[11]);
    Root(p[12], 6, k[12]);
    Root(p[13], 6, k[13]);
    Root(p[14], 6, k[14]);
    Root(p[15], 6, k[15]);
  }

  lemma {:induction false} RoundConstants(t: nat)
    requires t < 64
    ensures CubeRootBits(Primes()[t], K()[t])
  {
    hide CubeRootBits, P0, P1, P2, P3, K0, K1, K2, K3;
    Roots0();
    Roots1();
    Roots2();
    Roots3();
    var q := t % 16;
    assert t < 16 ==> Primes()[t] == P0()[q] && K()[t] == K0()[q];
    assert 16 <= t < 32 ==> Primes()[t] == P1()[q] && K()[t] == K1()[q];
    assert 32 <= t < 48 ==> Primes()[t] == P2()[q] && K()[t] == K2()[q];
    assert 48 <= t ==> Primes()[t] == P3()[q] && K()[t] == K3()[q];
  }

  lemma {:induction false} InitialState()
    ensures var s, p := Initial(), Primes();
            && SquareRootBits(p[0], s.a) && SquareRootBits(p[1], s.b) && SquareRootBits(p[2], s.c)
            && SquareRootBits(p[3], s.d) && SquareRootBits(p[4], s.e) && SquareRootBits(p[5], s.f)
            && SquareRootBits(p[6], s.g) && SquareRootBits(p[7], s.h)
  {
    hide SquareRootBits, P1, P2, P3;
    var s, p := Initial(), P0();
    Root2(p[0], 1, s.a);
    Root2(p[1], 1, s.b);
    Root2(p[2], 2, s.c);
    Root2(p[3], 2, s.d);
    Root2(p[4], 3, s.e);
    Root2(p[5], 3, s.f);
    Root2(p[6], 4, s.g);
    Root2(p[7], 4, s.h);
  }

  // ----- the padding

  // A bit one, zeros, and the length in bits as 64 bits (section 5.1.1).
  lemma {:induction false} PaddingIs(n: nat)
    ensures var p := Padding(n);
            && |p| >= 9 && p[0] == 128 && (forall i :: 1 <= i < |p| - 8 ==> p[i] == 0)
            && Number(p[|p| - 8..]) == 8 * n % 18446744073709551616
            && (n + |p|) % 64 == 0 && |p| < 9 + 64
  {
    hide ZeroCount, LengthField, Number;
    var z := ZeroCount(n);
    ZeroCountBelow(n);
    PaddedLength(n);
    var p := Padding(n);
    assert p[|p| - 8..] == LengthField(n);
    LengthWrites(n);
  }

  lemma ZeroCountBelow(n: nat)
    ensures ZeroCount(n) < 64
  {
  }

  lemma {:induction false} LengthWrites(n: nat)
    ensures Number(LengthField(n)) == 8 * n % 18446744073709551616
  {
    assert Power256(8) == 18446744073709551616;
    BigEndianWrites(8 * n % 18446744073709551616, 8);
  }
}
