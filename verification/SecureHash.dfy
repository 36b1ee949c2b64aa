/** The secure hash SHA-256 as sections 4.1.2, 4.2.2, 5.1.1, 5.3.3 and 6.2 of FIPS 180-4 define it. */
module SecureHash {
  import opened Bytes

  type Word = n: nat | n < 0x1_0000_0000

  const BLOCK := 64

  // ----- functions on words

  // Addition modulo 2^32.
  function Add(x: Word, y: Word): Word {
    (x + y) % 0x1_0000_0000
  }

  // A word as the bits it stands for, and back.
  function Bits(x: Word): bv32 {
    x as bv32
  }

  function Value(b: bv32): Word {
    b as nat
  }

  // Rotation to the right as two shifts, and a shift alone.
  function Turned(b: bv32, n: bv32): bv32
    requires 0 < n < 32
  {
    (b >> n) | (b << (32 - n))
  }

  function Shifted(b: bv32, n: bv32): bv32
    requires n < 32
  {
    b >> n
  }

  function Xor(a: bv32, b: bv32): bv32 {
    a ^ b
  }

  function And(a: bv32, b: bv32): bv32 {
    a & b
  }

  function Not(a: bv32): bv32 {
    !a
  }

  function Xor3(a: bv32, b: bv32, c: bv32): bv32 {
    Xor(Xor(a, b), c)
  }

  function Choose(x: bv32, y: bv32, z: bv32): bv32 {
    Xor(And(x, y), And(Not(x), z))
  }

  function Most(x: bv32, y: bv32, z: bv32): bv32 {
    Xor(Xor(And(x, y), And(x, z)), And(y, z))
  }

  function Ch(x: Word, y: Word, z: Word): Word {
    Value(Choose(Bits(x), Bits(y), Bits(z)))
  }

  function Maj(x: Word, y: Word, z: Word): Word {
    Value(Most(Bits(x), Bits(y), Bits(z)))
  }

  function BigSigma0(x: Word): Word {
    Value(Xor3(Turned(Bits(x), 2), Turned(Bits(x), 13), Turned(Bits(x), 22)))
  }

  function BigSigma1(x: Word): Word {
    Value(Xor3(Turned(Bits(x), 6), Turned(Bits(x), 11), Turned(Bits(x), 25)))
  }

  function SmallSigma0(x: Word): Word {
    Value(Xor3(Turned(Bits(x), 7), Turned(Bits(x), 18), Shifted(Bits(x), 3)))
  }

  function SmallSigma1(x: Word): Word {
    Value(Xor3(Turned(Bits(x), 17), Turned(Bits(x), 19), Shifted(Bits(x), 10)))
  }

  // The round constants, sixteen at a time.
  function K0(): (k: seq<Word>)
    ensures |k| == 16
  {
    [0x428a2f98, 0x71374491, 0xb5c0fbcf, 0xe9b5dba5, 0x3956c25b, 0x59f111f1, 0x923f82a4, 0xab1c5ed5,
     0xd807aa98, 0x12835b01, 0x243185be, 0x550c7dc3, 0x72be5d74, 0x80deb1fe, 0x9bdc06a7, 0xc19bf174]
  }

  function K1(): (k: seq<Word>)
    ensures |k| == 16
  {
    [0xe49b69c1, 0xefbe4786, 0x0fc19dc6, 0x240ca1cc, 0x2de92c6f, 0x4a7484aa, 0x5cb0a9dc, 0x76f988da,
     0x983e5152, 0xa831c66d, 0xb00327c8, 0xbf597fc7, 0xc6e00bf3, 0xd5a79147, 0x06ca6351, 0x14292967]
  }

  function K2(): (k: seq<Word>)
    ensures |k| == 16
  {
    [0x27b70a85, 0x2e1b2138, 0x4d2c6dfc, 0x53380d13, 0x650a7354, 0x766a0abb, 0x81c2c92e, 0x92722c85,
     0xa2bfe8a1, 0xa81a664b, 0xc24b8b70, 0xc76c51a3, 0xd192e819, 0xd6990624, 0xf40e3585, 0x106aa070]
  }

  function K3(): (k: seq<Word>)
    ensures |k| == 16
  {
    [0x19a4c116, 0x1e376c08, 0x2748774c, 0x34b0bcb5, 0x391c0cb3, 0x4ed8aa4a, 0x5b9cca4f, 0x682e6ff3,
     0x748f82ee, 0x78a5636f, 0x84c87814, 0x8cc70208, 0x90befffa, 0xa4506ceb, 0xbef9a3f7, 0xc67178f2]
  }

  function K(): (k: seq<Word>)
    ensures |k| == 64
  {
    K0() + K1() + K2() + K3()
  }

  // ----- one block

  datatype State = State(a: Word, b: Word, c: Word, d: Word, e: Word, f: Word, g: Word, h: Word)

  function Initial(): State {
    State(0x6a09e667, 0xbb67ae85, 0x3c6ef372, 0xa54ff53a, 0x510e527f, 0x9b05688c, 0x1f83d9ab, 0x5be0cd19)
  }

  function BigEndianWord(b0: Byte, b1: Byte, b2: Byte, b3: Byte): Word {
    b0 * 0x100_0000 + b1 * 0x1_0000 + b2 * 0x100 + b3
  }

  function NextWord(w16: Word, w15: Word, w7: Word, w2: Word): Word {
    Add(Add(Add(SmallSigma1(w2), w7), SmallSigma0(w15)), w16)
  }

  // The message schedule.
  function W(block: seq<Byte>, t: nat): Word
    requires |block| == BLOCK
  {
    if t < 16 then BigEndianWord(block[4 * t], block[4 * t + 1], block[4 * t + 2], block[4 * t + 3])
    else NextWord(W(block, t - 16), W(block, t - 15), W(block, t - 7), W(block, t - 2))
  }

  function Round(s: State, k: Word, w: Word): State {
    var t1 := Add(Add(Add(Add(s.h, BigSigma1(s.e)), Ch(s.e, s.f, s.g)), k), w);
    var t2 := Add(BigSigma0(s.a), Maj(s.a, s.b, s.c));
    State(Add(t1, t2), s.a, s.b, s.c, Add(s.d, t1), s.e, s.f, s.g)
  }

  // The working variables after t rounds.
  function Rounds(s: State, block: seq<Byte>, t: nat): State
    requires |block| == BLOCK && t <= 64
  {
    if t == 0 then s else Round(Rounds(s, block, t - 1), K()[t - 1], W(block, t - 1))
  }

  function Plus(s: State, t: State): State {
    State(Add(s.a, t.a), Add(s.b, t.b), Add(s.c, t.c), Add(s.d, t.d), Add(s.e, t.e), Add(s.f, t.f), Add(s.g, t.g),
        Add(s.h, t.h))
  }

  function Compress(s: State, block: seq<Byte>): State
    requires |block| == BLOCK
  {
    Plus(s, Rounds(s, block, 64))
  }

  // ----- all blocks

  function HashBlocks(m: seq<Byte>): State
    requires |m| % BLOCK == 0
  {
    if m == [] then Initial() else Compress(HashBlocks(m[..|m| - BLOCK]), m[|m| - BLOCK..])
  }

  lemma {:induction false} HashOneMore(m: seq<Byte>, block: seq<Byte>)
    requires |m| % BLOCK == 0 && |block| == BLOCK
    ensures |m + block| % BLOCK == 0 && HashBlocks(m + block) == Compress(HashBlocks(m), block)
  {
    hide Compress, Initial;
    assert (m + block)[..|m + block| - BLOCK] == m && (m + block)[|m + block| - BLOCK..] == block;
  }

  // ----- padding

  // How many zero bytes bring n bytes and the marker to 56 modulo 64.
  function ZeroCount(n: nat): nat {
    (55 - n) % BLOCK
  }

  // It is the smallest such number.
  lemma {:induction false} FewestZeros(n: nat, k: nat)
    ensures (n + 1 + ZeroCount(n)) % BLOCK == 56
    ensures (n + 1 + k) % BLOCK == 56 ==> ZeroCount(n) <= k
  {
    if (n + 1 + k) % BLOCK == 56 {
      var q := (n + 1 + k) / BLOCK;
      assert k == 64 * q + 55 - n;
      assert (55 - n) % BLOCK == k % BLOCK;
    }
  }

  function ToByte(n: nat): Byte {
    n % 256
  }

  // k bytes, the most significant first.
  function BigEndian(n: nat, k: nat): (s: seq<Byte>)
    ensures |s| == k
  {
    if k == 0 then [] else BigEndian(n / 256, k - 1) + [ToByte(n)]
  }

  // n shifted right by i bytes.
  function ShiftRight(n: nat, i: nat): nat {
    if i == 0 then n else ShiftRight(n / 256, i - 1)
  }

  lemma {:induction false} BigEndianAt(n: nat, k: nat, i: nat)
    requires i < k
    ensures BigEndian(n, k)[k - 1 - i] == ToByte(ShiftRight(n, i))
  {
    hide ToByte;
    if i > 0 {
      BigEndianAt(n / 256, k - 1, i - 1);
    }
  }

  const WORD64 := 0x1_0000_0000_0000_0000

  // The length in bits, as a 64-bit word.
  function LengthField(n: nat): (s: seq<Byte>)
    ensures |s| == 8
  {
    BigEndian(8 * n % WORD64, 8)
  }

  function Padding(n: nat): seq<Byte> {
    [0x80] + Zeros(ZeroCount(n)) + LengthField(n)
  }

  lemma {:induction false} PaddedLength(n: nat)
    ensures (n + |Padding(n)|) % BLOCK == 0
  {
    hide ZeroCount, LengthField, Zeros;
    FewestZeros(n, 0);
    var k := n + 1 + ZeroCount(n);
    assert n + |Padding(n)| == k + 8;
    assert k == 64 * (k / 64) + 56;
  }

  // ----- the hash

  function WordBytes(w: Word): seq<Byte> {
    [ToByte(w / 0x100_0000), ToByte(w / 0x1_0000), ToByte(w / 0x100), ToByte(w)]
  }

  function WordsBytes(words: seq<Word>): (bytes: seq<Byte>)
    ensures |bytes| == 4 * |words|
  {
    if words == [] then [] else WordsBytes(words[..|words| - 1]) + WordBytes(words[|words| - 1])
  }

  function StateBytes(s: State): seq<Byte> {
    WordsBytes([s.a, s.b, s.c, s.d, s.e, s.f, s.g, s.h])
  }

  function PaddedHash(m: seq<Byte>): State {
    PaddedLength(|m|);
    HashBlocks(m + Padding(|m|))
  }

  function Sha256(m: seq<Byte>): seq<Byte> {
    StateBytes(PaddedHash(m))
  }
}
