/** The functions of SHA-256 bit by bit (sections 3.2 and 4.1.2 of FIPS 180-4), and the first round of
    the worked example for the message "abc". */
module SecureBits {
  import opened SecureHash

  // Bit i of a word, counted from the least significant.
  predicate Bit(b: bv32, i: bv32)
    requires i < 32
  {
    (b >> i) & 1 == 1
  }

  // n places further up, around the end.
  function Later(i: bv32, n: bv32): (j: bv32)
    ensures j < 32
  {
    (i + n) & 31
  }

  lemma BitsOfValue(b: bv32)
    ensures Bits(Value(b)) == b
  {
  }

  predicate Odd3(p: bool, q: bool, r: bool) {
    (p != q) != r
  }

  // The bits of the three operations on words.
  lemma {:induction false} PlainXorBit(a: bv32, b: bv32, i: bv32)
    requires i < 32
    ensures Bit(a ^ b, i) == (Bit(a, i) != Bit(b, i))
  {
  }

  lemma XorBit(a: bv32, b: bv32, i: bv32)
    requires i < 32
    ensures Bit(Xor(a, b), i) == (Bit(a, i) != Bit(b, i))
  {
    hide Bit;
    PlainXorBit(a, b, i);
  }

  lemma {:induction false} PlainAndBit(a: bv32, b: bv32, i: bv32)
    requires i < 32
    ensures Bit(a & b, i) == (Bit(a, i) && Bit(b, i))
  {
  }

  lemma AndBit(a: bv32, b: bv32, i: bv32)
    requires i < 32
    ensures Bit(And(a, b), i) == (Bit(a, i) && Bit(b, i))
  {
    hide Bit;
    PlainAndBit(a, b, i);
  }

  lemma {:induction false} PlainNotBit(a: bv32, i: bv32)
    requires i < 32
    ensures Bit(!a, i) == !Bit(a, i)
  {
  }

  lemma NotBit(a: bv32, i: bv32)
    requires i < 32
    ensures Bit(Not(a), i) == !Bit(a, i)
  {
    hide Bit;
    PlainNotBit(a, i);
  }

  lemma {:induction false} Xor3Bit(a: bv32, b: bv32, c: bv32, i: bv32)
    requires i < 32
    ensures Bit(Xor3(a, b, c), i) == Odd3(Bit(a, i), Bit(b, i), Bit(c, i))
  {
    hide Bit, Xor, And, Not;
    XorBit(a, b, i);
    XorBit(Xor(a, b), c, i);
  }

  // A rotation by n to the right brings bit i + n to place i.
  lemma {:induction false} TurnedBy2(b: bv32, i: bv32)
    requires i < 32
    ensures Bit(Turned(b, 2), i) == Bit(b, Later(i, 2))
  {
  }

  lemma {:induction false} TurnedBy6(b: bv32, i: bv32)
    requires i < 32
    ensures Bit(Turned(b, 6), i) == Bit(b, Later(i, 6))
  {
  }

  lemma {:induction false} TurnedBy7(b: bv32, i: bv32)
    requires i < 32
    ensures Bit(Turned(b, 7), i) == Bit(b, Later(i, 7))
  {
  }

  lemma {:induction false} TurnedBy11(b: bv32, i: bv32)
    requires i < 32
    ensures Bit(Turned(b, 11), i) == Bit(b, Later(i, 11))
  {
  }

  lemma {:induction false} TurnedBy13(b: bv32, i: bv32)
    requires i < 32
    ensures Bit(Turned(b, 13), i) == Bit(b, Later(i, 13))
  {
  }

  lemma {:induction false} TurnedBy17(b: bv32, i: bv32)
    requires i < 32
    ensures Bit(Turned(b, 17), i) == Bit(b, Later(i, 17))
  {
  }

  lemma {:induction false} TurnedBy18(b: bv32, i: bv32)
    requires i < 32
    ensures Bit(Turned(b, 18), i) == Bit(b, Later(i, 18))
  {
  }

  lemma {:induction false} TurnedBy19(b: bv32, i: bv32)
    requires i < 32
    ensures Bit(Turned(b, 19), i) == Bit(b, Later(i, 19))
  {
  }

  lemma {:induction false} TurnedBy22(b: bv32, i: bv32)
    requires i < 32
    ensures Bit(Turned(b, 22), i) == Bit(b, Later(i, 22))
  {
  }

  lemma {:induction false} TurnedBy25(b: bv32, i: bv32)
    requires i < 32
    ensures Bit(Turned(b, 25), i) == Bit(b, Later(i, 25))
  {
  }

  // A shift by n leaves no bit in the n highest places.
  lemma {:induction false} ShiftedBit(b: bv32, i: bv32)
    requires i < 32
    ensures Bit(Shifted(b, 3), i) == (i < 29 && Bit(b, Later(i, 3)))
    ensures Bit(Shifted(b, 10), i) == (i < 22 && Bit(b, Later(i, 10)))
  {
  }

  // Each sigma is the exclusive or of three rotations, or of two and a shift.
  lemma {:induction false} BigSigmaBits(x: Word, i: bv32)
    requires i < 32
    ensures Bit(Bits(BigSigma0(x)), i)
         == Odd3(Bit(Bits(x), Later(i, 2)), Bit(Bits(x), Later(i, 13)), Bit(Bits(x), Later(i, 22)))
    ensures Bit(Bits(BigSigma1(x)), i)
         == Odd3(Bit(Bits(x), Later(i, 6)), Bit(Bits(x), Later(i, 11)), Bit(Bits(x), Later(i, 25)))
  {
    hide Bits, Value, Bit, Later, Odd3, Xor3, Turned, Shifted;
    var b := Bits(x);
    BitsOfValue(Xor3(Turned(b, 2), Turned(b, 13), Turned(b, 22)));
    BitsOfValue(Xor3(Turned(b, 6), Turned(b, 11), Turned(b, 25)));
    Xor3Bit(Turned(b, 2), Turned(b, 13), Turned(b, 22), i);
    Xor3Bit(Turned(b, 6), Turned(b, 11), Turned(b, 25), i);
    TurnedBy2(b, i);
    TurnedBy13(b, i);
    TurnedBy22(b, i);
    TurnedBy6(b, i);
    TurnedBy11(b, i);
    TurnedBy25(b, i);
  }

  lemma {:induction false} SmallSigmaBits(x: Word, i: bv32)
    requires i < 32
    ensures Bit(Bits(SmallSigma0(x)), i)
         == Odd3(Bit(Bits(x), Later(i, 7)), Bit(Bits(x), Later(i, 18)), i < 29 && Bit(Bits(x), Later(i, 3)))
    ensures Bit(Bits(SmallSigma1(x)), i)
         == Odd3(Bit(Bits(x), Later(i, 17)), Bit(Bits(x), Later(i, 19)), i < 22 && Bit(Bits(x), Later(i, 10)))
  {
    hide Bits, Value, Bit, Later, Odd3, Xor3, Turned, Shifted;
    var b := Bits(x);
    BitsOfValue(Xor3(Turned(b, 7), Turned(b, 18), Shifted(b, 3)));
    BitsOfValue(Xor3(Turned(b, 17), Turned(b, 19), Shifted(b, 10)));
    Xor3Bit(Turned(b, 7), Turned(b, 18), Shifted(b, 3), i);
    Xor3Bit(Turned(b, 17), Turned(b, 19), Shifted(b, 10), i);
    TurnedBy7(b, i);
    TurnedBy18(b, i);
    TurnedBy17(b, i);
    TurnedBy19(b, i);
    ShiftedBit(b, i);
  }

  lemma {:induction false} ChooseBit(x: bv32, y: bv32, z: bv32, i: bv32)
    requires i < 32
    ensures Bit(Choose(x, y, z), i) == if Bit(x, i) then Bit(y, i) else Bit(z, i)
  {
    hide Bit, Xor, And, Not;
    AndBit(x, y, i);
    NotBit(x, i);
    AndBit(Not(x), z, i);
    XorBit(And(x, y), And(Not(x), z), i);
  }

  lemma {:induction false} MostBit(x: bv32, y: bv32, z: bv32, i: bv32)
    requires i < 32
    ensures Bit(Most(x, y, z), i) == if Bit(x, i) == Bit(y, i) then Bit(x, i) else Bit(z, i)
  {
    hide Bit, Xor, And, Not;
    AndBit(x, y, i);
    AndBit(x, z, i);
    AndBit(y, z, i);
    XorBit(And(x, y), And(x, z), i);
    XorBit(Xor(And(x, y), And(x, z)), And(y, z), i);
  }

  // The first word chooses between the other two; and the majority of three.
  lemma {:induction false} ChoiceBits(x: Word, y: Word, z: Word, i: bv32)
    requires i < 32
    ensures Bit(Bits(Ch(x, y, z)), i) == if Bit(Bits(x), i) then Bit(Bits(y), i) else Bit(Bits(z), i)
    ensures Bit(Bits(Maj(x, y, z)), i)
         == if Bit(Bits(x), i) == Bit(Bits(y), i) then Bit(Bits(x), i) else Bit(Bits(z), i)
  {
    hide Bits, Value, Bit, Choose, Most;
    BitsOfValue(Choose(Bits(x), Bits(y), Bits(z)));
    BitsOfValue(Most(Bits(x), Bits(y), Bits(z)));
    ChooseBit(Bits(x), Bits(y), Bits(z), i);
    MostBit(Bits(x), Bits(y), Bits(z), i);
  }

  // ----- one worked round

  lemma {:induction false} ExampleSums()
    ensures BigSigma0(0x6a09e667) == 0xce20b47e && BigSigma1(0x510e527f) == 0x3587272b
  {
    var a: Word, e: Word := 0x6a09e667, 0x510e527f;
    assert Turned(Bits(a), 2) == 0xda827999 && Turned(Bits(a), 13) == 0x333b504f && Turned(Bits(a), 22) == 0x27999da8;
    assert Turned(Bits(e), 6) == 0xfd443949 && Turned(Bits(e), 11) == 0x4fea21ca && Turned(Bits(e), 25) == 0x87293fa8;
  }

  lemma {:induction false} ExampleChoices()
    ensures Ch(0x510e527f, 0x9b05688c, 0x1f83d9ab) == 0x1f85c98c
    ensures Maj(0x6a09e667, 0xbb67ae85, 0x3c6ef372) == 0x3a6fe667
  {
  }

  lemma ExampleAdditions()
    ensures Add(0x5be0cd19, 0x3587272b) == 0x9167f444 && Add(0x9167f444, 0x1f85c98c) == 0xb0edbdd0
    ensures Add(0xb0edbdd0, 0x428a2f98) == 0xf377ed68 && Add(0xf377ed68, 0x61626380) == 0x54da50e8
    ensures Add(0xce20b47e, 0x3a6fe667) == 0x08909ae5 && Add(0x54da50e8, 0x08909ae5) == 0x5d6aebcd
    ensures Add(0xa54ff53a, 0x54da50e8) == 0xfa2a4622
  {
  }

  // The message is "abc", padded: its first word and the state after its first round.
  lemma {:induction false} FirstRound()
    ensures Round(Initial(), 0x428a2f98, 0x61626380)
         == State(0x5d6aebcd, 0x6a09e667, 0xbb67ae85, 0x3c6ef372,
                  0xfa2a4622, 0x510e527f, 0x9b05688c, 0x1f83d9ab)
  {
    hide BigSigma0, BigSigma1, Ch, Maj, Add;
    ExampleSums();
    ExampleChoices();
    ExampleAdditions();
  }

  // One word of the schedule.
  lemma {:induction false} ScheduleExample()
    ensures NextWord(0x6a09e667, 0xbb67ae85, 0x3c6ef372, 0xa54ff53a) == 0xa2478420
  {
    hide SmallSigma0, SmallSigma1;
    ExampleSmallSums();
  }

  lemma {:induction false} ExampleSmallSums()
    ensures SmallSigma0(0xbb67ae85) == 0xf7bb5454 && SmallSigma1(0xa54ff53a) == 0x041355f3
  {
    var b: Word, d: Word := 0xbb67ae85, 0xa54ff53a;
    assert Turned(Bits(b), 7) == 0x0b76cf5d && Turned(Bits(b), 18) == 0xeba16ed9;
    assert Turned(Bits(d), 17) == 0xfa9d52a7 && Turned(Bits(d), 19) == 0xfea754a9;
  }
}
