/** The compression of one block as section 6.2.2 of FIPS 180-4 writes it: a schedule of 64 words, 64
    rounds on eight variables, and sums modulo 2^32 (Source/BenchmarkHarness.cpp:101-150). */
module SecureRounds {
  import opened Bytes
  import opened SecureHash
  import opened SecureConstants

  function Mod(n: nat): Word {
    n % 0x1_0000_0000
  }

  // The first sixteen words are those of the block, each other is made of four before it.
  predicate IsWord(w: seq<Word>, block: seq<Byte>, t: nat)
    requires |block| == BLOCK && t < |w| <= 64
  {
    w[t] == if t < 16 then Number(block[4 * t..4 * t + 4])
            else Mod(SmallSigma1(w[t - 2]) + w[t - 7] + SmallSigma0(w[t - 15]) + w[t - 16])
  }

  predicate IsSchedule(w: seq<Word>, block: seq<Byte>)
    requires |block| == BLOCK
  {
    |w| == 64 && forall t :: 0 <= t < 64 ==> IsWord(w, block, t)
  }

  predicate IsRound(v: State, u: State, k: Word, w: Word) {
    var t1 := v.h + BigSigma1(v.e) + Ch(v.e, v.f, v.g) + k + w;
    var t2 := BigSigma0(v.a) + Maj(v.a, v.b, v.c);
    u == State(Mod(t1 + t2), v.a, v.b, v.c, Mod(v.d + t1), v.e, v.f, v.g)
  }

  lemma AddIsMod(x: Word, y: Word)
    ensures Add(x, y) == Mod(x + y)
  {
  }

  lemma Folds(n: nat, y: nat)
    ensures Mod(Mod(n) + y) == Mod(n + y) && Mod(y + Mod(n)) == Mod(y + n)
  {
  }

  lemma {:induction false} FourAdded(a: Word, b: Word, c: Word, d: Word)
    ensures Add(Add(Add(a, b), c), d) == Mod(a + b + c + d)
  {
    hide Add, Mod;
    AddIsMod(a, b);
    AddIsMod(Mod(a + b), c);
    Folds(a + b, c);
    AddIsMod(Mod(a + b + c), d);
    Folds(a + b + c, d);
  }

  lemma {:induction false} ScheduleIs(block: seq<Byte>) returns (w: seq<Word>)
    requires |block| == BLOCK
    ensures |w| == 64 && IsSchedule(w, block) && forall t :: 0 <= t < 64 ==> w[t] == W(block, t)
  {
    hide W, IsWord;
    w := seq(64, t requires 0 <= t < 64 => W(block, t));
    forall t | 0 <= t < 64 ensures IsWord(w, block, t) {
      WordIs(w, block, t);
    }
  }

  lemma WordIs(w: seq<Word>, block: seq<Byte>, t: nat)
    requires |block| == BLOCK && |w| == 64 && t < 64 && forall k :: 0 <= k < 64 ==> w[k] == W(block, k)
    ensures IsWord(w, block, t)
  {
    hide W, Number, Mod, SmallSigma0, SmallSigma1;
    if t < 16 {
      FirstWord(block, t);
    } else {
      LaterWord(block, t);
      assert w[t - 2] == W(block, t - 2) && w[t - 7] == W(block, t - 7);
      assert w[t - 15] == W(block, t - 15) && w[t - 16] == W(block, t - 16);
    }
  }

  lemma FirstWord(block: seq<Byte>, t: nat)
    requires |block| == BLOCK && t < 16
    ensures W(block, t) == Number(block[4 * t..4 * t + 4])
  {
    hide Number, BigEndianWord;
    var b := block[4 * t..4 * t + 4];
    assert b == [block[4 * t], block[4 * t + 1], block[4 * t + 2], block[4 * t + 3]];
    WordIsNumber(b[0], b[1], b[2], b[3]);
  }

  lemma LaterWord(block: seq<Byte>, t: nat)
    requires |block| == BLOCK && t >= 16
    ensures W(block, t) ==
              Mod(SmallSigma1(W(block, t - 2)) + W(block, t - 7) + SmallSigma0(W(block, t - 15)) + W(block, t - 16))
  {
    hide Mod, Add, SmallSigma0, SmallSigma1;
    FourAdded(SmallSigma1(W(block, t - 2)), W(block, t - 7), SmallSigma0(W(block, t - 15)), W(block, t - 16));
  }

  lemma {:induction false} RoundIs(v: State, k: Word, w: Word)
    ensures IsRound(v, Round(v, k, w), k, w)
  {
    hide Mod, Add, BigSigma0, BigSigma1, Ch, Maj;
    var t1 := v.h + BigSigma1(v.e) + Ch(v.e, v.f, v.g) + k + w;
    var t2 := BigSigma0(v.a) + Maj(v.a, v.b, v.c);
    FourAdded(v.h, BigSigma1(v.e), Ch(v.e, v.f, v.g), k);
    AddIsMod(Mod(t1 - w), w);
    Folds(t1 - w, w);
    AddIsMod(BigSigma0(v.a), Maj(v.a, v.b, v.c));
    AddIsMod(Mod(t1), Mod(t2));
    Folds(t1, Mod(t2));
    Folds(t2, t1);
    AddIsMod(v.d, Mod(t1));
    Folds(t1, v.d);
  }

  lemma NextRounds(s: State, block: seq<Byte>, t: nat)
    requires |block| == BLOCK && t < 64
    ensures Rounds(s, block, 0) == s
    ensures Rounds(s, block, t + 1) == Round(Rounds(s, block, t), K()[t], W(block, t))
  {
    hide W, K0, K1, K2, K3, Round;
  }

  lemma Summed(s: State, block: seq<Byte>)
    requires |block| == BLOCK
    ensures var u := Rounds(s, block, 64);
            Compress(s, block) == State(Mod(s.a + u.a), Mod(s.b + u.b), Mod(s.c + u.c), Mod(s.d + u.d),
                Mod(s.e + u.e), Mod(s.f + u.f), Mod(s.g + u.g), Mod(s.h + u.h))
  {
    hide Rounds;
  }

  // The hash of one more block: from the state s through the 64 rounds of the block's schedule.
  lemma {:induction false} CompressionIs(s: State, block: seq<Byte>) returns (w: seq<Word>, v: seq<State>)
    requires |block| == BLOCK
    ensures IsSchedule(w, block)
    ensures |v| == 65 && v[0] == s && forall t :: 0 <= t < 64 ==> IsRound(v[t], v[t + 1], K()[t], w[t])
    ensures var u := v[64];
            Compress(s, block) == State(Mod(s.a + u.a), Mod(s.b + u.b), Mod(s.c + u.c), Mod(s.d + u.d),
                Mod(s.e + u.e), Mod(s.f + u.f), Mod(s.g + u.g), Mod(s.h + u.h))
  {
    hide Rounds, W, IsSchedule, IsRound, Round, Compress, Mod, K0, K1, K2, K3;
    w := ScheduleIs(block);
    v := seq(65, t requires 0 <= t < 65 => Rounds(s, block, t));
    forall t | 0 <= t < 64 ensures IsRound(v[t], v[t + 1], K()[t], w[t]) {
      NextRounds(s, block, t);
      RoundIs(v[t], K()[t], w[t]);
    }
    NextRounds(s, block, 0);
    Summed(s, block);
  }
}
