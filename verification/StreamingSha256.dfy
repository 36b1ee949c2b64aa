/** The block-buffered hash of Source/BenchmarkHarness.cpp:39-150, and the loop that hashes a file
    through it (355-405). */
module StreamingSha256 {
  import opened Bytes
  import opened SecureHash

  lemma {:induction false} SumInAnyOrder(p: Word, q: Word, r: Word, s: Word)
    ensures Add(Add(Add(p, q), r), s) == Add(Add(Add(s, r), q), p)
  {
    hide Add;
    Commutes(Add(Add(p, q), r), s);
    Commutes(Add(p, q), r);
    Commutes(p, q);
    Associates(s, r, Add(p, q));
    Associates(Add(s, r), q, p);
  }

  lemma Commutes(x: Word, y: Word)
    ensures Add(x, y) == Add(y, x)
  {
  }

  lemma Associates(x: Word, y: Word, z: Word)
    ensures Add(x, Add(y, z)) == Add(Add(x, y), z)
  {
    hide Add;
    AddIs(y, z);
    AddIs(x, y);
    AddIs(x, Add(y, z));
    AddIs(Add(x, y), z);
  }

  lemma AddIs(x: Word, y: Word)
    ensures Add(x, y) == if x + y < 0x1_0000_0000 then x + y else x + y - 0x1_0000_0000
  {
  }

  // One step of the message schedule.
  method ScheduleStep(w16: Word, x: Word, w7: Word, y: Word) returns (w: Word)
    ensures w == NextWord(w16, x, w7, y)
  {
    hide Turned, Shifted, Xor3, Choose, Most, Bits, Value, Add;
    var sigma0 := Value(Xor3(Turned(Bits(x), 7), Turned(Bits(x), 18), Shifted(Bits(x), 3)));
    var sigma1 := Value(Xor3(Turned(Bits(y), 17), Turned(Bits(y), 19), Shifted(Bits(y), 10)));
    SumInAnyOrder(w16, sigma0, w7, sigma1);
    w := Add(Add(Add(w16, sigma0), w7), sigma1);
  }

  // One round on the working variables.
  method RoundStep(a: Word, b: Word, c: Word, d: Word, e: Word, f: Word, g: Word, h: Word, k: Word, w: Word)
      returns (a': Word, b': Word, c': Word, d': Word, e': Word, f': Word, g': Word, h': Word)
    ensures State(a', b', c', d', e', f', g', h') == Round(State(a, b, c, d, e, f, g, h), k, w)
  {
    hide Turned, Shifted, Xor3, Choose, Most, Bits, Value, Add;
    var sum1 := Value(Xor3(Turned(Bits(e), 6), Turned(Bits(e), 11), Turned(Bits(e), 25)));
    var choice := Value(Choose(Bits(e), Bits(f), Bits(g)));
    var temporary1 := Add(Add(Add(Add(h, sum1), choice), k), w);
    var sum0 := Value(Xor3(Turned(Bits(a), 2), Turned(Bits(a), 13), Turned(Bits(a), 22)));
    var majority := Value(Most(Bits(a), Bits(b), Bits(c)));
    var temporary2 := Add(sum0, majority);
    h', g', f', e' := g, f, e, Add(d, temporary1);
    d', c', b', a' := c, b, a, Add(temporary1, temporary2);
  }

  function AsState(s: seq<Word>): State
    requires |s| == 8
  {
    State(s[0], s[1], s[2], s[3], s[4], s[5], s[6], s[7])
  }

  method Schedule(block: array<Byte>) returns (schedule: array<Word>)
    requires block.Length == BLOCK
    ensures fresh(schedule) && schedule.Length == 64
    ensures forall t :: 0 <= t < 64 ==> schedule[t] == W(block[..], t)
  {
    hide W, BigEndianWord, NextWord;
    schedule := new Word[64];
    for t := 0 to 16
      invariant forall j :: 0 <= j < t ==> schedule[j] == W(block[..], j)
    {
      FirstWords(block[..], t);
      schedule[t] := BigEndianWord(block[4 * t], block[4 * t + 1], block[4 * t + 2], block[4 * t + 3]);
    }
    for t := 16 to 64
      invariant forall j :: 0 <= j < t ==> schedule[j] == W(block[..], j)
    {
      LaterWords(block[..], t);
      var w := ScheduleStep(schedule[t - 16], schedule[t - 15], schedule[t - 7], schedule[t - 2]);
      schedule[t] := w;
    }
  }

  lemma FirstWords(block: seq<Byte>, t: nat)
    requires |block| == BLOCK && t < 16
    ensures W(block, t) == BigEndianWord(block[4 * t], block[4 * t + 1], block[4 * t + 2], block[4 * t + 3])
  {
  }

  lemma LaterWords(block: seq<Byte>, t: nat)
    requires |block| == BLOCK && t >= 16
    ensures W(block, t) == NextWord(W(block, t - 16), W(block, t - 15), W(block, t - 7), W(block, t - 2))
  {
  }

  lemma NextRound(s: State, block: seq<Byte>, t: nat)
    requires |block| == BLOCK && t < 64
    ensures Rounds(s, block, 0) == s
    ensures Rounds(s, block, t + 1) == Round(Rounds(s, block, t), K()[t], W(block, t))
  {
    hide W, K0, K1, K2, K3, Round;
  }

  // A message's whole blocks, and what is left.
  function Whole(m: seq<Byte>): (w: seq<Byte>)
    ensures |w| % BLOCK == 0
  {
    assert |m| - |m| % BLOCK == BLOCK * (|m| / BLOCK);
    m[..|m| - |m| % BLOCK]
  }

  function Rest(m: seq<Byte>): (r: seq<Byte>)
    ensures |r| == |m| % BLOCK && Whole(m) + r == m
  {
    m[|m| - |m| % BLOCK..]
  }

  // What more bytes do to them.
  lemma {:induction false} MoreBytes(m: seq<Byte>, chunk: seq<Byte>)
    requires |Rest(m)| + |chunk| <= BLOCK
    ensures |Rest(m)| + |chunk| < BLOCK ==> Rest(m + chunk) == Rest(m) + chunk && Whole(m + chunk) == Whole(m)
    ensures |Rest(m)| + |chunk| == BLOCK ==>
              Rest(m + chunk) == [] && HashBlocks(Whole(m + chunk)) == Compress(HashBlocks(Whole(m)), Rest(m) + chunk)
  {
    hide Compress, Initial, HashBlocks;
    var n, q := m + chunk, |m| / BLOCK;
    assert |n| == BLOCK * q + (|Rest(m)| + |chunk|);
    if |Rest(m)| + |chunk| == BLOCK {
      assert |n| == BLOCK * (q + 1);
      assert Whole(n) == n;
      HashOneMore(Whole(m), Rest(m) + chunk);
      assert Whole(m) + (Rest(m) + chunk) == n;
    }
  }

  class Sha256 {
    const state: array<Word>
    const block: array<Byte>
    var totalBytes: nat
    var blockBytes: nat
    ghost var message: seq<Byte>

    // The whole blocks of m are in the state and the rest of it is in the buffer.
    ghost predicate Absorbed(m: seq<Byte>)
      reads `blockBytes, state, block
    {
      && state.Length == 8 && block.Length == BLOCK && blockBytes == |m| % BLOCK
      && block[..blockBytes] == Rest(m) && AsState(state[..]) == HashBlocks(Whole(m))
    }

    ghost predicate Valid()
      reads this, state, block
    {
      Absorbed(message) && totalBytes == |message| % WORD64
    }

    constructor ()
      ensures Valid() && message == [] && fresh(state) && fresh(block)
    {
      hide Initial, Compress;
      var initial := Initial();
      state := new Word[] [initial.a, initial.b, initial.c, initial.d, initial.e, initial.f, initial.g, initial.h];
      block := new Byte[BLOCK];
      totalBytes, blockBytes := 0, 0;
      message := [];
    }

    // Takes the buffered block into the state.
    method Transform()
      requires state.Length == 8 && block.Length == BLOCK
      modifies state
      ensures AsState(state[..]) == Compress(old(AsState(state[..])), block[..])
    {
      hide *;
      var schedule := Schedule(block);
      ghost var start := AsState(state[..]);
      StateFields(state[..]);
      var a, b, c, d := state[0], state[1], state[2], state[3];
      var e, f, g, h := state[4], state[5], state[6], state[7];
      NextRound(start, block[..], 0);
      for round := 0 to 64
        invariant State(a, b, c, d, e, f, g, h) == Rounds(start, block[..], round)
        invariant forall t :: 0 <= t < 64 ==> schedule[t] == W(block[..], t)
        invariant state[..] == old(state[..])
      {
        NextRound(start, block[..], round);
        a, b, c, d, e, f, g, h := RoundStep(a, b, c, d, e, f, g, h, K()[round], schedule[round]);
      }
      AddToState(a, b, c, d, e, f, g, h);
      Compressed(start, block[..]);
    }

    // Copies bytes that fit the buffer, and compresses it when it is full.
    method Absorb(chunk: seq<Byte>, ghost m: seq<Byte>)
      requires Absorbed(m) && 0 < |chunk| <= BLOCK - blockBytes
      modifies this, state, block
      ensures Absorbed(m + chunk) && message == old(message) && totalBytes == old(totalBytes)
    {
      hide HashBlocks, Compress, AsState, Whole, Rest;
      ghost var tail := block[..blockBytes];
      MoreBytes(m, chunk);
      forall i | 0 <= i < |chunk| {
        block[blockBytes + i] := chunk[i];
      }
      blockBytes := blockBytes + |chunk|;
      assert block[..blockBytes] == tail + chunk && state[..] == old(state[..]);
      if blockBytes == block.Length {
        assert block[..] == tail + chunk;
        Transform();
        blockBytes := 0;
      }
    }

    // Takes in more of the message.
    method Update(bytes: seq<Byte>)
      requires Valid()
      modifies this, state, block
      ensures Valid() && message == old(message) + bytes
    {
      hide HashBlocks, Absorbed;
      totalBytes := (totalBytes + |bytes|) % WORD64;
      var done := 0;
      assert message + bytes[..0] == message;
      while done < |bytes|
        invariant done <= |bytes| && Absorbed(message + bytes[..done])
        invariant message == old(message) && totalBytes == (old(totalBytes) + |bytes|) % WORD64
      {
        Room(message + bytes[..done]);
        var amount := if |bytes| - done < BLOCK - blockBytes then |bytes| - done else BLOCK - blockBytes;
        Absorb(bytes[done..done + amount], message + bytes[..done]);
        assert message + bytes[..done] + bytes[done..done + amount] == message + bytes[..done + amount];
        done := done + amount;
      }
      assert bytes[..done] == bytes;
      message := message + bytes;
    }

    lemma Room(m: seq<Byte>)
      requires Absorbed(m)
      ensures 0 <= blockBytes < BLOCK && block.Length == BLOCK
    {
    }

    // Zeros from one index up to another.
    method Clear(from: nat, to: nat)
      requires from <= to <= block.Length
      modifies block
      ensures block[..] == old(block[..from]) + Zeros(to - from) + old(block[to..])
    {
      forall i | from <= i < to {
        block[i] := 0;
      }
    }

    // The last eight bytes become the length of the message in bits.
    method WriteLength(bitCount: nat)
      requires block.Length == BLOCK
      modifies block
      ensures block[..] == old(block[..56]) + BigEndian(bitCount, 8)
    {
      hide BigEndian, ToByte, ShiftRight;
      ghost var field := BigEndian(bitCount, 8);
      for byte := 0 to 8
        invariant forall j :: 0 <= j < 56 ==> block[j] == old(block[j])
        invariant forall j :: 64 - byte <= j < 64 ==> block[j] == field[j - 56]
      {
        BigEndianAt(bitCount, 8, byte);
        block[63 - byte] := ToByte(ShiftRight(bitCount, byte));
      }
    }

    // Pads the message and compresses what that completes.
    method Pad()
      requires Valid()
      modifies this, state, block
      ensures state.Length == 8
      ensures AsState(state[..]) == PaddedHash(old(message))
    {
      hide HashBlocks, Compress, AsState, Whole, Rest, Zeros, PaddedHash, BigEndian;
      ghost var m, tail := message, block[..blockBytes];
      var bitCount := totalBytes * 8 % WORD64;
      BitCount(|m|);
      block[blockBytes] := 0x80;
      blockBytes := blockBytes + 1;
      assert block[..blockBytes] == tail + [0x80] && state[..] == old(state[..]);
      if blockBytes > 56 {
        Clear(blockBytes, block.Length);
        assert block[..] == tail + [0x80] + Zeros(63 - |tail|);
        Transform();
        blockBytes := 0;
      }
      Clear(blockBytes, 56);
      assert blockBytes != 0 ==> block[..56] == tail + [0x80] + Zeros(55 - |tail|);
      assert blockBytes == 0 ==> block[..56] == Zeros(56);
      WriteLength(bitCount);
      Padded(m);
      Transform();
    }

    // The digest of everything that was taken in.
    method Finalize() returns (digest: seq<Byte>)
      requires Valid()
      modifies this, state, block
      ensures digest == SecureHash.Sha256(old(message))
    {
      hide PaddedHash, WordBytes, Absorbed;
      Pad();
      digest := [];
      for word := 0 to state.Length
        invariant digest == WordsBytes(state[..word])
      {
        assert state[..word + 1][..word] == state[..word];
        digest := digest + WordBytes(state[word]);
      }
      var s := AsState(state[..]);
      assert state[..] == [s.a, s.b, s.c, s.d, s.e, s.f, s.g, s.h];
      assert state[..state.Length] == state[..];
    }

    method AddToState(a: Word, b: Word, c: Word, d: Word, e: Word, f: Word, g: Word, h: Word)
      requires state.Length == 8
      modifies state
      ensures AsState(state[..]) == Plus(old(AsState(state[..])), State(a, b, c, d, e, f, g, h))
    {
      hide Add;
      state[0], state[1], state[2], state[3] := Add(state[0], a), Add(state[1], b), Add(state[2], c), Add(state[3], d);
      state[4], state[5], state[6], state[7] := Add(state[4], e), Add(state[5], f), Add(state[6], g), Add(state[7], h);
    }
  }

  // Multiplying the truncated length truncates the same.
  lemma {:induction false} BitCount(n: nat)
    ensures n % WORD64 * 8 % WORD64 == 8 * n % WORD64
  {
    var q, r := n / WORD64, n % WORD64;
    assert 8 * n == 8 * q * WORD64 + 8 * r;
  }

  // The padded message: one block more than the whole ones, or two when marker and length do not fit.
  lemma {:induction false} Padded(m: seq<Byte>)
    ensures var t, length := Rest(m), BigEndian(8 * |m| % WORD64, 8);
            PaddedHash(m) ==
              if |t| < 56 then Compress(HashBlocks(Whole(m)), t + [0x80] + Zeros(55 - |t|) + length)
              else Compress(Compress(HashBlocks(Whole(m)), t + [0x80] + Zeros(63 - |t|)), Zeros(56) + length)
  {
    hide HashBlocks, Compress, Whole, Rest, BigEndian;
    var t, length := Rest(m), BigEndian(8 * |m| % WORD64, 8);
    PaddedLength(|m|);
    Gap(|m|);
    if |t| < 56 {
      var b := t + [0x80] + Zeros(55 - |t|) + length;
      HashOneMore(Whole(m), b);
      assert Whole(m) + b == m + Padding(|m|);
    } else {
      var b, c := t + [0x80] + Zeros(63 - |t|), Zeros(56) + length;
      HashOneMore(Whole(m), b);
      HashOneMore(Whole(m) + b, c);
      assert Zeros(119 - |t|) == Zeros(63 - |t|) + Zeros(56);
      assert Whole(m) + b + c == m + Padding(|m|);
    }
  }

  lemma Gap(n: nat)
    ensures ZeroCount(n) == if n % BLOCK < 56 then 55 - n % BLOCK else 119 - n % BLOCK
  {
  }

  lemma StateFields(s: seq<Word>)
    requires |s| == 8
    ensures AsState(s) == State(s[0], s[1], s[2], s[3], s[4], s[5], s[6], s[7])
  {
  }

  lemma Compressed(s: State, block: seq<Byte>)
    requires |block| == BLOCK
    ensures Compress(s, block) == Plus(s, Rounds(s, block, 64))
  {
    hide Plus, Rounds;
  }

  function Concat(parts: seq<seq<Byte>>): seq<Byte> {
    if parts == [] then [] else Concat(parts[..|parts| - 1]) + parts[|parts| - 1]
  }

  // Hashing a file read piece by piece, however it is cut.
  method HashFile(pieces: seq<seq<Byte>>) returns (digest: seq<Byte>)
    ensures digest == SecureHash.Sha256(Concat(pieces))
  {
    hide SecureHash.Sha256;
    var sha256 := new Sha256();
    for k := 0 to |pieces|
      invariant sha256.Valid() && fresh(sha256) && fresh(sha256.state) && fresh(sha256.block)
      invariant sha256.message == Concat(pieces[..k])
    {
      assert pieces[..k + 1][..k] == pieces[..k];
      sha256.Update(pieces[k]);
    }
    assert pieces[..|pieces|] == pieces;
    digest := sha256.Finalize();
  }
}
