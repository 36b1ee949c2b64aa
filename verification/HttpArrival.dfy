/** How the size limit on chunk lines and trailers depends on the sizes of the receives
    (Source/McpServer.cpp:1635-1645 and 1677-1687): which lines are always read, which are always
    rejected, and that for every other line the receives decide. */
module HttpArrival {
  import opened ChunkedCoding
  import opened HttpBody
  import opened Options

  // The same bytes arriving in two ways have the same result unless one of them is an over-long line.
  lemma {:induction false} ArrivalDecidesLittle(initial: string, receives: seq<string>, looks: iset<nat>)
    ensures var s, r := Stream(initial, 0, receives, 0), Received(initial, receives);
            && (r == Failed(LineTooLarge) || r == Decode(s, "", 0, iset{}))
            && (Everywhere(looks) ==> Decode(s, "", 0, looks) == Failed(LineTooLarge) || Decode(s, "", 0, looks) == r)
  {
    hide Decode, Stream, Looks;
    var s := Stream(initial, 0, receives, 0);
    LimitOnlyRejects(s, "", 0, iset{}, Looks(receives));
    if Everywhere(looks) {
      LimitOnlyRejects(s, "", 0, Looks(receives), looks);
    }
  }

  lemma {:induction false} RestOfTrickle(receives: seq<string>, k: nat)
    requires k <= |receives| && Trickling(receives)
    ensures |Rest(receives, k)| == |receives| - k
    decreases |receives| - k
  {
    if k < |receives| {
      RestOfTrickle(receives, k + 1);
    }
  }

  // Byte by byte the limit is looked at everywhere.
  lemma {:induction false} TrickleIsStrictest(initial: string, receives: seq<string>, looks: iset<nat>)
    requires Trickling(receives) && |initial| <= MAX_HEADER + 1 && Everywhere(looks)
    ensures Received(initial, receives) == Decode(Stream(initial, 0, receives, 0), "", 0, looks)
  {
    hide Decode;
    var s := Stream(initial, 0, receives, 0);
    RestOfTrickle(receives, 0);
    forall left: nat | left + MAX_HEADER < |s| ensures left in Looks(receives) && left in looks {
      RestOfTrickle(receives, |receives| - left);
    }
    EarlyLooksAreIdle(s, "", 0, Looks(receives), looks);
  }

  // The first look at which no more than `enough` bytes are still to come.
  lemma {:induction false} LookBelow(receives: seq<string>, k: nat, enough: nat)
    requires k <= |receives| && ValidReceives(receives) && enough < |Rest(receives, k)|
    ensures exists left :: left in Looks(receives) && left <= enough < left + RECEIVE_SIZE
    decreases |receives| - k
  {
    assert |Rest(receives, k + 1)| in Looks(receives);
    if |Rest(receives, k + 1)| > enough {
      LookBelow(receives, k + 1, enough);
    }
  }

  // A line longer than the limit by a whole receive, or one that is over the limit and never ends,
  // is rejected however the bytes arrive.
  lemma {:induction false} LongLinesAreRejected(initial: string, receives: seq<string>, s: string, pattern: string)
    requires ValidReceives(receives) && |initial| <= 65536 + 4096
    requires |s| <= |Stream(initial, 0, receives, 0)|
    requires Extent(s, pattern) > 65536 + 4096 || (Find(s, pattern, 0).None? && |s| > 65536)
    ensures Refused(s, pattern, Looks(receives))
  {
    hide Find, ValidReceives;
    assert Rest(receives, |receives|) == "" && 0 in Looks(receives);
    if Find(s, pattern, 0).Some? {
      var enough := |s| - MAX_HEADER - 1;
      if |Rest(receives, 0)| <= enough {
        assert |Rest(receives, 0)| in Looks(receives);
      } else {
        LookBelow(receives, 0, enough);
      }
    }
  }

  // ----- for every other over-long line the receives decide

  // The line is over the limit, but by no more than one receive.
  predicate Undecided(s: string, pattern: string) {
    Find(s, pattern, 0).Some? && MAX_HEADER + 1 < Extent(s, pattern) <= MAX_HEADER + RECEIVE_SIZE
  }

  // Every receive but the last fills its buffer.
  function WholeReceives(s: string): seq<string> {
    if |s| == 0 then []
    else if |s| <= RECEIVE_SIZE then [s]
    else [s[..RECEIVE_SIZE]] + WholeReceives(s[RECEIVE_SIZE..])
  }

  function Trickle(s: string): seq<string> {
    seq(|s|, (i: nat) requires i < |s| => s[i..i + 1])
  }

  lemma {:induction false} RestOfLater(first: string, later: seq<string>, k: nat)
    requires k <= |later|
    ensures Rest([first] + later, k + 1) == Rest(later, k)
    decreases |later| - k
  {
    var all := [first] + later;
    assert |all| == |later| + 1;
    if k < |later| {
      assert all[k + 1] == later[k];
      RestOfLater(first, later, k + 1);
    }
  }

  // Whole receives stop at the multiples of their size and at the end.
  lemma {:induction false} WholeReceivesStop(s: string, k: nat)
    requires k <= |WholeReceives(s)|
    ensures ValidReceives(WholeReceives(s))
    ensures Rest(WholeReceives(s), k) == s[if RECEIVE_SIZE * k < |s| then RECEIVE_SIZE * k else |s|..]
    decreases |s|, k
  {
    if |s| > RECEIVE_SIZE {
      var first, later := s[..RECEIVE_SIZE], s[RECEIVE_SIZE..];
      RestOfLater(first, WholeReceives(later), if k == 0 then 0 else k - 1);
      WholeReceivesStop(later, if k == 0 then 0 else k - 1);
    } else if 0 < |s| && k == 0 {
      assert Rest([s], 1) == "";
    }
  }

  lemma {:induction false} RestOfBytes(s: string, k: nat)
    requires k <= |s|
    ensures Rest(Trickle(s), k) == s[k..]
    decreases |s| - k
  {
    if k < |s| {
      RestOfBytes(s, k + 1);
    }
  }

  lemma {:induction false} RestConcat(a: seq<string>, b: seq<string>, k: nat)
    requires k <= |a| + |b|
    ensures Rest(a + b, k) == if k <= |a| then Rest(a, k) + Rest(b, 0) else Rest(b, k - |a|)
    decreases |a| + |b| - k
  {
    var all := a + b;
    if k < |a| {
      assert all[k] == a[k];
      RestConcat(a, b, k + 1);
    } else if k < |a| + |b| {
      assert all[k] == b[k - |a|];
      RestConcat(a, b, k + 1);
    }
  }

  // Receives for the text from `from` on that stop where the line at `line` reaches the limit, and
  // fill their buffers otherwise.
  function Lenient(text: string, line: nat, from: nat): seq<string>
    requires from <= line + MAX_HEADER <= |text|
  {
    WholeReceives(text[from..line + MAX_HEADER]) + WholeReceives(text[line + MAX_HEADER..])
  }

  // They stop nowhere in the window in which the line ends.
  lemma {:induction false} LenientStops(text: string, line: nat, from: nat, k: nat)
    requires from <= line + MAX_HEADER <= |text| && k <= |Lenient(text, line, from)|
    ensures var left := |Rest(Lenient(text, line, from), k)|;
            && |text| - left >= from
            && (|text| - left <= line + MAX_HEADER || |text| - left >= line + MAX_HEADER + RECEIVE_SIZE || left == 0)
  {
    hide WholeReceives;
    var a, b := WholeReceives(text[from..line + MAX_HEADER]), WholeReceives(text[line + MAX_HEADER..]);
    RestConcat(a, b, k);
    WholeReceivesStop(text[line + MAX_HEADER..], if k <= |a| then 0 else k - |a|);
    if k <= |a| {
      WholeReceivesStop(text[from..line + MAX_HEADER], k);
    }
  }

  lemma {:induction false} LenientArrives(text: string, line: nat, from: nat)
    requires from <= line + MAX_HEADER <= |text|
    ensures var a := Lenient(text, line, from); ValidReceives(a) && Stream(text[..from], 0, a, 0) == text
  {
    hide WholeReceives, Rest;
    var front, back := text[from..line + MAX_HEADER], text[line + MAX_HEADER..];
    RestConcat(WholeReceives(front), WholeReceives(back), 0);
    WholeReceivesStop(front, 0);
    WholeReceivesStop(back, 0);
    assert text[..from] + (front + back) == text;
  }

  // Wherever such a line stands, and whatever came with the header as long as it is not yet above the
  // limit in the line: there are receives with which it is read, and byte by byte it is rejected.
  lemma {:induction false} ArrivalDecides(text: string, line: nat, from: nat, pattern: string)
    requires line <= |text| && Undecided(text[line..], pattern) && from <= line + MAX_HEADER
    ensures var a, b := Lenient(text, line, from), Trickle(text[from..]);
            && ValidReceives(a) && Stream(text[..from], 0, a, 0) == text
            && ValidReceives(b) && Stream(text[..from], 0, b, 0) == text
            && !Refused(text[line..], pattern, Looks(a)) && Refused(text[line..], pattern, Looks(b))
  {
    hide Find, Rest, Lenient;
    var a, b := Lenient(text, line, from), Trickle(text[from..]);
    LenientArrives(text, line, from);
    forall k | 0 <= k <= |a|
      ensures !(MAX_HEADER < |text[line..]| - |Rest(a, k)| < Extent(text[line..], pattern))
    {
      LenientStops(text, line, from, k);
    }
    var over := line + MAX_HEADER + 1 - from;
    RestOfBytes(text[from..], 0);
    RestOfBytes(text[from..], over);
    assert text[..from] + text[from..] == text;
    assert |Rest(b, over)| in Looks(b);
  }

  // What came with the header decides by itself once it is above the limit in the line.
  lemma {:induction false} HeaderDecides(text: string, line: nat, from: nat, pattern: string, receives: seq<string>)
    requires line + MAX_HEADER < from <= |text| && Stream(text[..from], 0, receives, 0) == text
    ensures Refused(text[line..], pattern, Looks(receives)) <==> from < line + Extent(text[line..], pattern)
  {
    hide Find, Rest;
    assert |Rest(receives, 0)| == |text| - from;
    assert |Rest(receives, 0)| in Looks(receives);
    forall k | 0 <= k <= |receives| ensures |Rest(receives, k)| <= |text| - from {
      LessToCome(receives, 0, k);
    }
  }

  // The end of a body with a last line in that window is accepted or not.
  lemma {:induction false} LastLine(line: string, body: string, count: nat, looks: iset<nat>)
    requires ParseSize(line) == Some(0) && Find(line + BLANK_LINE, CRLF, 0) == Some(|line|)
    requires |body| <= MAX_BODY && count < MAX_CHUNKS
    ensures Decode(line + BLANK_LINE, body, count, looks) ==
              if Refused(line + BLANK_LINE, CRLF, looks) then Failed(LineTooLarge) else Body(body)
  {
    hide ParseSize, Refused, Find;
    var s := line + BLANK_LINE;
    assert s[..|line|] == line && s[|line| + 2..] == CRLF;
  }

  // So a body of any chunks that ends with such a line is accepted or refused with the receives.
  lemma {:induction false} TwoOutcomes(cs: seq<Chunk>, line: string, from: nat)
    requires (forall i :: 0 <= i < |cs| ==> ValidChunk(cs[i])) && |AllData(cs)| <= MAX_BODY && |cs| < MAX_CHUNKS
    requires ParseSize(line) == Some(0) && Find(line + BLANK_LINE, CRLF, 0) == Some(|line|)
    requires MAX_HEADER <= |line| <= MAX_HEADER + RECEIVE_SIZE - 2 && from <= |EncodeChunks(cs)| + MAX_HEADER
    ensures var text, at := EncodeChunks(cs) + (line + BLANK_LINE), |EncodeChunks(cs)|;
            && Received(text[..from], Lenient(text, at, from)) == Body(AllData(cs))
            && Received(text[..from], Trickle(text[from..])) == Failed(LineTooLarge)
  {
    hide ParseSize, Refused, Looks, Stream, Decode, ValidChunk, EncodeChunks, Lenient, Trickle, Find;
    var text, at := EncodeChunks(cs) + (line + BLANK_LINE), |EncodeChunks(cs)|;
    assert text[at..] == line + BLANK_LINE;
    assert Undecided(text[at..], CRLF);
    ArrivalDecides(text, at, from, CRLF);
    assert "" + AllData(cs) == AllData(cs);
    ChunksDecode(cs, line + BLANK_LINE, "", 0, Looks(Lenient(text, at, from)));
    ChunksDecode(cs, line + BLANK_LINE, "", 0, Looks(Trickle(text[from..])));
    LastLine(line, AllData(cs), |cs|, Looks(Lenient(text, at, from)));
    LastLine(line, AllData(cs), |cs|, Looks(Trickle(text[from..])));
  }

  // A last chunk's line with an extension of 65536 bytes.
  function Overlong(): string {
    "0;" + seq(65535, _ => 'x')
  }

  lemma {:induction false} OverlongIsALine()
    ensures ParseSize(Overlong()) == Some(0) && Find(Overlong() + BLANK_LINE, CRLF, 0) == Some(|Overlong()|)
  {
    hide TrimLeft, TrimRight;
    var line := Overlong();
    var s := line + BLANK_LINE;
    assert line[1..2] == ";" && line[0..1] == "0";
    assert At(line, ";", 1) && !At(line, ";", 0);
    assert Find(line, ";", 0) == Some(1);
    assert TrimRight(TrimLeft("0")) == "0" && HexValue("0") == 0 by {
      SingleZero();
    }
    assert line[..1] == "0";
    assert s[|line|..|line| + 2] == CRLF;
    assert At(s, CRLF, |line|);
    forall j | 0 <= j < |line| ensures !At(s, CRLF, j) {
      assert s[j..j + 2][0] == line[j];
    }
  }

  lemma {:induction false} SingleZero()
    ensures TrimRight(TrimLeft("0")) == "0" && AllHex("0") && HexValue("0") == 0
  {
    assert "0"[..0] == "";
  }

  lemma {:induction false} WholeReceivesSizes(s: string, i: nat)
    requires RECEIVE_SIZE * i < |s|
    ensures i < |WholeReceives(s)|
    ensures |WholeReceives(s)[i]| == if RECEIVE_SIZE * (i + 1) <= |s| then RECEIVE_SIZE else |s| - RECEIVE_SIZE * i
    ensures i + 1 < |WholeReceives(s)| <==> RECEIVE_SIZE * (i + 1) < |s|
    decreases i
  {
    if i > 0 {
      WholeReceivesSizes(s[RECEIVE_SIZE..], i - 1);
    }
  }

  // The two outcomes of one body: sixteen receives of 4096 bytes and one of five, or single bytes.
  lemma {:induction false} BothHappen()
    ensures var s := Overlong() + BLANK_LINE;
            && |Lenient(s, 0, 0)| == 17 && |Lenient(s, 0, 0)[16]| == 5
            && (forall i :: 0 <= i < 16 ==> |Lenient(s, 0, 0)[i]| == 4096)
            && Received("", Lenient(s, 0, 0)) == Body("") && Received("", Trickle(s)) == Failed(LineTooLarge)
  {
    hide WholeReceives, Received, Find, ParseSize;
    var s := Overlong() + BLANK_LINE;
    OverlongIsALine();
    TwoOutcomes([], Overlong(), 0);
    assert EncodeChunks([]) + s == s && s[..0] == "" && s[0..] == s;
    forall i: nat | i < 16
      ensures i < |WholeReceives(s[..MAX_HEADER])| && |WholeReceives(s[..MAX_HEADER])[i]| == RECEIVE_SIZE
    {
      WholeReceivesSizes(s[..MAX_HEADER], i);
    }
    WholeReceivesSizes(s[..MAX_HEADER], 15);
    WholeReceivesSizes(s[MAX_HEADER..], 0);
    assert s[0..MAX_HEADER] == s[..MAX_HEADER];
  }
}
