/** The body loops of Server::ReadHttpRequest (Source/McpServer.cpp:1592-1764). What the socket will
    still deliver is the list `receives`, one entry per successful receive; when it is used up the
    next receive fails, be it by a closed connection or by the deadline. */
module HttpBody {
  import opened ChunkedCoding
  import opened Options

  const RECEIVE_SIZE := 4096

  // No receive makes the working buffer longer than this, whatever the size of the body.
  const BUFFER_LIMIT := 3 * MAX_HEADER + 2 * RECEIVE_SIZE

  // The same for everything but the trailer.
  const CHUNK_LIMIT := 2 * MAX_HEADER + RECEIVE_SIZE

  // No receive is empty or longer than the buffer it is given.
  predicate ValidReceives(receives: seq<string>) {
    forall i :: 0 <= i < |receives| ==> 1 <= |receives[i]| <= RECEIVE_SIZE
  }

  // The socket hands over single bytes.
  predicate Trickling(receives: seq<string>) {
    forall i :: 0 <= i < |receives| ==> |receives[i]| == 1
  }

  // The bytes still to come after k receives.
  function Rest(receives: seq<string>, k: nat): string
    requires k <= |receives|
    decreases |receives| - k
  {
    if k == |receives| then "" else receives[k] + Rest(receives, k + 1)
  }

  // Everything not yet consumed.
  function Stream(encoded: string, cursor: nat, receives: seq<string>, next: nat): (s: string)
    requires cursor <= |encoded| && next <= |receives|
    ensures |s| >= |encoded| - cursor && s[..|encoded| - cursor] == encoded[cursor..]
    ensures next == |receives| ==> |s| == |encoded| - cursor
  {
    encoded[cursor..] + Rest(receives, next)
  }

  lemma {:induction false} ReceiveKeepsStream(encoded: string, cursor: nat, receives: seq<string>, next: nat)
    requires cursor <= |encoded| && next < |receives|
    ensures Stream(encoded + receives[next], cursor, receives, next + 1) == Stream(encoded, cursor, receives, next)
  {
    assert (encoded + receives[next])[cursor..] == encoded[cursor..] + receives[next];
  }

  // Bytes already consumed can be dropped.
  lemma {:induction false} CompactKeepsStream(encoded: string, cursor: nat, receives: seq<string>, next: nat)
    requires cursor <= |encoded| && next <= |receives|
    ensures Stream(encoded[cursor..], 0, receives, next) == Stream(encoded, cursor, receives, next)
  {
  }

  // A pattern found in the buffer is where it is in the stream; one not found ends beyond it.
  lemma {:induction false} FoundInStream(encoded: string, cursor: nat, receives: seq<string>, next: nat,
        pattern: string)
    requires cursor <= |encoded| && next <= |receives| && pattern != ""
    ensures var r, s := Find(encoded, pattern, cursor), Find(Stream(encoded, cursor, receives, next), pattern, 0);
            && (r.Some? ==>
                s == Some(r.value - cursor)
                && encoded[cursor..r.value] == Stream(encoded, cursor, receives, next)[..s.value])
            && (r.None? && s.Some? ==> s.value + |pattern| > |encoded| - cursor)
            && (r.None? && next == |receives| ==> s.None?)
  {
    hide At, Rest;
    FindShifted(encoded, pattern, cursor);
    FindExtended(encoded[cursor..], Rest(receives, next), pattern);
    if next == |receives| {
      assert Stream(encoded, cursor, receives, next) == encoded[cursor..];
    }
  }

  // Moving bytes from the buffer to the body keeps the two together.
  lemma {:induction false} TakeData(body: string, encoded: string, cursor: nat, available: nat, receives: seq<string>,
        next: nat)
    requires cursor + available <= |encoded| && next <= |receives|
    ensures body + encoded[cursor..cursor + available] + Stream(encoded, cursor + available, receives, next)
         == body + Stream(encoded, cursor, receives, next)
  {
    hide Rest;
    assert encoded[cursor..] == encoded[cursor..cursor + available] + encoded[cursor + available..];
  }

  lemma {:induction false} SplitAt(body0: string, stream: string, body: string, left: string, size: nat)
    requires body + left == body0 + stream && |body| == |body0| + size
    ensures size <= |stream| && body == body0 + stream[..size] && left == stream[size..]
  {
    assert body == (body0 + stream)[..|body|];
    assert left == (body0 + stream)[|body|..];
  }

  // ----- the size limit

  // The numbers of bytes still to come between receives.
  ghost function Looks(receives: seq<string>): iset<nat> {
    iset k | 0 <= k <= |receives| :: |Rest(receives, k)|
  }

  // No look before receive `next` met more than the limit of the `length` bytes still to be read.
  ghost predicate NothingMissed(length: nat, receives: seq<string>, next: nat)
    requires next <= |receives|
  {
    forall k :: 0 <= k < next ==> length <= |Rest(receives, k)| + MAX_HEADER
  }

  lemma {:induction false} LessToCome(receives: seq<string>, from: nat, to: nat)
    requires from <= to <= |receives|
    ensures |Rest(receives, to)| <= |Rest(receives, from)|
    decreases |receives| - from
  {
    if from < to {
      LessToCome(receives, from + 1, to);
    }
  }

  // A look that meets a buffer within the limit misses nothing, and consuming bytes only leaves fewer
  // to miss.
  lemma {:induction false} MissedNothingYet(encoded: string, cursor: nat, receives: seq<string>, next: nat)
    requires cursor <= |encoded| <= cursor + MAX_HEADER && next < |receives|
    requires NothingMissed(|Stream(encoded, cursor, receives, next)|, receives, next)
    ensures NothingMissed(|Stream(encoded, cursor, receives, next)|, receives, next + 1)
  {
    hide Rest;
  }

  lemma {:induction false} MissedNothingSince(before: nat, now: nat, receives: seq<string>, next: nat)
    requires now <= before && next <= |receives| && NothingMissed(before, receives, next)
    ensures NothingMissed(now, receives, next)
  {
    hide Rest;
  }

  // What the loops see when they stop searching is what the limit says of the stream.
  lemma {:induction false} LimitDecides(encoded: string, cursor: nat, receives: seq<string>, next: nat, pattern: string)
    requires cursor <= |encoded| && next <= |receives| && pattern != ""
    requires NothingMissed(|Stream(encoded, cursor, receives, next)|, receives, next)
    requires Find(encoded, pattern, cursor).Some? || |encoded| - cursor > MAX_HEADER || next == |receives|
    ensures Find(encoded, pattern, cursor).None? && |encoded| - cursor > MAX_HEADER
       <==> Refused(Stream(encoded, cursor, receives, next), pattern, Looks(receives))
  {
    hide Find, Rest;
    FoundInStream(encoded, cursor, receives, next, pattern);
    var s := Stream(encoded, cursor, receives, next);
    if Find(encoded, pattern, cursor).None? && |encoded| - cursor > MAX_HEADER {
      assert |Rest(receives, next)| in Looks(receives);
    } else {
      forall k | next <= k <= |receives| ensures |s| - |Rest(receives, k)| >= |encoded| - cursor {
        LessToCome(receives, next, k);
      }
    }
  }

  // ----- the loops

  // Appends the next receive to the buffer.
  method Receive(encoded0: string, ghost cursor: nat, receives: seq<string>, next0: nat)
        returns (encoded: string, next: nat)
    requires cursor <= |encoded0| && next0 < |receives| && ValidReceives(receives)
    requires |encoded0| + RECEIVE_SIZE <= BUFFER_LIMIT
    ensures next == next0 + 1 && |encoded0| < |encoded| <= |encoded0| + RECEIVE_SIZE
          && encoded[..|encoded0|] == encoded0
    ensures Stream(encoded, cursor, receives, next) == Stream(encoded0, cursor, receives, next0)
  {
    hide Stream;
    ReceiveKeepsStream(encoded0, cursor, receives, next0);
    encoded := encoded0 + receives[next0];
    next := next0 + 1;
  }

  // Receives until the pattern is in the buffer.
  method FindReceiving(encoded0: string, cursor: nat, pattern: string, receives: seq<string>, next0: nat)
      returns (end: Option<nat>, encoded: string, next: nat, tooLarge: bool)
    requires cursor <= |encoded0| && next0 <= |receives| && ValidReceives(receives) && pattern != ""
    requires cursor + MAX_HEADER + RECEIVE_SIZE <= BUFFER_LIMIT
    requires NothingMissed(|Stream(encoded0, cursor, receives, next0)|, receives, next0)
    ensures next0 <= next <= |receives| && cursor <= |encoded|
    ensures Stream(encoded, cursor, receives, next) == Stream(encoded0, cursor, receives, next0)
    ensures |encoded| <= cursor + MAX_HEADER + RECEIVE_SIZE || |encoded| == |encoded0|
    ensures end.Some? ==> cursor <= end.value && end.value + |pattern| <= |encoded|
    ensures end.Some? ==> encoded[cursor..end.value] == Stream(encoded0, cursor, receives, next0)[..end.value - cursor]
    ensures end.Some? ==> Find(Stream(encoded0, cursor, receives, next0), pattern, 0) == Some(end.value - cursor)
    ensures tooLarge ==> end.None?
    ensures NothingMissed(|Stream(encoded0, cursor, receives, next0)|, receives, next)
    ensures tooLarge <==> Refused(Stream(encoded0, cursor, receives, next0), pattern, Looks(receives))
    ensures !tooLarge && end.None? ==> Find(Stream(encoded0, cursor, receives, next0), pattern, 0).None?
  {
    hide Find, At, ValidReceives, Refused, Stream, NothingMissed, Looks;
    ghost var stream := Stream(encoded0, cursor, receives, next0);
    encoded, next := encoded0, next0;
    end := Find(encoded, pattern, cursor);
    while end.None? && |encoded| - cursor <= MAX_HEADER && next < |receives|
      invariant next0 <= next <= |receives| && cursor <= |encoded|
      invariant Stream(encoded, cursor, receives, next) == stream
      invariant |encoded| <= cursor + MAX_HEADER + RECEIVE_SIZE || |encoded| == |encoded0|
      invariant end == Find(encoded, pattern, cursor)
      invariant NothingMissed(|stream|, receives, next)
      decreases |receives| - next
    {
      MissedNothingYet(encoded, cursor, receives, next);
      encoded, next := Receive(encoded, cursor, receives, next);
      end := Find(encoded, pattern, cursor);
    }
    tooLarge := end.None? && |encoded| - cursor > MAX_HEADER;
    FoundInStream(encoded, cursor, receives, next, pattern);
    LimitDecides(encoded, cursor, receives, next, pattern);
  }

  // Two bytes in the buffer are the first two of the stream.
  lemma {:induction false} TwoBytes(encoded: string, cursor: nat, receives: seq<string>, next: nat)
    requires cursor <= |encoded| && next <= |receives|
    ensures |encoded| >= cursor + 2 ==>
              |Stream(encoded, cursor, receives, next)| >= 2
              && encoded[cursor..cursor + 2] == Stream(encoded, cursor, receives, next)[..2]
    ensures |encoded| < cursor + 2 && next == |receives| ==> |Stream(encoded, cursor, receives, next)| < 2
  {
    hide Rest;
  }

  // Receives until the buffer holds two more bytes.
  method EnsureTwo(encoded0: string, cursor: nat, receives: seq<string>, next0: nat)
      returns (ok: bool, encoded: string, next: nat)
    requires cursor <= |encoded0| && next0 <= |receives| && ValidReceives(receives)
    requires cursor + 2 + RECEIVE_SIZE <= BUFFER_LIMIT
    requires NothingMissed(|Stream(encoded0, cursor, receives, next0)|, receives, next0)
    ensures next0 <= next <= |receives| && cursor <= |encoded|
    ensures Stream(encoded, cursor, receives, next) == Stream(encoded0, cursor, receives, next0)
    ensures ok <==> |Stream(encoded0, cursor, receives, next0)| >= 2
    ensures ok ==>
          |encoded| >= cursor + 2 && encoded[cursor..cursor + 2] == Stream(encoded0, cursor, receives, next0)[..2]
    ensures |encoded| <= cursor + 2 + RECEIVE_SIZE || |encoded| == |encoded0|
    ensures NothingMissed(|Stream(encoded0, cursor, receives, next0)|, receives, next)
  {
    hide Stream, NothingMissed, ValidReceives;
    encoded, next := encoded0, next0;
    while |encoded| < cursor + 2 && next < |receives|
      invariant next0 <= next <= |receives| && cursor <= |encoded|
      invariant Stream(encoded, cursor, receives, next) == Stream(encoded0, cursor, receives, next0)
      invariant |encoded| <= cursor + 2 + RECEIVE_SIZE || |encoded| == |encoded0|
      invariant NothingMissed(|Stream(encoded0, cursor, receives, next0)|, receives, next)
      decreases |receives| - next
    {
      MissedNothingYet(encoded, cursor, receives, next);
      encoded, next := Receive(encoded, cursor, receives, next);
    }
    ok := |encoded| >= cursor + 2;
    TwoBytes(encoded, cursor, receives, next);
  }

  // Drops what is consumed, once all of it is or enough has gathered.
  method Compact(encoded0: string, cursor0: nat, ghost receives: seq<string>, ghost next: nat)
        returns (encoded: string, cursor: nat)
    requires cursor0 <= |encoded0| && next <= |receives|
    ensures cursor <= |encoded| <= |encoded0| && |encoded| - cursor == |encoded0| - cursor0 && cursor < MAX_HEADER
    ensures Stream(encoded, cursor, receives, next) == Stream(encoded0, cursor0, receives, next)
  {
    hide Stream;
    CompactKeepsStream(encoded0, cursor0, receives, next);
    encoded, cursor := encoded0, cursor0;
    if cursor == |encoded| {
      encoded, cursor := "", 0;
      assert encoded0[cursor0..] == "";
    } else if cursor >= MAX_HEADER {
      encoded, cursor := encoded[cursor..], 0;
    }
  }

  // Moves one chunk's data into the body through the sliding buffer.
  method ReadData(encoded0: string, cursor0: nat, size: nat, body0: string, receives: seq<string>, next0: nat)
      returns (ok: bool, encoded: string, cursor: nat, next: nat, body: string)
    requires cursor0 <= |encoded0| <= CHUNK_LIMIT && size > 0 && next0 <= |receives| && ValidReceives(receives)
    requires NothingMissed(|Stream(encoded0, cursor0, receives, next0)|, receives, next0)
    ensures next0 <= next <= |receives| && cursor <= |encoded| <= CHUNK_LIMIT
    ensures ok <==> |Stream(encoded0, cursor0, receives, next0)| >= size
    ensures ok ==> body == body0 + Stream(encoded0, cursor0, receives, next0)[..size]
    ensures ok ==> Stream(encoded, cursor, receives, next) == Stream(encoded0, cursor0, receives, next0)[size..]
    ensures |body| <= |body0| + size
    ensures ok ==> cursor < MAX_HEADER
    ensures NothingMissed(|Stream(encoded, cursor, receives, next)|, receives, next)
  {
    hide Stream, NothingMissed, ValidReceives;
    ghost var stream := Stream(encoded0, cursor0, receives, next0);
    encoded, cursor, next, body := encoded0, cursor0, next0, body0;
    var remaining := size;
    while remaining != 0 && (cursor < |encoded| || next < |receives|)
      invariant 0 <= remaining <= size && next0 <= next <= |receives| && cursor <= |encoded| <= CHUNK_LIMIT
      invariant |body| == |body0| + size - remaining
      invariant body + Stream(encoded, cursor, receives, next) == body0 + stream
      invariant remaining != size ==> cursor < MAX_HEADER
      invariant NothingMissed(|Stream(encoded, cursor, receives, next)|, receives, next)
      decreases remaining
    {
      if cursor == |encoded| {
        encoded, cursor := Compact(encoded, cursor, receives, next);
        MissedNothingYet(encoded, cursor, receives, next);
        encoded, next := Receive(encoded, cursor, receives, next);
      }
      var available := if remaining < |encoded| - cursor then remaining else |encoded| - cursor;
      TakeData(body, encoded, cursor, available, receives, next);
      MissedNothingSince(|Stream(encoded, cursor, receives, next)|,
                         |Stream(encoded, cursor + available, receives, next)|, receives, next);
      body := body + encoded[cursor..cursor + available];
      cursor := cursor + available;
      remaining := remaining - available;
      encoded, cursor := Compact(encoded, cursor, receives, next);
    }
    ok := remaining == 0;
    if ok {
      SplitAt(body0, stream, body, Stream(encoded, cursor, receives, next), size);
    }
  }

  // ----- the reader

  // What is left to decode, decoded.
  ghost function Remaining(encoded: string, cursor: nat, receives: seq<string>, next: nat, body: string, count: nat)
        : Result
    requires cursor <= |encoded| && next <= |receives| && |body| <= MAX_BODY
  {
    Decode(Stream(encoded, cursor, receives, next), body, count, Looks(receives))
  }

  method ReadTrailer(encoded0: string, cursor: nat, body: string, receives: seq<string>, next0: nat) returns (r: Result)
    requires cursor <= |encoded0| && next0 <= |receives| && ValidReceives(receives)
    requires cursor <= CHUNK_LIMIT
    requires NothingMissed(|Stream(encoded0, cursor, receives, next0)|, receives, next0)
    ensures r == DecodeTrailer(Stream(encoded0, cursor, receives, next0), body, Looks(receives))
  {
    hide Stream, At, Refused, NothingMissed, ValidReceives;
    var ok, encoded, next := EnsureTwo(encoded0, cursor, receives, next0);
    if !ok {
      r := Failed(ReadFailed);
    } else if encoded[cursor..cursor + 2] == CRLF {
      r := Body(body);
    } else {
      var end, tooLarge;
      end, encoded, next, tooLarge := FindReceiving(encoded, cursor, BLANK_LINE, receives, next);
      r := if tooLarge then Failed(LineTooLarge) else if end.None? then Failed(ReadFailed) else Body(body);
    }
  }

  // Reads a chunk's size line; `cursor` is left behind it.
  method ReadSize(encoded0: string, cursor0: nat, receives: seq<string>, next0: nat)
      returns (r: Option<nat>, error: Error, encoded: string, cursor: nat, next: nat)
    requires cursor0 <= |encoded0| <= CHUNK_LIMIT && cursor0 < MAX_HEADER && next0 <= |receives|
          && ValidReceives(receives)
    requires NothingMissed(|Stream(encoded0, cursor0, receives, next0)|, receives, next0)
    ensures next0 <= next <= |receives| && cursor <= |encoded| <= CHUNK_LIMIT
    ensures var s, end := Stream(encoded0, cursor0, receives, next0),
          Find(Stream(encoded0, cursor0, receives, next0), CRLF, 0);
            match r
            case Some(size) =>
              && !Refused(s, CRLF, Looks(receives)) && end.Some? && ParseSize(s[..end.value]) == r
              && Stream(encoded, cursor, receives, next) == s[end.value + 2..]
            case None =>
              error == if Refused(s, CRLF, Looks(receives)) then LineTooLarge
                       else if end.None? then ReadFailed else InvalidSize
    ensures var s, end := Stream(encoded0, cursor0, receives, next0),
          Find(Stream(encoded0, cursor0, receives, next0), CRLF, 0);
            r.None? && error == InvalidSize ==> end.Some? && ParseSize(s[..end.value]).None?
    ensures NothingMissed(|Stream(encoded, cursor, receives, next)|, receives, next)
  {
    hide Stream, At, Refused, NothingMissed, ValidReceives, ParseSize;
    var end, tooLarge;
    end, encoded, next, tooLarge := FindReceiving(encoded0, cursor0, CRLF, receives, next0);
    r, error, cursor := None, if tooLarge then LineTooLarge else ReadFailed, cursor0;
    if end.Some? {
      r := ParseSize(encoded[cursor..end.value]);
      error := InvalidSize;
      StreamFrom(encoded, cursor, end.value + 2, receives, next);
      cursor := end.value + 2;
    }
  }

  lemma {:induction false} StreamFrom(encoded: string, from: nat, to: nat, receives: seq<string>, next: nat)
    requires from <= to <= |encoded| && next <= |receives|
    ensures Stream(encoded, to, receives, next) == Stream(encoded, from, receives, next)[to - from..]
    ensures NothingMissed(|Stream(encoded, from, receives, next)|, receives, next) ==>
              NothingMissed(|Stream(encoded, to, receives, next)|, receives, next)
  {
    hide Rest;
  }

  // Reads a chunk's data and the line end behind it; None when all is well.
  method ReadDataLine(encoded0: string, cursor0: nat, size: nat, body0: string, receives: seq<string>, next0: nat)
      returns (error: Option<Error>, encoded: string, cursor: nat, next: nat, body: string)
    requires cursor0 <= |encoded0| <= CHUNK_LIMIT && size > 0 && next0 <= |receives| && ValidReceives(receives)
    requires |body0| + size <= MAX_BODY
    requires NothingMissed(|Stream(encoded0, cursor0, receives, next0)|, receives, next0)
    ensures next0 <= next <= |receives| && cursor <= |encoded| <= CHUNK_LIMIT && |body| <= MAX_BODY
    ensures var rest := Stream(encoded0, cursor0, receives, next0);
            match error
            case Some(e) => e == if |rest| < size + 2 then ReadFailed else InvalidTerminator
            case None =>
              && |rest| >= size + 2 && body == body0 + rest[..size] && cursor < MAX_HEADER
              && Stream(encoded, cursor, receives, next) == rest[size + 2..]
    ensures var rest := Stream(encoded0, cursor0, receives, next0);
            |rest| >= size + 2 ==> (error.None? <==> rest[size..size + 2] == CRLF)
    ensures error.None? ==> NothingMissed(|Stream(encoded, cursor, receives, next)|, receives, next)
  {
    hide Stream, NothingMissed, ValidReceives;
    var ok;
    ok, encoded, cursor, next, body := ReadData(encoded0, cursor0, size, body0, receives, next0);
    error := Some(ReadFailed);
    if ok {
      ok, encoded, next := EnsureTwo(encoded, cursor, receives, next);
      if ok {
        StreamFrom(encoded, cursor, cursor + 2, receives, next);
        if encoded[cursor..cursor + 2] != CRLF {
          error := Some(InvalidTerminator);
        } else {
          error := None;
          cursor := cursor + 2;
          if cursor >= MAX_HEADER {
            CompactKeepsStream(encoded, cursor, receives, next);
            encoded, cursor := encoded[cursor..], 0;
          }
        }
      }
    }
  }

  // One round of the chunk loop: either the result, or the state for the next round.
  method ReadChunk(encoded0: string, cursor0: nat, body0: string, receives: seq<string>, next0: nat, ghost count: nat)
      returns (done: bool, r: Result, encoded: string, cursor: nat, body: string, next: nat)
    requires cursor0 <= |encoded0| <= CHUNK_LIMIT && cursor0 < MAX_HEADER && next0 <= |receives|
          && ValidReceives(receives)
    requires |body0| <= MAX_BODY && count < MAX_CHUNKS
    requires NothingMissed(|Stream(encoded0, cursor0, receives, next0)|, receives, next0)
    ensures |body| <= MAX_BODY
    ensures done ==> r == Remaining(encoded0, cursor0, receives, next0, body0, count)
    ensures !done ==>
              && next0 <= next <= |receives| && cursor <= |encoded| <= CHUNK_LIMIT && cursor < MAX_HEADER
              && NothingMissed(|Stream(encoded, cursor, receives, next)|, receives, next)
              && Remaining(encoded, cursor, receives, next, body, count + 1)
              == Remaining(encoded0, cursor0, receives, next0, body0, count)
  {
    hide Stream, At, Refused, NothingMissed, ValidReceives, ParseSize, DecodeTrailer;
    var size, error;
    body := body0;
    size, error, encoded, cursor, next := ReadSize(encoded0, cursor0, receives, next0);
    done, r := true, Failed(error);
    if size.Some? {
      if size.value == 0 {
        r := ReadTrailer(encoded, cursor, body, receives, next);
      } else if size.value > MAX_BODY - |body| {
        r := Failed(BodyTooLarge);
      } else {
        var ok;
        ok, encoded, cursor, next, body := ReadDataLine(encoded, cursor, size.value, body, receives, next);
        done := ok != None;
        r := Failed(if ok.Some? then ok.value else ReadFailed);
      }
    }
  }

  // The stream starts with a valid encoding of these chunks.
  predicate Encodes(stream: string, cs: seq<Chunk>, last: Chunk, trailer: string, more: string) {
    && (forall i :: 0 <= i < |cs| ==> ValidChunk(cs[i])) && ValidEnd(last, trailer)
    && |AllData(cs)| <= MAX_BODY && |cs| < MAX_CHUNKS
    && stream == Encode(cs, last, trailer) + more
  }

  lemma {:induction false} EncodedDecodes(stream: string, looks: iset<nat>)
    ensures forall cs, last, trailer, more :: Encodes(stream, cs, last, trailer, more) ==>
              Decode(stream, "", 0, looks) == Body(AllData(cs))
  {
    hide Decode, ValidChunk, ValidEnd, Encode;
    forall cs, last, trailer, more | Encodes(stream, cs, last, trailer, more)
      ensures Decode(stream, "", 0, looks) == Body(AllData(cs))
    {
      DecodesEncoding(cs, last, trailer, more, "", 0, looks);
      assert "" + AllData(cs) == AllData(cs);
    }
  }

  // What a chunked body is, of which `initial` came with the header and the rest as it was received.
  ghost function Received(initial: string, receives: seq<string>): Result {
    Decode(Stream(initial, 0, receives, 0), "", 0, Looks(receives))
  }

  // Reads a chunked body; the reader of the header stops at 64 KiB.
  method ReadChunked(initial: string, receives: seq<string>) returns (r: Result)
    requires ValidReceives(receives) && |initial| <= CHUNK_LIMIT
    ensures r == Received(initial, receives)
    ensures forall cs, last, trailer, more :: Encodes(Stream(initial, 0, receives, 0), cs, last, trailer, more) ==>
          r == Body(AllData(cs))
    ensures r.Body? ==> |r.text| <= MAX_BODY
  {
    hide Stream, Decode, Encodes, ValidReceives;
    ghost var s := Stream(initial, 0, receives, 0);
    var encoded, cursor: nat, next: nat, body, count: nat := initial, 0, 0, "", 0;
    var done := false;
    r := Failed(TooManyChunks);
    while !done && count < MAX_CHUNKS
      invariant count <= MAX_CHUNKS && |body| <= MAX_BODY
      invariant done ==> r == Received(initial, receives)
      invariant !done ==>
        && r == Failed(TooManyChunks) && next <= |receives| && cursor <= |encoded| <= CHUNK_LIMIT && cursor < MAX_HEADER
        && NothingMissed(|Stream(encoded, cursor, receives, next)|, receives, next)
        && Remaining(encoded, cursor, receives, next, body, count) == Received(initial, receives)
      decreases MAX_CHUNKS - count, !done
    {
      done, r, encoded, cursor, body, next := ReadChunk(encoded, cursor, body, receives, next, count);
      if !done {
        r := Failed(TooManyChunks);
      }
      count := count + 1;
    }
    if !done {
      TooMany(encoded, cursor, receives, next, body);
    }
    EncodedDecodes(s, Looks(receives));
  }

  lemma {:induction false} TooMany(encoded: string, cursor: nat, receives: seq<string>, next: nat, body: string)
    requires cursor <= |encoded| && next <= |receives| && |body| <= MAX_BODY
    ensures Remaining(encoded, cursor, receives, next, body, MAX_CHUNKS) == Failed(TooManyChunks)
  {
    hide Stream, Refused, ParseSize;
  }

  // Reads a body of a declared length.
  method ReadFixed(initial: string, length: nat, receives: seq<string>) returns (r: Result)
    requires ValidReceives(receives)
    ensures var s := Stream(initial, 0, receives, 0);
            r == if |s| < length then Failed(ReadFailed) else Body(s[..length])
  {
    hide Stream, ValidReceives;
    ghost var s := Stream(initial, 0, receives, 0);
    var body, next := initial, 0;
    while |body| < length && next < |receives|
      invariant next <= |receives| && Stream(body, 0, receives, next) == s
    {
      ReceiveKeepsStream(body, 0, receives, next);
      body := body + receives[next];
      next := next + 1;
    }
    r := if |body| < length then Failed(ReadFailed) else Body(if |body| > length then body[..length] else body);
  }
}
