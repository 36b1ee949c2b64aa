/** One-time approvals of tool calls, ApprovalGrantBroker (Source/McpServer.cpp:91-113, 788-919): the
    broker as a class, and all interleavings of the calls made to it. SHA-256 is a function `hash`;
    a result that needs it supposes no collision among the texts of the run. */
module ApprovalGrants {
  import opened Options
  import opened CanonicalJson

  // Times are in nanoseconds on a steady clock.
  const LIFETIME := 30_000_000_000
  const MAX_GRANTS := 64

  datatype Record = Record(session: string, tool: string, argumentsHash: string, expiresAt: int)

  // The pending approvals, by the hash of their grant.
  type Records = map<string, Record>

  // ----- bindings

  predicate IsBindingChar(c: char) {
    || 'a' <= c <= 'z' || 'A' <= c <= 'Z' || '0' <= c <= '9'
    || c == '.' || c == '_' || c == ':' || c == '-'
  }

  predicate IsBindingText(s: string, most: nat) {
    s != "" && |s| <= most && forall i :: 0 <= i < |s| ==> IsBindingChar(s[i])
  }

  predicate IsLowerHexSha256(s: string) {
    |s| == 64 && forall i :: 0 <= i < |s| ==> '0' <= s[i] <= '9' || 'a' <= s[i] <= 'f'
  }

  predicate ValidBinding(session: string, tool: string, argumentsHash: string) {
    && IsBindingText(session, 128) && IsBindingText(tool, 128)
    && "lookdevpt." <= tool && IsLowerHexSha256(argumentsHash)
  }

  // ----- the broker's steps

  datatype IssueResult = Issued | InvalidBinding | TooManyPending

  function Pruned(records: Records, now: int): Records {
    map k | k in records && records[k].expiresAt > now :: records[k]
  }

  // A hash that is already present keeps its record.
  function Added(records: Records, grantHash: string, record: Record): Records {
    if grantHash in records then records else records[grantHash := record]
  }

  function IssueOutcome(records: Records, now: int, session: string, tool: string, argumentsHash: string): IssueResult {
    if !ValidBinding(session, tool, argumentsHash) then InvalidBinding
    else if |Pruned(records, now)| >= MAX_GRANTS then TooManyPending
    else Issued
  }

  function AfterIssue(records: Records, now: int, grantHash: string, session: string, tool: string,
        argumentsHash: string): Records {
    match IssueOutcome(records, now, session, tool, argumentsHash)
    case InvalidBinding => records
    case TooManyPending => Pruned(records, now)
    case Issued => Added(Pruned(records, now), grantHash, Record(session, tool, argumentsHash, now + LIFETIME))
  }

  // A call takes its record out whether or not it will be approved.
  function Taken(records: Records, grant: string, hash: string -> string): Option<Record> {
    if |grant| == 64 && hash(grant) in records then Some(records[hash(grant)]) else None
  }

  function AfterTake(records: Records, grant: string, hash: string -> string): Records {
    if |grant| == 64 then records - {hash(grant)} else records
  }

  predicate Approves(record: Record, session: string, tool: string, arguments: Json, now: int, hash: string -> string) {
    && IsBindingText(session, 128) && IsBindingText(tool, 128)
    && CanonicalText(arguments).Some?
    && record.expiresAt > now && record.session == session && record.tool == tool
    && record.argumentsHash == hash(CanonicalText(arguments).value)
  }

  class ApprovalGrantBroker {
    const hash: string -> string
    var records: Records

    constructor (hash: string -> string)
      ensures this.hash == hash && records == map[]
    {
      this.hash := hash;
      records := map[];
    }

    method Issue(grant: string, session: string, tool: string, argumentsHash: string, now: int)
          returns (outcome: IssueResult)
      modifies this
      ensures outcome == IssueOutcome(old(records), now, session, tool, argumentsHash)
      ensures records == AfterIssue(old(records), now, hash(grant), session, tool, argumentsHash)
    {
      if !ValidBinding(session, tool, argumentsHash) {
        return InvalidBinding;
      }
      RemoveExpired(now);
      if |records| >= MAX_GRANTS {
        return TooManyPending;
      }
      if hash(grant) !in records {
        records := records[hash(grant) := Record(session, tool, argumentsHash, now + LIFETIME)];
      }
      outcome := Issued;
    }

    method RemoveExpired(now: int)
      modifies this
      ensures records == Pruned(old(records), now)
    {
      var left := records.Keys;
      while left != {}
        invariant left <= records.Keys <= old(records).Keys
        invariant forall k :: k in records ==>
              records[k] == old(records)[k] && (k in left || records[k].expiresAt > now)
        invariant forall k :: k in old(records) && old(records)[k].expiresAt > now ==> k in records
        decreases |left|
      {
        var k :| k in left;
        left := left - {k};
        if records[k].expiresAt <= now {
          records := records - {k};
        }
      }
    }

    // The part of a call that holds the lock.
    method Take(grant: string) returns (record: Option<Record>)
      modifies this
      ensures record == Taken(old(records), grant, hash)
      ensures records == AfterTake(old(records), grant, hash)
    {
      record := None;
      if |grant| == 64 && hash(grant) in records {
        record := Some(records[hash(grant)]);
        records := records - {hash(grant)};
      }
    }

    method Consume(grant: string, session: string, tool: string, arguments: Json, now: int) returns (approved: bool)
      modifies this
      ensures var record := Taken(old(records), grant, hash);
              approved == (record.Some? && Approves(record.value, session, tool, arguments, now, hash))
      ensures records == AfterTake(old(records), grant, hash)
    {
      var record := Take(grant);
      approved := record.Some? && Approves(record.value, session, tool, arguments, now, hash);
    }

    method RevokeAll()
      modifies this
      ensures records == map[]
    {
      records := map[];
    }
  }

  // ----- interleavings

  // A call under way holds the record it took; the lock is free between taking and deciding.
  datatype Call =
    | Deciding(grant: string, session: string, tool: string, arguments: Json, record: Record)
    | Approved(grant: string, session: string, tool: string, arguments: Json, record: Record, at: int)
    | Refused

  datatype State = State(records: Records, calls: seq<Call>)

  datatype Event =
    | Issue(grant: string, session: string, tool: string, argumentsHash: string, now: int)
    | Take(grant: string, session: string, tool: string, arguments: Json)
    | Decide(call: nat, now: int)
    | RevokeAll

  function Next(s: State, e: Event, hash: string -> string): State {
    match e
    case Issue(grant, session, tool, argumentsHash, now) =>
      s.(records := AfterIssue(s.records, now, hash(grant), session, tool, argumentsHash))
    case Take(grant, session, tool, arguments) =>
      var record := Taken(s.records, grant, hash);
      State(AfterTake(s.records, grant, hash),
            s.calls + [if record.None? then Refused else Deciding(grant, session, tool, arguments, record.value)])
    case Decide(i, now) =>
      if i >= |s.calls| || !s.calls[i].Deciding? then s
      else
        var c := s.calls[i];
        s.(calls := s.calls[i := if Approves(c.record, c.session, c.tool, c.arguments, now, hash)
                                 then Approved(c.grant, c.session, c.tool, c.arguments, c.record, now) else Refused])
    case RevokeAll => s.(records := map[])
  }

  function Run(events: seq<Event>, hash: string -> string): State {
    if events == [] then State(map[], []) else Next(Run(events[..|events| - 1], hash), events[|events| - 1], hash)
  }

  // ----- at most 64 records

  lemma {:induction false} AtMostSixtyFour(events: seq<Event>, hash: string -> string)
    ensures |Run(events, hash).records| <= 64
  {
    if events != [] {
      var before, e := events[..|events| - 1], events[|events| - 1];
      AtMostSixtyFour(before, hash);
      var r := Run(before, hash).records;
      match e
      case Issue(_, _, _, _, now) => FewerKeys(Pruned(r, now), r);
      case Take(grant, _, _, _) => FewerKeys(AfterTake(r, grant, hash), r);
      case _ =>
    }
  }

  lemma FewerKeys(small: Records, large: Records)
    requires small.Keys <= large.Keys
    ensures |small| <= |large|
  {
    Subset(small.Keys, large.Keys);
  }

  lemma {:induction false} Subset(a: set<string>, b: set<string>)
    requires a <= b
    ensures |a| <= |b|
  {
    assert b == a + (b - a);
  }

  // ----- what an approval rests on

  // Event i issued this record and nothing was revoked since, up to event n.
  predicate IssuedAt(events: seq<Event>, n: nat, i: nat, grantHash: string, r: Record, hash: string -> string) {
    && i < n <= |events| && events[i].Issue?
    && hash(events[i].grant) == grantHash
    && ValidBinding(r.session, r.tool, r.argumentsHash)
    && r == Record(events[i].session, events[i].tool, events[i].argumentsHash, events[i].now + LIFETIME)
    && forall k :: i < k < n ==> !events[k].RevokeAll?
  }

  // Event t took that record for this call.
  predicate Granted(events: seq<Event>, t: nat, i: nat, c: Call, hash: string -> string) {
    && t < |events| && !c.Refused? && |c.grant| == 64
    && events[t] == Take(c.grant, c.session, c.tool, c.arguments)
    && IssuedAt(events, t, i, hash(c.grant), c.record, hash)
  }

  ghost predicate Accounted(events: seq<Event>, s: State, hash: string -> string) {
    && (forall h :: h in s.records ==> exists i :: IssuedAt(events, |events|, i, h, s.records[h], hash))
    && (forall j :: 0 <= j < |s.calls| && !s.calls[j].Refused? ==>
        exists t, i :: Granted(events, t, i, s.calls[j], hash))
    && (forall j :: 0 <= j < |s.calls| && s.calls[j].Approved? ==>
          var c := s.calls[j]; Approves(c.record, c.session, c.tool, c.arguments, c.at, hash))
  }

  lemma {:induction false} StillIssued(before: seq<Event>, e: Event, n: nat, i: nat, h: string, r: Record,
        hash: string -> string)
    requires IssuedAt(before, n, i, h, r, hash)
    ensures IssuedAt(before + [e], n, i, h, r, hash)
    ensures n == |before| && !e.RevokeAll? ==> IssuedAt(before + [e], n + 1, i, h, r, hash)
  {
  }

  lemma {:induction false} StillGranted(before: seq<Event>, e: Event, t: nat, i: nat, c: Call, hash: string -> string)
    requires Granted(before, t, i, c, hash)
    ensures Granted(before + [e], t, i, c, hash)
  {
    hide IssuedAt;
    StillIssued(before, e, t, i, hash(c.grant), c.record, hash);
  }

  // A record there after a step was there before, or the step issued it; a revocation leaves none.
  lemma {:induction false} StepKeepsOrIssues(s: State, e: Event, hash: string -> string)
    ensures var t := Next(s, e, hash);
            && (e.RevokeAll? ==> t.records == map[])
            && forall h :: h in t.records ==>
                 (h in s.records && t.records[h] == s.records[h]) || JustIssues(e, h, t.records[h], hash)
  {
    hide Approves, ValidBinding, CanonicalText;
  }

  predicate JustIssues(e: Event, h: string, r: Record, hash: string -> string) {
    && e.Issue? && hash(e.grant) == h && ValidBinding(r.session, r.tool, r.argumentsHash)
    && r == Record(e.session, e.tool, e.argumentsHash, e.now + LIFETIME)
  }

  lemma {:induction false} JustIssued(before: seq<Event>, e: Event, h: string, r: Record, hash: string -> string)
    requires JustIssues(e, h, r, hash)
    ensures IssuedAt(before + [e], |before + [e]|, |before|, h, r, hash)
  {
    hide ValidBinding;
  }

  lemma {:induction false} RecordsAccounted(before: seq<Event>, e: Event, s: State, hash: string -> string)
    requires Accounted(before, s, hash)
    ensures forall h :: h in Next(s, e, hash).records ==>
              exists i :: IssuedAt(before + [e], |before + [e]|, i, h, Next(s, e, hash).records[h], hash)
  {
    hide Approves, Granted, IssuedAt, IssueOutcome, Taken, Pruned, AfterIssue, AfterTake;
    var t := Next(s, e, hash);
    StepKeepsOrIssues(s, e, hash);
    forall h | h in t.records ensures exists i :: IssuedAt(before + [e], |before + [e]|, i, h, t.records[h], hash) {
      if h in s.records && t.records[h] == s.records[h] {
        var i :| IssuedAt(before, |before|, i, h, s.records[h], hash);
        StillIssued(before, e, |before|, i, h, s.records[h], hash);
      } else {
        JustIssued(before, e, h, t.records[h], hash);
      }
    }
  }

  lemma {:induction false} CallsGranted(before: seq<Event>, e: Event, s: State, hash: string -> string)
    requires Accounted(before, s, hash)
    ensures forall j :: 0 <= j < |Next(s, e, hash).calls| && !Next(s, e, hash).calls[j].Refused? ==>
              exists t, i :: Granted(before + [e], t, i, Next(s, e, hash).calls[j], hash)
  {
    hide Approves, IssuedAt, IssueOutcome, AfterIssue;
    var calls := Next(s, e, hash).calls;
    forall j | 0 <= j < |calls| && !calls[j].Refused?
      ensures exists t, i :: Granted(before + [e], t, i, calls[j], hash)
    {
      if j < |s.calls| {
        var t, i :| Granted(before, t, i, s.calls[j], hash);
        SameGrant(before, t, i, s.calls[j], calls[j], hash);
        StillGranted(before, e, t, i, calls[j], hash);
      } else {
        var i :| IssuedAt(before, |before|, i, hash(e.grant), calls[j].record, hash);
        StillIssued(before, e, |before|, i, hash(e.grant), calls[j].record, hash);
        assert Granted(before + [e], |before|, i, calls[j], hash);
      }
    }
  }

  lemma SameGrant(before: seq<Event>, t: nat, i: nat, c: Call, d: Call, hash: string -> string)
    requires Granted(before, t, i, c, hash) && !d.Refused?
    requires d == c
          || (d.grant == c.grant && d.session == c.session && d.tool == c.tool && d.arguments == c.arguments
          && d.record == c.record)
    ensures Granted(before, t, i, d, hash)
  {
  }

  lemma {:induction false} AllAccounted(events: seq<Event>, hash: string -> string)
    ensures Accounted(events, Run(events, hash), hash)
  {
    hide IssuedAt, Granted, Approves, Taken, AfterTake, AfterIssue;
    if events != [] {
      var before, e := events[..|events| - 1], events[|events| - 1];
      var s := Run(before, hash);
      AllAccounted(before, hash);
      assert before + [e] == events;
      RecordsAccounted(before, e, s, hash);
      CallsGranted(before, e, s, hash);
    }
  }

  // The hash tells these texts apart.
  ghost predicate NoCollision(hash: string -> string, texts: set<string>) {
    forall x, y :: x in texts && y in texts && hash(x) == hash(y) ==> x == y
  }

  // They include all grants and all argument texts of the run.
  predicate HasGrants(events: seq<Event>, texts: set<string>) {
    forall k :: 0 <= k < |events| && (events[k].Issue? || events[k].Take?) ==> events[k].grant in texts
  }

  predicate HasArguments(events: seq<Event>, texts: set<string>) {
    forall k :: 0 <= k < |events| && events[k].Take? ==> Text(events[k].arguments) in texts
  }

  // In every interleaving an approved call presents a grant that was issued before, for this
  // session and tool and for arguments equal to these up to member order, whose thirty seconds are
  // not over and that was not revoked before the call took it.
  lemma {:induction false} ApprovedWasIssued(events: seq<Event>, hash: string -> string, texts: set<string>, j: nat)
        returns (i: nat, t: nat)
    requires NoCollision(hash, texts) && HasGrants(events, texts) && HasArguments(events, texts)
    requires j < |Run(events, hash).calls| && Run(events, hash).calls[j].Approved?
    ensures var c := Run(events, hash).calls[j];
            && i < t < |events| && events[t] == Take(c.grant, c.session, c.tool, c.arguments)
            && events[i].Issue? && events[i].grant == c.grant
            && events[i].session == c.session && events[i].tool == c.tool
            && c.at < events[i].now + 30_000_000_000
            && (forall k :: i < k < t ==> !events[k].RevokeAll?)
            && forall intended ::
                 Valid(intended) && Valid(c.arguments) && Text(intended) in texts
                 && events[i].argumentsHash == hash(Text(intended)) ==>
                   Same(intended, c.arguments)
  {
    hide Text, Valid, Same, IsBindingText, ValidBinding;
    AllAccounted(events, hash);
    var c := Run(events, hash).calls[j];
    t, i :| Granted(events, t, i, c, hash);
    forall intended | Valid(intended) && Valid(c.arguments) && Text(intended) in texts
          && events[i].argumentsHash == hash(Text(intended))
      ensures Same(intended, c.arguments)
    {
      assert hash(Text(c.arguments)) == hash(Text(intended));
      CanonicalExactly(intended, c.arguments);
    }
  }

  // ----- one use for each issue

  function Issues(events: seq<Event>, h: string, hash: string -> string): nat {
    if events == [] then 0
    else
      var e := events[|events| - 1];
      Issues(events[..|events| - 1], h, hash) + if e.Issue? && hash(e.grant) == h then 1 else 0
  }

  function Use(c: Call, h: string, hash: string -> string): nat {
    if !c.Refused? && hash(c.grant) == h then 1 else 0
  }

  function Uses(calls: seq<Call>, h: string, hash: string -> string): nat {
    if calls == [] then 0 else Uses(calls[..|calls| - 1], h, hash) + Use(calls[|calls| - 1], h, hash)
  }

  lemma {:induction false} UsesUpdated(calls: seq<Call>, i: nat, c: Call, h: string, hash: string -> string)
    requires i < |calls|
    ensures Uses(calls[i := c], h, hash) == Uses(calls, h, hash) - Use(calls[i], h, hash) + Use(c, h, hash)
  {
    var n := |calls| - 1;
    if i < n {
      UsesUpdated(calls[..n], i, c, h, hash);
      assert calls[i := c][..n] == calls[..n][i := c];
    } else {
      assert calls[i := c][..n] == calls[..n];
    }
  }

  function Live(records: Records, h: string): nat {
    if h in records then 1 else 0
  }

  lemma {:induction false} UsesAtMostIssues(events: seq<Event>, h: string, hash: string -> string)
    ensures Uses(Run(events, hash).calls, h, hash) + Live(Run(events, hash).records, h) <= Issues(events, h, hash)
  {
    hide Approves, IssueOutcome;
    if events != [] {
      var before, e := events[..|events| - 1], events[|events| - 1];
      var s := Run(before, hash);
      UsesAtMostIssues(before, h, hash);
      match e
      case Take(_, _, _, _) =>
        var t := Next(s, e, hash);
        assert t.calls[..|s.calls|] == s.calls;
      case Decide(i, _) => if i < |s.calls| { UsesUpdated(s.calls, i, Next(s, e, hash).calls[i], h, hash); }
      case _ =>
    }
  }

  lemma {:induction false} OneUse(calls: seq<Call>, j: nat, h: string, hash: string -> string)
    requires j < |calls| && Use(calls[j], h, hash) == 1
    ensures Uses(calls, h, hash) >= 1
  {
    UsesUpdated(calls, j, Refused, h, hash);
  }

  lemma {:induction false} TwoUses(calls: seq<Call>, j: nat, k: nat, h: string, hash: string -> string)
    requires j < k < |calls| && Use(calls[j], h, hash) == 1 && Use(calls[k], h, hash) == 1
    ensures Uses(calls, h, hash) >= 2
  {
    UsesUpdated(calls, k, Refused, h, hash);
    OneUse(calls[k := Refused], j, h, hash);
  }

  predicate IssuesGrant(events: seq<Event>, i: nat, grant: string) {
    i < |events| && events[i].Issue? && events[i].grant == grant
  }

  lemma {:induction false} SomeIssue(events: seq<Event>, h: string, hash: string -> string) returns (i: nat)
    requires Issues(events, h, hash) >= 1
    ensures i < |events| && events[i].Issue? && hash(events[i].grant) == h
    ensures Issues(events[..i], h, hash) == Issues(events, h, hash) - 1
  {
    var n := |events| - 1;
    var e := events[n];
    if e.Issue? && hash(e.grant) == h {
      i := n;
    } else {
      i := SomeIssue(events[..n], h, hash);
      assert events[..n][..i] == events[..i];
    }
  }

  // Two approvals of one grant need two issues of it: random grants are never issued twice, so
  // each approves at most one call.
  lemma {:induction false} ApprovesOncePerIssue(events: seq<Event>, hash: string -> string, texts: set<string>,
        j: nat, k: nat)
    requires NoCollision(hash, texts) && HasGrants(events, texts) && j < k < |Run(events, hash).calls|
    requires Run(events, hash).calls[j].Approved? && Run(events, hash).calls[k].Approved?
    requires Run(events, hash).calls[j].grant == Run(events, hash).calls[k].grant
    ensures var grant := Run(events, hash).calls[j].grant;
            exists x, y :: x != y && IssuesGrant(events, x, grant) && IssuesGrant(events, y, grant)
  {
    hide Run, IssuedAt, Approves;
    var calls := Run(events, hash).calls;
    var g := calls[j].grant;
    AllAccounted(events, hash);
    var taken, issued :| Granted(events, taken, issued, calls[j], hash);
    UsesAtMostIssues(events, hash(g), hash);
    TwoUses(calls, j, k, hash(g), hash);
    var y := SomeIssue(events, hash(g), hash);
    var x := SomeIssue(events[..y], hash(g), hash);
    assert IssuesGrant(events, x, g) && IssuesGrant(events, y, g);
  }

  // ----- what is accepted

  // Digits, letters, the full stop, the underscore, the colon and the hyphen, by their codes.
  predicate IsBindingCode(code: nat) {
    48 <= code <= 57 || 65 <= code <= 90 || 97 <= code <= 122 || code == 46 || code == 95 || code == 58 || code == 45
  }

  predicate IsHashCode(code: nat) {
    48 <= code <= 57 || 97 <= code <= 102
  }

  // A session and a tool of the server, of at most 128 such characters, and 64 hexadecimal digits.
  lemma {:induction false} BindingsAre(session: string, tool: string, argumentsHash: string)
    ensures ValidBinding(session, tool, argumentsHash) <==>
              && 1 <= |session| <= 128 && (forall i :: 0 <= i < |session| ==> IsBindingCode(session[i] as nat))
              && "lookdevpt." <= tool && |tool| <= 128
              && (forall i :: 0 <= i < |tool| ==> IsBindingCode(tool[i] as nat))
              && |argumentsHash| == 64
              && (forall i :: 0 <= i < |argumentsHash| ==> IsHashCode(argumentsHash[i] as nat))
  {
    assert forall c: char :: IsBindingChar(c) <==> IsBindingCode(c as nat);
  }

  // A call is approved exactly when its record is of this session and tool, not over, and for the hash
  // of these arguments' canonical text.
  lemma {:induction false} ApprovesExactly(r: Record, session: string, tool: string, arguments: Json, now: int,
        hash: string -> string)
    requires Valid(arguments) && ValidBinding(session, tool, r.argumentsHash)
    ensures Approves(r, session, tool, arguments, now, hash) <==>
              r.session == session && r.tool == tool && now < r.expiresAt && r.argumentsHash == hash(Text(arguments))
  {
    hide Text, Valid, IsBindingText;
    ValidIsPrinted(arguments);
  }

  // A grant that is not full is issued for thirty seconds, and taken with this record by the next call
  // that presents it.
  lemma {:induction false} IssuedIsTaken(records: Records, grant: string, session: string, tool: string,
        argumentsHash: string, now: int, hash: string -> string)
    requires ValidBinding(session, tool, argumentsHash) && |grant| == 64
    requires |Unexpired(records, now)| < 64 && hash(grant) !in records
    ensures IssueOutcome(records, now, session, tool, argumentsHash) == Issued
    ensures var after := AfterIssue(records, now, hash(grant), session, tool, argumentsHash);
            && Taken(after, grant, hash) == Some(Record(session, tool, argumentsHash, now + 30_000_000_000))
            && AfterTake(after, grant, hash).Keys == Unexpired(records, now)
  {
    hide ValidBinding;
    assert Pruned(records, now).Keys == Unexpired(records, now);
  }

  // A grant of another length takes nothing, and one that is issued a second time keeps its record.
  lemma {:induction false} OthersTakeNothing(records: Records, grant: string, hash: string -> string)
    ensures |grant| != 64 || hash(grant) !in records ==>
              Taken(records, grant, hash) == None && AfterTake(records, grant, hash) == records
    ensures |grant| == 64 && hash(grant) in records ==>
              && Taken(records, grant, hash) == Some(records[hash(grant)])
              && AfterTake(records, grant, hash) == map h | h in records && h != hash(grant) :: records[h]
  {
  }

  lemma {:induction false} FirstRecordStays(records: Records, grant: string, session: string, tool: string,
        argumentsHash: string, now: int, hash: string -> string)
    requires hash(grant) in Unexpired(records, now)
    ensures var after := AfterIssue(records, now, hash(grant), session, tool, argumentsHash);
            hash(grant) in after && after[hash(grant)] == records[hash(grant)]
  {
    hide ValidBinding;
  }

  function Unexpired(records: Records, now: int): set<string> {
    set h | h in records && now < records[h].expiresAt
  }

  // With 64 that are not over none is issued.
  lemma {:induction false} FullIsRefused(records: Records, session: string, tool: string, argumentsHash: string,
        now: int)
    requires ValidBinding(session, tool, argumentsHash) && |Unexpired(records, now)| >= 64
    ensures IssueOutcome(records, now, session, tool, argumentsHash) == TooManyPending
  {
    hide ValidBinding;
    assert Pruned(records, now).Keys == Unexpired(records, now);
  }
}
