/** What one call of the dispatcher does to the queue (Source/McpDispatcher.cpp:33-131), command by command. */
module DispatcherSteps {
  import opened Dispatcher

  // ----- processing

  // The commands that time out now, in order, and those that do not.
  function Late(q: seq<Command>, now: int): seq<Job> {
    if q == [] then []
    else (if q[0].deadline <= now then [Job(q[0], TimedOut(now))] else []) + Late(q[1..], now)
  }

  function InTime(q: seq<Command>, now: int): seq<Command> {
    if q == [] then [] else (if q[0].deadline <= now then [] else [q[0]]) + InTime(q[1..], now)
  }

  // In one pass from the front: late commands time out, those that still need an approval stay, and
  // the first that does not is run, after whatever else is late behind it.
  function Processed(q: seq<Command>, now: int): (seq<Job>, seq<Command>) {
    if q == [] then ([], [])
    else
      var c, others := q[0], Processed(q[1..], now);
      if c.deadline <= now then ([Job(c, TimedOut(now))] + others.0, others.1)
      else if c.requiresApproval && !c.approved then (others.0, [c] + others.1)
      else (Late(q[1..], now) + [Job(c, Ran(now))], InTime(q[1..], now))
  }

  lemma {:induction false} LateConcat(a: seq<Command>, b: seq<Command>, now: int)
    ensures Late(a + b, now) == Late(a, now) + Late(b, now) && InTime(a + b, now) == InTime(a, now) + InTime(b, now)
  {
    hide Late, InTime;
    if a == [] {
      assert a + b == b;
      NoneLate(now);
    } else {
      var c, rest := a[0], a[1..];
      LateConcat(rest, b, now);
      assert a == [c] + rest && a + b == [c] + (rest + b);
      LateFirst(c, rest, now);
      LateFirst(c, rest + b, now);
    }
  }

  lemma NoneLate(now: int)
    ensures Late([], now) == [] && InTime([], now) == []
  {
  }

  lemma LateFirst(c: Command, q: seq<Command>, now: int)
    ensures Late([c] + q, now) == (if c.deadline <= now then [Job(c, TimedOut(now))] else []) + Late(q, now)
    ensures InTime([c] + q, now) == (if c.deadline <= now then [] else [c]) + InTime(q, now)
  {
    assert ([c] + q)[1..] == q;
  }

  lemma {:induction false} ExpiryIs(q: seq<Command>, now: int)
    ensures Expired(q, now) == Late(q, now) && Unexpired(q, now) == InTime(q, now)
  {
    if q != [] {
      var n := |q| - 1;
      ExpiryIs(q[..n], now);
      LateConcat(q[..n], [q[n]], now);
      assert q[..n] + [q[n]] == q && [q[n]][1..] == [];
    }
  }

  lemma {:induction false} FirstReadyBehind(c: Command, q: seq<Command>)
    ensures FirstReady([c] + q) == if c.requiresApproval && !c.approved then 1 + FirstReady(q) else 0
  {
    hide FirstReady;
    var i, j := FirstReady([c] + q), FirstReady(q);
    if c.requiresApproval && !c.approved {
      assert forall k :: 0 <= k < |q| ==> ([c] + q)[k + 1] == q[k];
    } else {
      assert ([c] + q)[0] == c;
    }
  }

  // What is taken from a queue in which nothing is late.
  function Taken(q: seq<Command>): seq<Command> {
    if FirstReady(q) < |q| then [q[FirstReady(q)]] else []
  }

  lemma TakenBehind(c: Command, q: seq<Command>)
    ensures var waits := c.requiresApproval && !c.approved;
            && Taken([c] + q) == (if waits then Taken(q) else [c])
            && Without([c] + q, FirstReady([c] + q)) == if waits then [c] + Without(q, FirstReady(q)) else q
  {
    hide FirstReady;
    FirstReadyBehind(c, q);
    var all, i := [c] + q, FirstReady(q);
    if c.requiresApproval && !c.approved {
      if i < |q| {
        assert all[i + 1] == q[i] && all[..i + 1] == [c] + q[..i] && all[i + 2..] == q[i + 1..];
      }
    } else {
      assert all[..0] + all[1..] == q;
    }
  }

  lemma ByTaken(q: seq<Command>, now: int)
    ensures var left := InTime(q, now);
            && AfterProcess(q, now) == Without(left, FirstReady(left))
            && ProcessJobs(q, now) == Late(q, now) + if Taken(left) == [] then [] else [Job(Taken(left)[0], Ran(now))]
  {
    hide Expired, Unexpired, FirstReady, Without;
    ExpiryIs(q, now);
  }

  lemma {:induction false} ProcessIs(q: seq<Command>, now: int)
    ensures ProcessJobs(q, now) == Processed(q, now).0 && AfterProcess(q, now) == Processed(q, now).1
  {
    hide AfterProcess, ProcessJobs, FirstReady, Taken, Without;
    ByTaken(q, now);
    if q != [] {
      ProcessIs(q[1..], now);
      ByTaken(q[1..], now);
      var left := InTime(q[1..], now);
      TakenBehind(q[0], left);
      assert InTime(q, now) == if q[0].deadline <= now then left else [q[0]] + left;
      assert Late(q, now) == if q[0].deadline <= now then [Job(q[0], TimedOut(now))] + Late(q[1..], now)
                             else Late(q[1..], now);
    } else {
      NoneTaken();
    }
  }

  lemma NoneTaken()
    ensures Taken([]) == [] && Without([], FirstReady([])) == []
  {
  }

  // ----- approving and cancelling

  predicate DistinctIds(q: seq<Command>) {
    forall a, b :: 0 <= a < b < |q| ==> q[a].id != q[b].id
  }

  // In every interleaving the ids in the queue differ.
  lemma {:induction false} IdsAreDistinct(events: seq<Event>)
    ensures DistinctIds(Run(events).queue)
  {
    hide Run;
    var s := Run(events);
    forall a, b | 0 <= a < b < |s.queue| ensures s.queue[a].id != s.queue[b].id {
      ExactlyOnePlace(events, s.queue[a].id);
      QueuedIsAPlace(s, s.queue[a].id);
      if s.queue[a].id == s.queue[b].id {
        CountedTwice(s.queue, a, b, s.queue[a].id);
      }
    }
  }

  lemma QueuedIsAPlace(s: State, id: nat)
    ensures InQueue(s.queue, id) <= Places(s, id)
  {
  }

  lemma {:induction false} CountedTwice(q: seq<Command>, a: nat, b: nat, id: nat)
    requires a < b < |q| && q[a].id == q[b].id == id
    ensures InQueue(q, id) >= 2
  {
    if b < |q| - 1 {
      CountedTwice(q[..|q| - 1], a, b, id);
    } else {
      CountedOnce(q[..b], a, id);
    }
  }

  lemma {:induction false} CountedOnce(q: seq<Command>, a: nat, id: nat)
    requires a < |q| && q[a].id == id
    ensures InQueue(q, id) >= 1
  {
    if a < |q| - 1 {
      CountedOnce(q[..|q| - 1], a, id);
    }
  }

  lemma {:induction false} FoundById(q: seq<Command>, k: nat)
    requires DistinctIds(q) && k < |q|
    ensures IndexOf(q, q[k].id) == k
  {
    hide IndexOf;
  }

  // An approval marks the command with its id, and a cancellation takes it out; neither does
  // anything else, and nothing when there is no such command.
  lemma {:induction false} ApproveMarks(q: seq<Command>, k: nat)
    requires DistinctIds(q) && k < |q|
    ensures Approved(q, q[k].id) == q[..k] + [q[k].(approved := true)] + q[k + 1..]
  {
    hide IndexOf;
    FoundById(q, k);
  }

  lemma {:induction false} CancelTakes(q: seq<Command>, k: nat, text: string)
    requires DistinctIds(q) && k < |q|
    ensures AfterCancel(q, q[k].id) == q[..k] + q[k + 1..]
    ensures CancelJobs(q, q[k].id, text) == [Job(q[k], Cancelled(text))]
  {
    hide IndexOf;
    FoundById(q, k);
  }

  lemma {:induction false} UnknownIds(q: seq<Command>, id: nat, text: string)
    requires forall k :: 0 <= k < |q| ==> q[k].id != id
    ensures Approved(q, id) == AfterCancel(q, id) == q && CancelJobs(q, id, text) == []
  {
    hide IndexOf;
  }

  lemma {:induction false} AllAreCancelled(q: seq<Command>, text: string)
    ensures |AllCancelled(q, text)| == |q|
    ensures forall k :: 0 <= k < |q| ==> AllCancelled(q, text)[k] == Job(q[k], Cancelled(text))
  {
    if q != [] {
      AllAreCancelled(q[..|q| - 1], text);
    }
  }

  // So an approval lets a command run: the only one in the queue that is in time and not waiting is
  // run by the next call.
  lemma {:induction false} ApprovedRunsNext(q: seq<Command>, k: nat, now: int)
    requires DistinctIds(q) && k < |q| && q[k].deadline > now
    requires forall j :: 0 <= j < |q| && j != k ==> q[j].requiresApproval && !q[j].approved
    ensures Job(q[k].(approved := true), Ran(now)) in ProcessJobs(Approved(q, q[k].id), now)
  {
    hide Approved, ProcessJobs;
    ApproveMarks(q, k);
    var marked := Approved(q, q[k].id);
    ProcessIs(marked, now);
    RunsBehind(marked, k, now);
  }

  lemma {:induction false} RunsBehind(q: seq<Command>, k: nat, now: int)
    requires k < |q| && q[k].deadline > now && (q[k].requiresApproval ==> q[k].approved)
    requires forall j :: 0 <= j < k ==> q[j].requiresApproval && !q[j].approved
    ensures Job(q[k], Ran(now)) in Processed(q, now).0
  {
    if k > 0 {
      RunsBehind(q[1..], k - 1, now);
    }
  }
}
