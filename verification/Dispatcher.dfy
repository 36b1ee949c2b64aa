/** The queue of commands that need approval or wait their turn, mcp::Dispatcher
    (Source/McpDispatcher.cpp, McpDispatcher.h): its locked sections as functions, the class that
    carries them out, and every interleaving of the threads that use it. */
module Dispatcher {
  import opened Options

  const DEFAULT_LIMIT := 16

  datatype Command = Command(id: nat, request: string, requiresApproval: bool, approved: bool, deadline: int)

  // Why a command left the queue.
  datatype Reason = Ran(at: int) | TimedOut(at: int) | Cancelled(text: string)

  // A command some thread has taken out and has still to complete, or has completed.
  datatype Job = Job(command: Command, reason: Reason)

  // ----- the locked sections

  function Unexpired(q: seq<Command>, now: int): seq<Command> {
    if q == [] then []
    else Unexpired(q[..|q| - 1], now) + if q[|q| - 1].deadline <= now then [] else [q[|q| - 1]]
  }

  function Expired(q: seq<Command>, now: int): seq<Job> {
    if q == [] then []
    else Expired(q[..|q| - 1], now) + if q[|q| - 1].deadline <= now then [Job(q[|q| - 1], TimedOut(now))] else []
  }

  predicate Ready(c: Command) {
    !c.requiresApproval || c.approved
  }

  // The first command that may run, or the length.
  function FirstReady(q: seq<Command>): (i: nat)
    ensures i <= |q| && (i < |q| ==> Ready(q[i])) && forall j :: 0 <= j < i ==> !Ready(q[j])
  {
    if q == [] then 0
    else
      var i := FirstReady(q[..|q| - 1]);
      if i < |q| - 1 || Ready(q[|q| - 1]) then i else |q|
  }

  // The first command with this id, or the length.
  function IndexOf(q: seq<Command>, id: nat): (i: nat)
    ensures i <= |q| && (i < |q| ==> q[i].id == id) && forall j :: 0 <= j < i ==> q[j].id != id
  {
    if q == [] then 0
    else
      var i := IndexOf(q[..|q| - 1], id);
      if i < |q| - 1 || q[|q| - 1].id == id then i else |q|
  }

  function Without(q: seq<Command>, i: nat): seq<Command> {
    if i < |q| then q[..i] + q[i + 1..] else q
  }

  function Approved(q: seq<Command>, id: nat): seq<Command> {
    var i := IndexOf(q, id);
    if i < |q| then q[i := q[i].(approved := true)] else q
  }

  // Processing takes out what is expired, and then the first command that may run.
  function AfterProcess(q: seq<Command>, now: int): seq<Command> {
    var left := Unexpired(q, now);
    Without(left, FirstReady(left))
  }

  function ProcessJobs(q: seq<Command>, now: int): seq<Job> {
    var left := Unexpired(q, now);
    var i := FirstReady(left);
    Expired(q, now) + if i < |left| then [Job(left[i], Ran(now))] else []
  }

  function AfterCancel(q: seq<Command>, id: nat): seq<Command> {
    Without(q, IndexOf(q, id))
  }

  function CancelJobs(q: seq<Command>, id: nat, text: string): seq<Job> {
    var i := IndexOf(q, id);
    if i < |q| then [Job(q[i], Cancelled(text))] else []
  }

  function AllCancelled(q: seq<Command>, text: string): seq<Job> {
    if q == [] then [] else AllCancelled(q[..|q| - 1], text) + [Job(q[|q| - 1], Cancelled(text))]
  }

  // ----- the class

  class CommandDispatcher {
    var commands: seq<Command>
    var queueLimit: nat
    var nextId: nat
    // The promises that have been set, in order.
    var completed: seq<Job>

    constructor ()
      ensures commands == [] && queueLimit == DEFAULT_LIMIT && nextId == 1 && completed == []
    {
      commands, queueLimit, nextId, completed := [], DEFAULT_LIMIT, 1, [];
    }

    method Submit(request: string, requiresApproval: bool, deadline: int) returns (id: Option<nat>)
      modifies `commands, `nextId
      ensures if |old(commands)| >= queueLimit then id == None && commands == old(commands) && nextId == old(nextId)
              else
                && id == Some(old(nextId)) && nextId == old(nextId) + 1
                && commands == old(commands) + [Command(old(nextId), request, requiresApproval, false, deadline)]
    {
      if |commands| >= queueLimit {
        return None;
      }
      id := Some(nextId);
      commands := commands + [Command(nextId, request, requiresApproval, false, deadline)];
      nextId := nextId + 1;
    }

    method ExpireLocked(now: int) returns (expired: seq<Job>)
      modifies `commands
      ensures commands == Unexpired(old(commands), now) && expired == Expired(old(commands), now)
    {
      var left: seq<Command> := [];
      expired := [];
      for i := 0 to |commands|
        invariant commands == old(commands)
        invariant left == Unexpired(commands[..i], now) && expired == Expired(commands[..i], now)
      {
        assert commands[..i + 1][..i] == commands[..i];
        if commands[i].deadline <= now {
          expired := expired + [Job(commands[i], TimedOut(now))];
        } else {
          left := left + [commands[i]];
        }
      }
      assert commands[..|commands|] == commands;
      commands := left;
    }

    // The locked part of ProcessOne.
    method Select(now: int) returns (jobs: seq<Job>)
      modifies `commands
      ensures commands == AfterProcess(old(commands), now) && jobs == ProcessJobs(old(commands), now)
    {
      hide Unexpired, Expired, FirstReady;
      jobs := ExpireLocked(now);
      var i := 0;
      while i < |commands| && !Ready(commands[i])
        invariant i <= |commands| && commands == Unexpired(old(commands), now)
        invariant forall j :: 0 <= j < i ==> !Ready(commands[j])
      {
        i := i + 1;
      }
      assert i == FirstReady(commands);
      if i < |commands| {
        jobs := jobs + [Job(commands[i], Ran(now))];
        commands := commands[..i] + commands[i + 1..];
      }
    }

    method Complete(jobs: seq<Job>)
      modifies `completed
      ensures completed == old(completed) + jobs
    {
      for i := 0 to |jobs|
        invariant completed == old(completed) + jobs[..i]
      {
        completed := completed + [jobs[i]];
      }
    }

    method ProcessOne(now: int)
      modifies `commands, `completed
      ensures commands == AfterProcess(old(commands), now)
      ensures completed == old(completed) + ProcessJobs(old(commands), now)
    {
      var jobs := Select(now);
      Complete(jobs);
    }

    method Approve(id: nat)
      modifies `commands
      ensures commands == Approved(old(commands), id)
    {
      hide IndexOf;
      var i := 0;
      while i < |commands| && commands[i].id != id
        invariant i <= |commands| && commands == old(commands)
        invariant forall j :: 0 <= j < i ==> commands[j].id != id
      {
        i := i + 1;
      }
      assert i == IndexOf(commands, id);
      if i < |commands| {
        commands := commands[i := commands[i].(approved := true)];
      }
    }

    method Cancel(id: nat, text: string)
      modifies `commands, `completed
      ensures commands == AfterCancel(old(commands), id)
      ensures completed == old(completed) + CancelJobs(old(commands), id, text)
    {
      hide IndexOf;
      var i := 0;
      while i < |commands| && commands[i].id != id
        invariant i <= |commands|
        invariant forall j :: 0 <= j < i ==> commands[j].id != id
      {
        i := i + 1;
      }
      assert i == IndexOf(commands, id);
      if i < |commands| {
        var job := Job(commands[i], Cancelled(text));
        commands := commands[..i] + commands[i + 1..];
        completed := completed + [job];
      }
    }

    method Reject(id: nat, text: string)
      modifies `commands, `completed
      ensures commands == AfterCancel(old(commands), id)
      ensures completed == old(completed) +
                CancelJobs(old(commands), id, if text == "" then "MCP request was rejected." else text)
    {
      Cancel(id, if text == "" then "MCP request was rejected." else text);
    }

    method CancelAll(text: string)
      modifies `commands, `completed
      ensures commands == [] && completed == old(completed) + AllCancelled(old(commands), text)
    {
      var taken := commands;
      commands := [];
      for i := 0 to |taken|
        invariant commands == [] && completed == old(completed) + AllCancelled(taken[..i], text)
      {
        assert taken[..i + 1][..i] == taken[..i];
        completed := completed + [Job(taken[i], Cancelled(text))];
      }
      assert taken[..|taken|] == taken;
    }

    method SetQueueLimit(limit: nat)
      modifies `queueLimit
      ensures queueLimit == limit
    {
      queueLimit := limit;
    }

    // What an operator still has to decide about, in queue order.
    method PendingApprovals(now: int) returns (approvals: seq<Approval>)
      ensures approvals == Undecided(commands, now)
    {
      approvals := [];
      for i := 0 to |commands|
        invariant approvals == Undecided(commands[..i], now)
      {
        assert commands[..i + 1][..i] == commands[..i];
        if !Ready(commands[i]) {
          approvals := approvals
              + [Approval(commands[i].id, commands[i].request, Seconds(commands[i].deadline - now))];
        }
      }
      assert commands[..|commands|] == commands;
    }
  }

  // ----- what an operator sees

  const SECOND := 1_000_000_000

  // Whole seconds of a duration in nanoseconds, cut towards zero.
  function Seconds(duration: int): int {
    if duration >= 0 then duration / SECOND else -(-duration / SECOND)
  }

  datatype Approval = Approval(id: nat, request: string, secondsRemaining: int)

  function Undecided(q: seq<Command>, now: int): seq<Approval> {
    if q == [] then []
    else
      var c := q[|q| - 1];
      Undecided(q[..|q| - 1], now)
      + if Ready(c) then [] else [Approval(c.id, c.request, Seconds(c.deadline - now))]
  }

  lemma {:induction false} SecondsMean(duration: int)
    ensures -SECOND < duration - Seconds(duration) * SECOND < SECOND
    ensures Seconds(duration) > 0 ==> duration > 0
    ensures Seconds(duration) < 0 ==> duration < 0
  {
  }

  // It needs an approval and has none.
  predicate Waits(c: Command) {
    c.requiresApproval && !c.approved
  }

  lemma WaitsIs(c: Command)
    ensures Waits(c) <==> !Ready(c)
  {
  }

  // The entry is about this waiting command, and within a second of when it is due.
  predicate Shows(a: Approval, c: Command, now: int) {
    && Waits(c) && a.id == c.id && a.request == c.request
    && -1_000_000_000 < c.deadline - now - a.secondsRemaining * 1_000_000_000 < 1_000_000_000
    && (a.secondsRemaining > 0 ==> c.deadline > now)
  }

  lemma {:induction false} EntryShows(c: Command, now: int)
    requires !Ready(c)
    ensures Shows(Approval(c.id, c.request, Seconds(c.deadline - now)), c, now)
  {
    SecondsMean(c.deadline - now);
  }

  predicate Increasing(places: seq<nat>, below: nat) {
    && (forall a, b :: 0 <= a < b < |places| ==> places[a] < places[b])
    && (forall a :: 0 <= a < |places| ==> places[a] < below)
  }

  // The entries are about the commands at these places of the queue.
  predicate ShowsPlaces(list: seq<Approval>, places: seq<nat>, q: seq<Command>, now: int) {
    && |places| == |list| && Increasing(places, |q|)
    && forall a :: 0 <= a < |places| ==> Shows(list[a], q[places[a]], now)
  }

  predicate LeavesNoneOut(places: seq<nat>, q: seq<Command>) {
    forall k :: 0 <= k < |q| && Waits(q[k]) ==> k in places
  }

  lemma ShowsMore(list: seq<Approval>, places: seq<nat>, q: seq<Command>, c: Command, now: int)
    requires ShowsPlaces(list, places, q, now) && LeavesNoneOut(places, q)
    ensures ShowsPlaces(list, places, q + [c], now) && (!Waits(c) ==> LeavesNoneOut(places, q + [c]))
    ensures Waits(c) ==> LeavesNoneOut(places + [|q|], q + [c])
    ensures forall a: Approval :: Shows(a, c, now) ==> ShowsPlaces(list + [a], places + [|q|], q + [c], now)
  {
    hide Shows, Waits;
    var all, more := q + [c], places + [|q|];
    forall k | 0 <= k < |all| && Waits(all[k]) && k < |q| ensures k in places {
      assert all[k] == q[k];
    }
    assert more[|places|] == |q|;
  }

  lemma UndecidedMore(q: seq<Command>, c: Command, now: int)
    ensures Undecided(q + [c], now)
         == Undecided(q, now) + if Waits(c) then [Approval(c.id, c.request, Seconds(c.deadline - now))] else []
  {
    hide Seconds;
    assert (q + [c])[..|q|] == q;
  }

  // The list shows the waiting commands in queue order and leaves none out.
  lemma {:induction false} UndecidedShowsWaiting(q: seq<Command>, now: int) returns (places: seq<nat>)
    ensures ShowsPlaces(Undecided(q, now), places, q, now) && LeavesNoneOut(places, q)
  {
    hide Seconds, Shows, Ready, Waits, Undecided, ShowsPlaces, LeavesNoneOut;
    if q == [] {
      places := [];
      NoneShown(now);
    } else {
      var n := |q| - 1;
      var c, before := q[n], Undecided(q[..n], now);
      places := UndecidedShowsWaiting(q[..n], now);
      ShowsMore(before, places, q[..n], c, now);
      UndecidedMore(q[..n], c, now);
      assert q[..n] + [c] == q;
      if Waits(c) {
        WaitsIs(c);
        EntryShows(c, now);
        places := places + [n];
      } else {
        assert before + [] == before;
      }
    }
  }

  lemma NoneShown(now: int)
    ensures ShowsPlaces(Undecided([], now), [], [], now) && LeavesNoneOut([], [])
  {
  }

  // ----- interleavings

  // A thread between its locked section and its return holds the jobs it has still to complete.
  datatype Thread = Thread(processing: bool, left: seq<Job>)

  datatype State = State(queue: seq<Command>, nextId: nat, limit: nat, threads: seq<Thread>, done: seq<Job>)

  datatype Event =
    | Submit(request: string, requiresApproval: bool, deadline: int)
    | Process(now: int)
    | Approve(id: nat)
    | Cancel(id: nat, text: string)
    | CancelAll(text: string)
    | SetLimit(limit: nat)
    | Complete(thread: nat)

  const START := State([], 1, DEFAULT_LIMIT, [], [])

  function Next(s: State, e: Event): State {
    match e
    case Submit(request, requiresApproval, deadline) =>
      if |s.queue| >= s.limit then s
      else s.(queue := s.queue + [Command(s.nextId, request, requiresApproval, false, deadline)],
          nextId := s.nextId + 1)
    case Process(now) =>
      s.(queue := AfterProcess(s.queue, now), threads := s.threads + [Thread(true, ProcessJobs(s.queue, now))])
    case Approve(id) => s.(queue := Approved(s.queue, id))
    case Cancel(id, text) =>
      s.(queue := AfterCancel(s.queue, id), threads := s.threads + [Thread(false, CancelJobs(s.queue, id, text))])
    case CancelAll(text) =>
      s.(queue := [], threads := s.threads + [Thread(false, AllCancelled(s.queue, text))])
    case SetLimit(limit) => s.(limit := limit)
    case Complete(i) =>
      if i >= |s.threads| || s.threads[i].left == [] then s
      else
        var t := s.threads[i];
        s.(threads := s.threads[i := t.(left := t.left[1..])], done := s.done + [t.left[0]])
  }

  function Run(events: seq<Event>): State {
    if events == [] then START else Next(Run(events[..|events| - 1]), events[|events| - 1])
  }

  // ----- each accepted command is in exactly one place

  function InQueue(q: seq<Command>, id: nat): nat {
    if q == [] then 0 else InQueue(q[..|q| - 1], id) + if q[|q| - 1].id == id then 1 else 0
  }

  function InJobs(jobs: seq<Job>, id: nat): nat {
    if jobs == [] then 0 else InJobs(jobs[..|jobs| - 1], id) + if jobs[|jobs| - 1].command.id == id then 1 else 0
  }

  function InThreads(threads: seq<Thread>, id: nat): nat {
    if threads == [] then 0 else InThreads(threads[..|threads| - 1], id) + InJobs(threads[|threads| - 1].left, id)
  }

  function Places(s: State, id: nat): nat {
    InQueue(s.queue, id) + InThreads(s.threads, id) + InJobs(s.done, id)
  }

  lemma {:induction false} InQueueConcat(a: seq<Command>, b: seq<Command>, id: nat)
    ensures InQueue(a + b, id) == InQueue(a, id) + InQueue(b, id)
  {
    if b == [] {
      assert a + b == a;
    } else {
      assert (a + b)[..|a + b| - 1] == a + b[..|b| - 1];
      InQueueConcat(a, b[..|b| - 1], id);
    }
  }

  lemma {:induction false} InJobsConcat(a: seq<Job>, b: seq<Job>, id: nat)
    ensures InJobs(a + b, id) == InJobs(a, id) + InJobs(b, id)
  {
    if b == [] {
      assert a + b == a;
    } else {
      assert (a + b)[..|a + b| - 1] == a + b[..|b| - 1];
      InJobsConcat(a, b[..|b| - 1], id);
    }
  }

  lemma {:induction false} OneInQueue(c: Command, id: nat)
    ensures InQueue([c], id) == if c.id == id then 1 else 0
  {
    assert [c][..0] == [];
  }

  lemma {:induction false} OneInJobs(j: Job, id: nat)
    ensures InJobs([j], id) == if j.command.id == id then 1 else 0
  {
    assert [j][..0] == [];
  }

  lemma {:induction false} ExpiryMoves(q: seq<Command>, now: int, id: nat)
    ensures InQueue(Unexpired(q, now), id) + InJobs(Expired(q, now), id) == InQueue(q, id)
  {
    if q != [] {
      var before, c := q[..|q| - 1], q[|q| - 1];
      ExpiryMoves(before, now, id);
      InQueueConcat(Unexpired(before, now), [c], id);
      InJobsConcat(Expired(before, now), [Job(c, TimedOut(now))], id);
      OneInQueue(c, id);
      OneInJobs(Job(c, TimedOut(now)), id);
      assert Unexpired(before, now) + [] == Unexpired(before, now) && Expired(before, now) + [] == Expired(before, now);
    }
  }

  lemma {:induction false} RemovalMoves(q: seq<Command>, i: nat, j: Job, id: nat)
    requires i < |q| && j.command == q[i]
    ensures InQueue(Without(q, i), id) + InJobs([j], id) == InQueue(q, id)
  {
    assert q == q[..i] + [q[i]] + q[i + 1..];
    InQueueConcat(q[..i] + [q[i]], q[i + 1..], id);
    InQueueConcat(q[..i], [q[i]], id);
    InQueueConcat(q[..i], q[i + 1..], id);
    OneInQueue(q[i], id);
    OneInJobs(j, id);
  }

  lemma {:induction false} ProcessMoves(q: seq<Command>, now: int, id: nat)
    ensures InQueue(AfterProcess(q, now), id) + InJobs(ProcessJobs(q, now), id) == InQueue(q, id)
  {
    hide Unexpired, Expired, FirstReady, InQueue, InJobs, Without;
    ExpiryMoves(q, now, id);
    var left := Unexpired(q, now);
    var i := FirstReady(left);
    if i < |left| {
      RemovalMoves(left, i, Job(left[i], Ran(now)), id);
      InJobsConcat(Expired(q, now), [Job(left[i], Ran(now))], id);
    } else {
      NothingRemoved(left, i);
      assert Expired(q, now) + [] == Expired(q, now);
    }
  }

  lemma NothingRemoved(q: seq<Command>, i: nat)
    ensures i >= |q| ==> Without(q, i) == q
  {
  }

  lemma {:induction false} CancelMoves(q: seq<Command>, target: nat, text: string, id: nat)
    ensures InQueue(AfterCancel(q, target), id) + InJobs(CancelJobs(q, target, text), id) == InQueue(q, id)
  {
    hide IndexOf;
    var i := IndexOf(q, target);
    if i < |q| {
      RemovalMoves(q, i, Job(q[i], Cancelled(text)), id);
    }
  }

  lemma {:induction false} CancelAllMoves(q: seq<Command>, text: string, id: nat)
    ensures InJobs(AllCancelled(q, text), id) == InQueue(q, id)
  {
    if q != [] {
      CancelAllMoves(q[..|q| - 1], text, id);
      InJobsConcat(AllCancelled(q[..|q| - 1], text), [Job(q[|q| - 1], Cancelled(text))], id);
      OneInJobs(Job(q[|q| - 1], Cancelled(text)), id);
    }
  }

  lemma {:induction false} ApprovalStays(q: seq<Command>, i: nat, id: nat)
    requires i < |q|
    ensures InQueue(q[i := q[i].(approved := true)], id) == InQueue(q, id)
  {
    var r, n := q[i := q[i].(approved := true)], |q| - 1;
    if i < n {
      ApprovalStays(q[..n], i, id);
      assert r[..n] == q[..n][i := q[i].(approved := true)];
    } else {
      assert r[..n] == q[..n];
    }
  }

  lemma {:induction false} NewThread(threads: seq<Thread>, t: Thread, id: nat)
    ensures InThreads(threads + [t], id) == InThreads(threads, id) + InJobs(t.left, id)
  {
    assert (threads + [t])[..|threads|] == threads;
  }

  lemma {:induction false} ThreadUpdated(threads: seq<Thread>, i: nat, t: Thread, id: nat)
    requires i < |threads|
    ensures InThreads(threads[i := t], id) == InThreads(threads, id) - InJobs(threads[i].left, id) + InJobs(t.left, id)
  {
    var n := |threads| - 1;
    if i < n {
      ThreadUpdated(threads[..n], i, t, id);
      assert threads[i := t][..n] == threads[..n][i := t];
    } else {
      assert threads[i := t][..n] == threads[..n];
    }
  }

  lemma {:induction false} NextKeepsPlaces(s: State, e: Event, id: nat)
    ensures Places(Next(s, e), id) ==
              Places(s, id) + if Next(s, e).nextId == s.nextId + 1 && id == s.nextId then 1 else 0
  {
    hide AfterProcess, ProcessJobs, AfterCancel, CancelJobs, AllCancelled, InQueue, InJobs, InThreads, IndexOf;
    match e
    case Submit(request, requiresApproval, deadline) =>
      var c := Command(s.nextId, request, requiresApproval, false, deadline);
      InQueueConcat(s.queue, [c], id);
      OneInQueue(c, id);
    case Process(now) =>
      ProcessMoves(s.queue, now, id);
      NewThread(s.threads, Thread(true, ProcessJobs(s.queue, now)), id);
    case Approve(target) =>
      var i := IndexOf(s.queue, target);
      if i < |s.queue| { ApprovalStays(s.queue, i, id); }
    case Cancel(target, text) =>
      CancelMoves(s.queue, target, text, id);
      NewThread(s.threads, Thread(false, CancelJobs(s.queue, target, text)), id);
    case CancelAll(text) =>
      CancelAllMoves(s.queue, text, id);
      NewThread(s.threads, Thread(false, AllCancelled(s.queue, text)), id);
      NoneInQueue(id);
    case SetLimit(_) =>
    case Complete(i) =>
      if i < |s.threads| && s.threads[i].left != [] {
        var t := s.threads[i];
        ThreadUpdated(s.threads, i, t.(left := t.left[1..]), id);
        assert t.left == [t.left[0]] + t.left[1..];
        InJobsConcat([t.left[0]], t.left[1..], id);
        InJobsConcat(s.done, [t.left[0]], id);
      }
  }

  lemma NoneInQueue(id: nat)
    ensures InQueue([], id) == 0
  {
  }

  // In every interleaving each accepted command is queued, held by one thread, or completed, and in
  // exactly one of these, once; so no promise is set twice.
  lemma {:induction false} ExactlyOnePlace(events: seq<Event>, id: nat)
    ensures Places(Run(events), id) == if 1 <= id < Run(events).nextId then 1 else 0
    ensures InJobs(Run(events).done, id) <= 1 && Run(events).nextId >= 1
  {
    hide Next, Places;
    if events != [] {
      ExactlyOnePlace(events[..|events| - 1], id);
      NextKeepsPlaces(Run(events[..|events| - 1]), events[|events| - 1], id);
      IdsGrow(Run(events[..|events| - 1]), events[|events| - 1]);
    } else {
      NoPlaces(id);
    }
    CompletedIsAPlace(Run(events), id);
  }

  lemma NoPlaces(id: nat)
    ensures Places(START, id) == 0
  {
  }

  lemma IdsGrow(s: State, e: Event)
    ensures s.nextId <= Next(s, e).nextId <= s.nextId + 1
  {
  }

  lemma CompletedIsAPlace(s: State, id: nat)
    ensures InJobs(s.done, id) <= Places(s, id)
  {
  }

  // ----- what runs was allowed to

  predicate ApprovedBy(events: seq<Event>, i: nat, id: nat) {
    i < |events| && events[i] == Approve(id)
  }

  // The approval mark is only ever set by an approval of this id.
  ghost predicate Genuine(events: seq<Event>, c: Command) {
    c.approved ==> exists i :: ApprovedBy(events, i, c.id)
  }

  // A command may run only without need of approval or with it, and before its deadline; it times
  // out only after the deadline.
  ghost predicate Justified(events: seq<Event>, j: Job) {
    && Genuine(events, j.command)
    && match j.reason
       case Ran(at) => (j.command.requiresApproval ==> j.command.approved) && j.command.deadline > at
       case TimedOut(at) => j.command.deadline <= at
       case Cancelled(_) => true
  }

  ghost predicate AllJustified(events: seq<Event>, jobs: seq<Job>) {
    forall i :: 0 <= i < |jobs| ==> Justified(events, jobs[i])
  }

  ghost predicate AllGenuine(events: seq<Event>, q: seq<Command>) {
    forall i :: 0 <= i < |q| ==> Genuine(events, q[i])
  }

  ghost predicate Lawful(events: seq<Event>, s: State) {
    && AllGenuine(events, s.queue) && AllJustified(events, s.done)
    && forall i :: 0 <= i < |s.threads| ==> AllJustified(events, s.threads[i].left)
  }

  lemma {:induction false} LaterStillLawful(before: seq<Event>, e: Event, s: State)
    requires Lawful(before, s)
    ensures Lawful(before + [e], s)
  {
    hide Justified;
    forall c: Command | Genuine(before, c) ensures Genuine(before + [e], c) { StillGenuine(before, e, c); }
    forall j: Job | Justified(before, j) ensures Justified(before + [e], j) {
      StillGenuine(before, e, j.command);
      JustifiedMeans(before, j);
      JustifiedMeans(before + [e], j);
    }
  }

  lemma JustifiedMeans(events: seq<Event>, j: Job)
    ensures Justified(events, j) <==>
              && Genuine(events, j.command)
              && match j.reason
                 case Ran(at) => (j.command.requiresApproval ==> j.command.approved) && j.command.deadline > at
                 case TimedOut(at) => j.command.deadline <= at
                 case Cancelled(_) => true
  {
  }

  lemma StillGenuine(before: seq<Event>, e: Event, c: Command)
    ensures Genuine(before, c) ==> Genuine(before + [e], c)
  {
    if Genuine(before, c) && c.approved {
      var i :| ApprovedBy(before, i, c.id);
      assert ApprovedBy(before + [e], i, c.id);
    }
  }

  lemma {:induction false} ExpiryIsLawful(events: seq<Event>, q: seq<Command>, now: int)
    requires AllGenuine(events, q)
    ensures AllGenuine(events, Unexpired(q, now)) && AllJustified(events, Expired(q, now))
    ensures forall i :: 0 <= i < |Unexpired(q, now)| ==> Unexpired(q, now)[i].deadline > now
  {
    hide Genuine;
    if q != [] {
      ExpiryIsLawful(events, q[..|q| - 1], now);
    }
  }

  lemma {:induction false} ProcessIsLawful(events: seq<Event>, q: seq<Command>, now: int)
    requires AllGenuine(events, q)
    ensures AllGenuine(events, AfterProcess(q, now)) && AllJustified(events, ProcessJobs(q, now))
  {
    hide Genuine, Unexpired, Expired;
    ExpiryIsLawful(events, q, now);
  }

  lemma {:induction false} CancelAllIsLawful(events: seq<Event>, q: seq<Command>, text: string)
    requires AllGenuine(events, q)
    ensures AllJustified(events, AllCancelled(q, text))
  {
    hide Genuine;
    if q != [] {
      CancelAllIsLawful(events, q[..|q| - 1], text);
    }
  }

  lemma {:induction false} NextIsLawful(events: seq<Event>, e: Event, s: State)
    requires Lawful(events, s) && events != [] && events[|events| - 1] == e
    ensures Lawful(events, Next(s, e))
  {
    hide Genuine, AfterProcess, ProcessJobs, AllCancelled, IndexOf, Justified;
    match e
    case Submit(request, requiresApproval, deadline) =>
      NewIsGenuine(events, Command(s.nextId, request, requiresApproval, false, deadline));
    case Process(now) => ProcessIsLawful(events, s.queue, now);
    case Approve(id) =>
      var i := IndexOf(s.queue, id);
      if i < |s.queue| { ApprovedIsGenuine(events, s.queue[i].(approved := true)); }
    case Cancel(id, text) =>
      var i := IndexOf(s.queue, id);
      if i < |s.queue| { JustifiedMeans(events, Job(s.queue[i], Cancelled(text))); }
    case CancelAll(text) => CancelAllIsLawful(events, s.queue, text);
    case SetLimit(_) =>
    case Complete(_) =>
  }

  lemma NewIsGenuine(events: seq<Event>, c: Command)
    requires !c.approved
    ensures Genuine(events, c)
  {
  }

  lemma ApprovedIsGenuine(events: seq<Event>, c: Command)
    requires events != [] && events[|events| - 1] == Approve(c.id)
    ensures Genuine(events, c)
  {
    assert ApprovedBy(events, |events| - 1, c.id);
  }

  // In every interleaving nothing runs without the approval it needs, an approval someone gave for
  // its id, or past its deadline at the moment it was selected.
  lemma {:induction false} EveryRunIsLawful(events: seq<Event>)
    ensures Lawful(events, Run(events))
  {
    hide Lawful, Next;
    if events == [] {
      StartIsLawful();
    } else {
      var before, e := events[..|events| - 1], events[|events| - 1];
      EveryRunIsLawful(before);
      LaterStillLawful(before, e, Run(before));
      assert before + [e] == events;
      NextIsLawful(events, e, Run(before));
    }
  }

  lemma StartIsLawful()
    ensures Lawful([], START)
  {
  }

  // ----- the queue's length

  lemma {:induction false} QueueStaysShort(events: seq<Event>)
    requires forall i :: 0 <= i < |events| ==> !events[i].SetLimit?
    ensures Run(events).limit == 16 && |Run(events).queue| <= 16
  {
    hide Unexpired, FirstReady, IndexOf, ProcessJobs, CancelJobs, AllCancelled;
    if events != [] {
      var before, e := events[..|events| - 1], events[|events| - 1];
      QueueStaysShort(before);
      if e.Process? {
        FewerUnexpired(Run(before).queue, e.now);
      }
    }
  }

  lemma {:induction false} FewerUnexpired(q: seq<Command>, now: int)
    ensures |Unexpired(q, now)| <= |q|
  {
    if q != [] {
      FewerUnexpired(q[..|q| - 1], now);
    }
  }

  // ----- order of commands that never need approval

  predicate IsFreeRun(j: Job) {
    j.reason.Ran? && !j.command.requiresApproval
  }

  predicate ById(q: seq<Command>) {
    forall a, b :: 0 <= a < b < |q| ==> q[a].id < q[b].id
  }

  // Every command that needs no approval and is still queued came later than job j.
  predicate BeforeQueue(j: Job, q: seq<Command>, nextId: nat) {
    j.command.id < nextId && forall a :: 0 <= a < |q| && !q[a].requiresApproval ==> j.command.id < q[a].id
  }

  predicate DoneInOrder(done: seq<Job>) {
    forall a, b :: 0 <= a < b < |done| && IsFreeRun(done[a]) && IsFreeRun(done[b]) ==>
        done[a].command.id < done[b].command.id
  }

  predicate AfterDone(j: Job, done: seq<Job>) {
    forall a :: 0 <= a < |done| && IsFreeRun(done[a]) ==> done[a].command.id < j.command.id
  }

  // A free run is the last job of the one thread that is processing.
  predicate ThreadInOrder(t: Thread, s: State) {
    forall k :: 0 <= k < |t.left| && IsFreeRun(t.left[k]) ==>
      t.processing && k == |t.left| - 1 && BeforeQueue(t.left[k], s.queue, s.nextId) && AfterDone(t.left[k], s.done)
  }

  predicate OneProcessor(threads: seq<Thread>) {
    forall a, b :: 0 <= a < b < |threads| && threads[a].processing && threads[b].processing ==>
        threads[a].left == [] || threads[b].left == []
  }

  predicate Ordered(s: State) {
    && ById(s.queue) && (forall a :: 0 <= a < |s.queue| ==> s.queue[a].id < s.nextId)
    && DoneInOrder(s.done)
        && (forall a :: 0 <= a < |s.done| && IsFreeRun(s.done[a]) ==> BeforeQueue(s.done[a], s.queue, s.nextId))
    && (forall t :: 0 <= t < |s.threads| ==> ThreadInOrder(s.threads[t], s))
    && OneProcessor(s.threads)
  }

  // One thread calls ProcessOne, one call after the other.
  predicate Idle(threads: seq<Thread>) {
    forall t :: 0 <= t < |threads| && threads[t].processing ==> threads[t].left == []
  }

  ghost predicate SingleProcessor(events: seq<Event>) {
    forall k :: 0 <= k < |events| && events[k].Process? ==> Idle(Run(events[..k]).threads)
  }

  // What is in the smaller queue is in the larger, in the same order.
  predicate Within(small: seq<Command>, large: seq<Command>) {
    ById(small) && forall a :: 0 <= a < |small| ==> small[a] in large
  }

  lemma {:induction false} UnexpiredWithin(q: seq<Command>, now: int)
    requires ById(q)
    ensures Within(Unexpired(q, now), q)
  {
    if q != [] {
      UnexpiredWithin(q[..|q| - 1], now);
    }
  }

  lemma {:induction false} WithoutWithin(q: seq<Command>, i: nat)
    requires ById(q)
    ensures Within(Without(q, i), q)
  {
  }

  lemma {:induction false} ExpiredDoNotRun(q: seq<Command>, now: int)
    ensures forall k :: 0 <= k < |Expired(q, now)| ==> Expired(q, now)[k].reason.TimedOut?
  {
    if q != [] {
      ExpiredDoNotRun(q[..|q| - 1], now);
    }
  }

  lemma {:induction false} CancelledDoNotRun(q: seq<Command>, text: string)
    ensures forall k :: 0 <= k < |AllCancelled(q, text)| ==> AllCancelled(q, text)[k].reason.Cancelled?
  {
    if q != [] {
      CancelledDoNotRun(q[..|q| - 1], text);
    }
  }

  lemma {:induction false} SmallerQueueOrdered(s: State, q: seq<Command>)
    requires Ordered(s) && Within(q, s.queue)
    ensures Ordered(s.(queue := q))
  {
    hide OneProcessor, DoneInOrder, AfterDone, IsFreeRun;
    var r := s.(queue := q);
    forall j: Job | BeforeQueue(j, s.queue, s.nextId) ensures BeforeQueue(j, q, s.nextId) {}
  }

  // Selection takes the first command that is ready, so what needs no approval is taken in order.
  lemma {:induction false} SelectedFirst(q: seq<Command>, now: int, nextId: nat)
    requires ById(q) && forall a :: 0 <= a < |q| ==> q[a].id < nextId
    ensures Within(AfterProcess(q, now), q)
    ensures forall k :: 0 <= k < |ProcessJobs(q, now)| && IsFreeRun(ProcessJobs(q, now)[k]) ==>
              && k == |ProcessJobs(q, now)| - 1 && ProcessJobs(q, now)[k].command in q
              && !ProcessJobs(q, now)[k].command.requiresApproval
              && BeforeQueue(ProcessJobs(q, now)[k], AfterProcess(q, now), nextId)
  {
    hide Unexpired, Expired, FirstReady;
    UnexpiredWithin(q, now);
    ExpiredDoNotRun(q, now);
    var left := Unexpired(q, now);
    WithoutWithin(left, FirstReady(left));
  }

  lemma {:induction false} ProcessKeepsOrder(s: State, now: int)
    requires Ordered(s) && Idle(s.threads)
    ensures Ordered(Next(s, Process(now)))
  {
    hide AfterProcess, ProcessJobs, IsFreeRun;
    SelectedFirst(s.queue, now, s.nextId);
    var q, jobs := AfterProcess(s.queue, now), ProcessJobs(s.queue, now);
    SmallerQueueOrdered(s, q);
    var t := Thread(true, jobs);
    forall k | 0 <= k < |jobs| && IsFreeRun(jobs[k]) ensures AfterDone(jobs[k], s.done) {
      var a :| 0 <= a < |s.queue| && s.queue[a] == jobs[k].command;
    }
    assert ThreadInOrder(t, Next(s, Process(now)));
    ThreadAdded(s.(queue := q), t);
  }

  lemma {:induction false} ThreadAdded(s: State, t: Thread)
    requires Ordered(s) && ThreadInOrder(t, s) && (t.processing ==> Idle(s.threads))
    ensures Ordered(s.(threads := s.threads + [t]))
  {
    hide ById, DoneInOrder, BeforeQueue, AfterDone, IsFreeRun;
    var r := s.(threads := s.threads + [t]);
    forall u: Thread | ThreadInOrder(u, s) ensures ThreadInOrder(u, r) {}
  }

  lemma {:induction false} CancelKeepsOrder(s: State, q: seq<Command>, jobs: seq<Job>)
    requires Ordered(s) && Within(q, s.queue) && forall k :: 0 <= k < |jobs| ==> jobs[k].reason.Cancelled?
    ensures Ordered(s.(queue := q, threads := s.threads + [Thread(false, jobs)]))
  {
    hide Ordered;
    SmallerQueueOrdered(s, q);
    ThreadAdded(s.(queue := q), Thread(false, jobs));
  }

  lemma {:induction false} CompleteKeepsOrder(s: State, i: nat)
    requires Ordered(s)
    ensures Ordered(Next(s, Complete(i)))
  {
    hide ById, BeforeQueue, IsFreeRun;
    if i < |s.threads| && s.threads[i].left != [] {
      var j, rest := s.threads[i].left[0], s.threads[i].left[1..];
      var r := Next(s, Complete(i));
      forall u | 0 <= u < |s.threads| ensures ThreadInOrder(r.threads[u], r) {
        forall k | 0 <= k < |r.threads[u].left| && IsFreeRun(r.threads[u].left[k])
          ensures AfterDone(r.threads[u].left[k], r.done)
        {
          if u == i {
            assert r.threads[u].left[k] == s.threads[i].left[k + 1];
          }
        }
      }
    }
  }

  lemma {:induction false} NextKeepsOrder(s: State, e: Event)
    requires Ordered(s) && (e.Process? ==> Idle(s.threads))
    ensures Ordered(Next(s, e))
  {
    match e
    case Submit(request, requiresApproval, deadline) => SubmitKeepsOrder(s, request, requiresApproval, deadline);
    case Process(now) => ProcessKeepsOrder(s, now);
    case Approve(id) => ApproveKeepsOrder(s, id);
    case Cancel(id, text) =>
      WithoutWithin(s.queue, IndexOf(s.queue, id));
      CancelKeepsOrder(s, AfterCancel(s.queue, id), CancelJobs(s.queue, id, text));
    case CancelAll(text) =>
      CancelledDoNotRun(s.queue, text);
      CancelKeepsOrder(s, [], AllCancelled(s.queue, text));
    case SetLimit(limit) => LimitKeepsOrder(s, limit);
    case Complete(i) => CompleteKeepsOrder(s, i);
  }

  lemma {:induction false} SubmitKeepsOrder(s: State, request: string, requiresApproval: bool, deadline: int)
    requires Ordered(s)
    ensures Ordered(Next(s, Submit(request, requiresApproval, deadline)))
  {
    hide OneProcessor, DoneInOrder, AfterDone, IsFreeRun;
    var c := Command(s.nextId, request, requiresApproval, false, deadline);
    forall j: Job | BeforeQueue(j, s.queue, s.nextId) ensures BeforeQueue(j, s.queue + [c], s.nextId + 1) {}
  }

  lemma {:induction false} ApproveKeepsOrder(s: State, id: nat)
    requires Ordered(s)
    ensures Ordered(Next(s, Approve(id)))
  {
    hide OneProcessor, DoneInOrder, AfterDone, IsFreeRun, IndexOf;
    var q := Approved(s.queue, id);
    assert forall a :: 0 <= a < |q| ==>
        q[a].id == s.queue[a].id && q[a].requiresApproval == s.queue[a].requiresApproval;
    forall j: Job | BeforeQueue(j, s.queue, s.nextId) ensures BeforeQueue(j, q, s.nextId) {}
  }

  lemma {:induction false} LimitKeepsOrder(s: State, limit: nat)
    requires Ordered(s)
    ensures Ordered(Next(s, SetLimit(limit)))
  {
    hide OneProcessor, DoneInOrder, AfterDone, IsFreeRun, BeforeQueue, ById;
    forall u: Thread | ThreadInOrder(u, s) ensures ThreadInOrder(u, s.(limit := limit)) {}
  }

  // Under a single processor, commands that never need approval run in the order of their ids, which
  // is the order of submission, whatever else is approved, cancelled or timed out between them.
  lemma {:induction false} FreeCommandsRunInOrder(events: seq<Event>)
    requires SingleProcessor(events)
    ensures Ordered(Run(events)) && DoneInOrder(Run(events).done)
  {
    hide Next, Idle, ById, OneProcessor, BeforeQueue, ThreadInOrder;
    if events == [] {
      StartOrdered();
    } else {
      var n := |events| - 1;
      var before := events[..n];
      forall k | 0 <= k < n && before[k].Process? ensures Idle(Run(before[..k]).threads) {
        assert before[..k] == events[..k];
      }
      FreeCommandsRunInOrder(before);
      NextKeepsOrder(Run(before), events[n]);
    }
  }

  lemma StartOrdered()
    ensures Ordered(START)
  {
  }
}
