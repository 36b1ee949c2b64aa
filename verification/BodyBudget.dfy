/** The shared budget for buffered HTTP bodies (Source/McpServer.cpp:1323-1329, 1592-1598, 1740-1746,
    2072-2112): one atomic counter that connection threads raise with a weak compare-and-swap loop and
    lower with an atomic subtraction. A thread is reduced to its atomic steps, and a run is any
    interleaving of the steps of any number of threads. */
module BodyBudget {

  const WORD := 0x1_0000_0000_0000_0000

  // A connection thread.
  datatype Worker =
    | Attempting(size: nat, seen: nat)  // in the loop; `seen` is the counter as it last read it
    | Holding(size: nat)                // reserved, reading or handling its request
    | Rejected(size: nat)               // answered with "budget is exhausted"
    | Finished                          // its guard has run

  datatype State = State(counter: nat, workers: seq<Worker>)

  // One atomic step of one thread. A weak exchange may fail for no reason.
  datatype Action =
    | Begin(size: nat)
    | Exchange(worker: nat, spurious: bool)
    | Release(worker: nat)

  const START := State(0, [])

  // The step; one that its thread cannot make now changes nothing.
  function Next(s: State, a: Action, budget: nat): State {
    match a
    case Begin(size) =>
      s.(workers := s.workers + [if size == 0 then Holding(0)
                                 else if size > budget then Rejected(size)
                                 else Attempting(size, s.counter)])
    case Exchange(i, spurious) =>
      if i >= |s.workers| || !s.workers[i].Attempting? then s
      else
        var w := s.workers[i];
        if w.seen > budget - w.size then s.(workers := s.workers[i := Rejected(w.size)])
        else if s.counter == w.seen && !spurious then
          State((w.seen + w.size) % WORD, s.workers[i := Holding(w.size)])
        else s.(workers := s.workers[i := Attempting(w.size, s.counter)])
    case Release(i) =>
      if i >= |s.workers| || !s.workers[i].Holding? then s
      else State((s.counter - s.workers[i].size) % WORD, s.workers[i := Finished])
  }

  function Run(run: seq<Action>, budget: nat): State {
    if run == [] then START else Next(Run(run[..|run| - 1], budget), run[|run| - 1], budget)
  }

  function Share(w: Worker): nat {
    if w.Holding? then w.size else 0
  }

  // What the threads hold together.
  function Held(workers: seq<Worker>): nat {
    if workers == [] then 0 else Held(workers[..|workers| - 1]) + Share(workers[|workers| - 1])
  }

  lemma {:induction false} HeldUpdated(workers: seq<Worker>, i: nat, w: Worker)
    requires i < |workers|
    ensures Held(workers[i := w]) == Held(workers) - Share(workers[i]) + Share(w)
    ensures Share(workers[i]) <= Held(workers)
  {
    var n := |workers| - 1;
    if i < n {
      HeldUpdated(workers[..n], i, w);
      assert workers[i := w][..n] == workers[..n][i := w];
    } else {
      assert workers[i := w][..n] == workers[..n];
    }
  }

  lemma {:induction false} NoneHeld(workers: seq<Worker>)
    requires forall i :: 0 <= i < |workers| ==> !workers[i].Holding?
    ensures Held(workers) == 0
  {
    if workers != [] {
      NoneHeld(workers[..|workers| - 1]);
    }
  }

  predicate Conserved(s: State, budget: nat) {
    && s.counter == Held(s.workers) <= budget
    && forall i :: 0 <= i < |s.workers| && s.workers[i].Attempting? ==> 0 < s.workers[i].size <= budget
  }

  lemma NoWrap(x: int)
    requires 0 <= x < WORD
    ensures x % WORD == x
  {
  }

  lemma {:induction false} HeldAppended(workers: seq<Worker>, w: Worker)
    ensures Held(workers + [w]) == Held(workers) + Share(w)
  {
    assert (workers + [w])[..|workers|] == workers;
  }

  lemma {:induction false} NextConserves(s: State, a: Action, budget: nat)
    requires Conserved(s, budget) && budget < WORD
    ensures Conserved(Next(s, a, budget), budget)
  {
    hide Held;
    var t := Next(s, a, budget);
    match a
    case Begin(_) =>
      HeldAppended(s.workers, t.workers[|s.workers|]);
    case Exchange(i, _) =>
      if i < |s.workers| && s.workers[i].Attempting? {
        HeldUpdated(s.workers, i, t.workers[i]);
        if t.workers[i].Holding? {
          NoWrap(s.counter + s.workers[i].size);
        }
      }
    case Release(i) =>
      if i < |s.workers| && s.workers[i].Holding? {
        HeldUpdated(s.workers, i, Finished);
        NoWrap(s.counter - s.workers[i].size);
      }
  }

  // Under every interleaving the counter is the sum of the live reservations, never above the
  // budget, and it never wraps around; once no thread holds anything it is zero.
  lemma {:induction false} BudgetIsConserved(run: seq<Action>, budget: nat)
    requires budget < WORD
    ensures Conserved(Run(run, budget), budget)
    ensures (forall i :: 0 <= i < |Run(run, budget).workers| ==> !Run(run, budget).workers[i].Holding?) ==>
              Run(run, budget).counter == 0
  {
    if run != [] {
      BudgetIsConserved(run[..|run| - 1], budget);
      NextConserves(Run(run[..|run| - 1], budget), run[|run| - 1], budget);
    }
    if forall i :: 0 <= i < |Run(run, budget).workers| ==> !Run(run, budget).workers[i].Holding? {
      NoneHeld(Run(run, budget).workers);
    }
  }

  // A request that fits is granted to a thread that is not disturbed: the counter goes up by the
  // request, and down again by as much when the thread is done; no other thread is affected.
  lemma {:induction false} FittingIsGranted(run: seq<Action>, budget: nat, size: nat)
    requires budget < 0x1_0000_0000_0000_0000 && size > 0
    requires Held(Run(run, budget).workers) + size <= budget
    ensures var s, i := Run(run, budget), |Run(run, budget).workers|;
            var taken := Run(run + [Begin(size)] + [Exchange(i, false)], budget);
            var back := Run(run + [Begin(size)] + [Exchange(i, false)] + [Release(i)], budget);
            && taken.workers == s.workers + [Holding(size)] && taken.counter == s.counter + size
            && back.workers == s.workers + [Finished] && back.counter == s.counter
  {
    hide Held, Next;
    var s := Run(run, budget);
    var i := |s.workers|;
    var begun := run + [Begin(size)];
    var taken := begun + [Exchange(i, false)];
    var back := taken + [Release(i)];
    assert begun[..|begun| - 1] == run && taken[..|taken| - 1] == begun && back[..|back| - 1] == taken;
    BudgetIsConserved(run, budget);
    OneGrant(s, size, budget);
  }

  lemma OneGrant(s: State, size: nat, budget: nat)
    requires Conserved(s, budget) && 0 < size && s.counter + size <= budget < 0x1_0000_0000_0000_0000
    ensures var i := |s.workers|;
            var begun := State(s.counter, s.workers + [Attempting(size, s.counter)]);
            var taken := State(s.counter + size, s.workers + [Holding(size)]);
            && Next(s, Begin(size), budget) == begun && Next(begun, Exchange(i, false), budget) == taken
            && Next(taken, Release(i), budget) == State(s.counter, s.workers + [Finished])
  {
    NoWrap(s.counter);
    NoWrap(s.counter + size);
  }

  // After its first k steps, the run had worker i in the loop and the counter at `seen`.
  ghost predicate SawAt(run: seq<Action>, budget: nat, i: nat, size: nat, seen: nat, k: nat) {
    && k <= |run|
    && var s := Run(run[..k], budget);
       s.counter == seen && i < |s.workers| && s.workers[i].Attempting? && s.workers[i].size == size
  }

  // A thread is turned away only if, at some moment while it was trying, its request really did
  // not fit beside the reservations then held.
  ghost predicate Honest(run: seq<Action>, budget: nat, i: nat) {
    var s := Run(run, budget);
    i < |s.workers| ==>
      match s.workers[i]
      case Attempting(size, seen) => exists k :: SawAt(run, budget, i, size, seen, k)
      case Rejected(size) => size <= budget ==>
          exists k: nat, seen: nat :: SawAt(run, budget, i, size, seen, k) && seen + size > budget
      case _ => true
  }

  lemma {:induction false} SawBefore(run: seq<Action>, budget: nat, i: nat, size: nat, seen: nat, k: nat)
    requires run != [] && SawAt(run[..|run| - 1], budget, i, size, seen, k)
    ensures SawAt(run, budget, i, size, seen, k)
  {
    assert run[..|run| - 1][..k] == run[..k];
  }

  lemma {:induction false} RejectionIsHonest(run: seq<Action>, budget: nat, i: nat)
    ensures Honest(run, budget, i)
  {
    if run != [] {
      var before := run[..|run| - 1];
      var s, t := Run(before, budget), Run(run, budget);
      RejectionIsHonest(before, budget, i);
      assert run[..|run|] == run;
      if i < |t.workers| && t.workers[i].Attempting? && (i >= |s.workers| || t.workers[i] != s.workers[i]) {
        assert SawAt(run, budget, i, t.workers[i].size, t.workers[i].seen, |run|);
      } else if i < |s.workers| && s.workers[i].Attempting? {
        var k :| SawAt(before, budget, i, s.workers[i].size, s.workers[i].seen, k);
        SawBefore(run, budget, i, s.workers[i].size, s.workers[i].seen, k);
      } else if i < |s.workers| && s.workers[i].Rejected? && s.workers[i].size <= budget {
        var k: nat, seen: nat :| SawAt(before, budget, i, s.workers[i].size, seen, k)
            && seen + s.workers[i].size > budget;
        SawBefore(run, budget, i, s.workers[i].size, seen, k);
      }
    }
  }
}
