/** The rules a D3D12 command list has to respect, as a small machine that executes recorded
    commands. The machine remembers the real state of every resource and which resources have
    unordered-access writes that no barrier has made visible yet; `safe` is cleared for good by the
    first command that breaks a rule. Source/NrdBackend.cpp only records commands, so this
    is what its recordings mean. */
module GpuTrace {

  // An ID3D12Resource pointer; 0 is the null pointer.
  type Resource = nat

  const NULL: Resource := 0

  datatype State = ShaderRead | UnorderedAccess

  datatype Barrier =
    | Transition(resource: Resource, before: State, after: State)
    | UavBarrier(resource: Resource)

  datatype Command =
    | ResourceBarrier(barriers: seq<Barrier>)
    | SetPipelineState(pipeline: nat)
    | SetConstants(address: nat)
    | SetTables(srvTable: nat, uavTable: nat)
    | Dispatch(inputs: seq<Resource>, outputs: seq<Resource>)

  datatype Gpu = Gpu(states: map<Resource, State>, pending: set<Resource>, safe: bool)

  predicate InState(g: Gpu, r: Resource, s: State) {
    r in g.states && g.states[r] == s
  }

  // A transition must name the state the resource is really in; both kinds of barrier make
  // earlier writes to the resource visible.
  function ApplyBarrier(g: Gpu, b: Barrier): Gpu {
    match b
    case Transition(r, before, after) =>
      Gpu(g.states[r := after], g.pending - {r}, g.safe && InState(g, r, before) && before != after)
    case UavBarrier(r) =>
      Gpu(g.states, g.pending - {r}, g.safe && InState(g, r, UnorderedAccess))
  }

  function ApplyBarriers(g: Gpu, bs: seq<Barrier>): Gpu {
    if bs == [] then g else ApplyBarrier(ApplyBarriers(g, bs[..|bs| - 1]), bs[|bs| - 1])
  }

  // A dispatch must find what it reads in the shader-read state and what it writes in the
  // unordered-access state, and none of it may still have invisible writes.
  predicate DispatchAllowed(g: Gpu, inputs: seq<Resource>, outputs: seq<Resource>) {
    && (forall r :: r in inputs ==> InState(g, r, ShaderRead) && r !in g.pending)
    && (forall r :: r in outputs ==> InState(g, r, UnorderedAccess) && r !in g.pending)
  }

  function Apply(g: Gpu, c: Command): Gpu {
    match c
    case ResourceBarrier(bs) => ApplyBarriers(g, bs)
    case Dispatch(inputs, outputs) =>
      Gpu(g.states, g.pending + (set r | r in outputs), g.safe && DispatchAllowed(g, inputs, outputs))
    case _ => g
  }

  function Run(g: Gpu, cs: seq<Command>): Gpu {
    if cs == [] then g else Apply(Run(g, cs[..|cs| - 1]), cs[|cs| - 1])
  }

  // ResourceBarrier is only called with a non-empty batch.
  function Recorded(bs: seq<Barrier>): seq<Command> {
    if bs == [] then [] else [ResourceBarrier(bs)]
  }

  lemma {:induction false} RunRecorded(g: Gpu, bs: seq<Barrier>)
    ensures Run(g, Recorded(bs)) == ApplyBarriers(g, bs)
  {
    if bs != [] {
      assert Recorded(bs)[..0] == [];
    }
  }

  lemma {:induction false} RunSnoc(g: Gpu, cs: seq<Command>, c: Command)
    ensures Run(g, cs + [c]) == Apply(Run(g, cs), c)
  {
    assert (cs + [c])[..|cs + [c]| - 1] == cs;
  }

  lemma {:induction false} RunConcat(g: Gpu, a: seq<Command>, b: seq<Command>)
    ensures Run(g, a + b) == Run(Run(g, a), b)
    decreases |b|
  {
    if b == [] {
      assert a + b == a;
    } else {
      var n := |b| - 1;
      assert (a + b)[..|a + b| - 1] == a + b[..n];
      RunConcat(g, a, b[..n]);
    }
  }

  lemma {:induction false} BarriersSnoc(g: Gpu, bs: seq<Barrier>, b: Barrier)
    ensures ApplyBarriers(g, bs + [b]) == ApplyBarrier(ApplyBarriers(g, bs), b)
  {
    assert (bs + [b])[..|bs + [b]| - 1] == bs;
  }

  lemma {:induction false} UnsafeBarriersStayUnsafe(g: Gpu, bs: seq<Barrier>)
    requires !g.safe
    ensures !ApplyBarriers(g, bs).safe
    decreases |bs|
  {
    if bs != [] {
      UnsafeBarriersStayUnsafe(g, bs[..|bs| - 1]);
    }
  }

  lemma {:induction false} UnsafeStaysUnsafe(g: Gpu, cs: seq<Command>)
    requires !g.safe
    ensures !Run(g, cs).safe
    decreases |cs|
  {
    if cs != [] {
      UnsafeStaysUnsafe(g, cs[..|cs| - 1]);
      var c := cs[|cs| - 1];
      if c.ResourceBarrier? {
        UnsafeBarriersStayUnsafe(Run(g, cs[..|cs| - 1]), c.barriers);
      }
    }
  }

  lemma {:induction false} IllegalDispatchIsUnsafe(g: Gpu, inputs: seq<Resource>, outputs: seq<Resource>,
        bs: seq<Barrier>)
    requires !DispatchAllowed(g, inputs, outputs)
    ensures !ApplyBarriers(Apply(g, Dispatch(inputs, outputs)), bs).safe
  {
    UnsafeBarriersStayUnsafe(Apply(g, Dispatch(inputs, outputs)), bs);
  }

  // Binding state does not touch the machine: only the dispatch at the end does.
  lemma {:induction false} RunBindings(g: Gpu, pipeline: nat, constants: nat, srv: nat, uav: nat, d: Command)
    ensures Run(g, [SetPipelineState(pipeline), SetConstants(constants), SetTables(srv, uav), d]) == Apply(g, d)
  {
    var a, b, c := SetPipelineState(pipeline), SetConstants(constants), SetTables(srv, uav);
    RunSnoc(g, [], a);
    RunSnoc(g, [a], b);
    RunSnoc(g, [a, b], c);
    RunSnoc(g, [a, b, c], d);
    assert [] + [a] == [a] && [a] + [b] == [a, b] && [a, b] + [c] == [a, b, c] && [a, b, c] + [d] == [a, b, c, d];
  }
}
