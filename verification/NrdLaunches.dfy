/** What each recorded dispatch finds on the GPU (Source/NrdBackend.cpp:603-735): the pipeline, the
    descriptor tables and the constants bound when it runs are its own. */
module NrdLaunches {
  import opened Options
  import opened GpuTrace
  import opened NrdRecording
  import opened NrdSafety
  import opened NrdSlices

  // ----- what is bound when a dispatch runs

  // The last pipeline, constant address and tables bound; None before the first.
  datatype Held = Held(pipeline: Option<nat>, constants: Option<nat>, srvTable: Option<nat>, uavTable: Option<nat>)

  const NOTHING := Held(None, None, None, None)

  function Bind(b: Held, c: Command): Held {
    match c
    case SetPipelineState(pipeline) => b.(pipeline := Some(pipeline))
    case SetConstants(address) => b.(constants := Some(address))
    case SetTables(srvTable, uavTable) => b.(srvTable := Some(srvTable), uavTable := Some(uavTable))
    case _ => b
  }

  function BoundAfter(b: Held, cs: seq<Command>): Held {
    if cs == [] then b else Bind(BoundAfter(b, cs[..|cs| - 1]), cs[|cs| - 1])
  }

  // A dispatch command with what is bound then.
  datatype Launch = Launch(bound: Held, inputs: seq<Resource>, outputs: seq<Resource>)

  function Launches(b: Held, cs: seq<Command>): seq<Launch> {
    if cs == [] then []
    else
      var before, last := cs[..|cs| - 1], cs[|cs| - 1];
      Launches(b, before) +
      if last.Dispatch? then [Launch(BoundAfter(b, before), last.inputs, last.outputs)] else []
  }

  lemma {:induction false} BoundConcat(b: Held, x: seq<Command>, y: seq<Command>)
    ensures BoundAfter(b, x + y) == BoundAfter(BoundAfter(b, x), y)
    ensures Launches(b, x + y) == Launches(b, x) + Launches(BoundAfter(b, x), y)
    decreases |y|
  {
    hide Bind;
    if y == [] {
      assert x + y == x;
    } else {
      var n := |y| - 1;
      assert (x + y)[..|x + y| - 1] == x + y[..n];
      BoundConcat(b, x, y[..n]);
    }
  }

  lemma {:induction false} BarriersLaunchNothing(b: Held, bs: seq<Barrier>)
    ensures BoundAfter(b, Recorded(bs)) == b && Launches(b, Recorded(bs)) == []
  {
    if bs != [] {
      assert Recorded(bs)[..0] == [];
    }
  }

  lemma {:induction false} OneCommand(b: Held, c: Command)
    ensures BoundAfter(b, [c]) == Bind(b, c)
    ensures Launches(b, [c]) == if c.Dispatch? then [Launch(b, c.inputs, c.outputs)] else []
  {
    hide Bind;
    assert [c][..0] == [];
  }

  lemma {:induction false} FourCommands(b: Held, pipeline: nat, address: nat, srv: nat, uav: nat,
        inputs: seq<Resource>, outputs: seq<Resource>)
    ensures var all := Held(Some(pipeline), Some(address), Some(srv), Some(uav));
            var cs := [SetPipelineState(pipeline), SetConstants(address), SetTables(srv, uav),
                       Dispatch(inputs, outputs)];
            BoundAfter(b, cs) == all && Launches(b, cs) == [Launch(all, inputs, outputs)]
  {
    hide BoundAfter, Launches;
    var p, q, r, d := SetPipelineState(pipeline), SetConstants(address), SetTables(srv, uav), Dispatch(inputs, outputs);
    assert [p, q, r, d] == [p] + ([q] + ([r] + [d]));
    BoundConcat(b, [p], [q] + ([r] + [d]));
    OneCommand(b, p);
    var b1 := Bind(b, p);
    BoundConcat(b1, [q], [r] + [d]);
    OneCommand(b1, q);
    var b2 := Bind(b1, q);
    BoundConcat(b2, [r], [d]);
    OneCommand(b2, r);
    OneCommand(Bind(b2, r), d);
  }

  // ----- what dispatch i has to find

  // The resources of one kind before resource j.
  function Before(rs: seq<ResourceDesc>, j: nat, isSrv: bool): set<nat>
    requires j <= |rs|
  {
    set k: nat | k < j && rs[k].isSrv == isSrv
  }

  // Resource j's view is the one in its turn of its table.
  predicate FindsView(h: seq<View>, srvTable: nat, uavTable: nat, names: Names, rs: seq<ResourceDesc>,
        formats: Resource -> nat, j: nat)
    requires j < |rs|
  {
    var at := (if rs[j].isSrv then srvTable else uavTable) + |Before(rs, j, rs[j].isSrv)|;
    && rs[j].ref in names && at < |h|
    && var r := names[rs[j].ref];
       h[at] == if rs[j].isSrv then SrvView(r, formats(r)) else UavView(r, formats(r))
  }

  // The resources accessed are those bound this way.
  ghost predicate Accesses(accessed: seq<Resource>, names: Names, rs: seq<ResourceDesc>, isSrv: bool) {
    forall r :: r in accessed <==> exists j :: 0 <= j < |rs| && rs[j].isSrv == isSrv && BoundTo(names, rs, j, r)
  }

  predicate BoundTo(names: Names, rs: seq<ResourceDesc>, j: nat, r: Resource)
    requires j < |rs|
  {
    rs[j].ref in names && names[rs[j].ref] == r
  }

  // Dispatch l brings constants of its own.
  predicate Brings(d: DispatchDesc) {
    |d.constants| > 0 && !d.constantsMatchPrevious
  }

  // Dispatch l is the last up to i to bring constants.
  predicate LastToBring(ds: seq<DispatchDesc>, l: nat, i: nat)
    requires i < |ds|
  {
    l <= i && Brings(ds[l]) && forall m :: l < m <= i ==> !Brings(ds[m])
  }

  // From `start` on stand these constants, cut to the size of a slot, and zeros behind them.
  predicate FindsData(mem: seq<nat>, start: nat, size: nat, data: seq<nat>) {
    start + size <= |mem| && forall x :: 0 <= x < size ==> mem[start + x] == if x < |data| then data[x] else 0
  }

  // Those of the last dispatch that brought some, or none.
  predicate FindsConstants(mem: seq<nat>, start: nat, size: nat, ds: seq<DispatchDesc>, i: nat)
    requires i < |ds|
  {
    && (forall l: nat :: l <= i && LastToBring(ds, l, i) ==> FindsData(mem, start, size, ds[l].constants))
    && ((forall l :: 0 <= l <= i ==> !Brings(ds[l])) ==> FindsData(mem, start, size, []))
  }

  // The launch is dispatch i's, and finds what it needs.
  ghost predicate FindsAll(launch: Launch, h: seq<View>, mem: seq<nat>, gpuBase: nat, size: nat, names: Names,
        ds: seq<DispatchDesc>, i: nat, formats: Resource -> nat)
    requires i < |ds|
  {
    && launch.bound.pipeline == Some(ds[i].pipelineIndex)
    && Accesses(launch.inputs, names, ds[i].resources, true) && Accesses(launch.outputs, names, ds[i].resources, false)
    && launch.bound.srvTable.Some? && launch.bound.uavTable.Some? && launch.bound.constants.Some?
    && (forall j :: 0 <= j < |ds[i].resources| ==>
          FindsView(h, launch.bound.srvTable.value, launch.bound.uavTable.value, names, ds[i].resources, formats, j))
    && launch.bound.constants.value >= gpuBase
    && FindsConstants(mem, launch.bound.constants.value - gpuBase, size, ds, i)
  }

  // The recorded commands launch exactly the dispatches in order, and each finds what it needs.
  ghost predicate AllFind(commands: seq<Command>, h: seq<View>, mem: seq<nat>, gpuBase: nat, size: nat, names: Names,
        ds: seq<DispatchDesc>, formats: Resource -> nat) {
    && |Launches(NOTHING, commands)| == |ds|
    && forall i :: 0 <= i < |ds| ==>
         FindsAll(Launches(NOTHING, commands)[i], h, mem, gpuBase, size, names, ds, i, formats)
  }

  // ----- and does

  // What the recording binds for dispatch i.
  function OwnLaunch(names: Names, ds: seq<DispatchDesc>, i: nat, layout: Layout): Launch
    requires i < |ds| && Resolved(names, ds[i].resources)
  {
    Launch(Held(Some(ds[i].pipelineIndex), Some(ConstantsAddress(layout, ds, i)), Some(SetBase(layout, i)),
        Some(SetBase(layout, i) + layout.srvCount)), Inputs(names, ds[i]), Outputs(names, ds[i]))
  }

  lemma {:induction false} DispatchLaunches(b: Held, names: Names, s: States, ds: seq<DispatchDesc>, i: nat,
        layout: Layout)
    requires i < |ds| && Resolved(names, ds[i].resources) && names.Keys <= s.Keys
    ensures Launches(b, DispatchTrace(names, s, ds, i, layout, true)) == [OwnLaunch(names, ds, i, layout)]
  {
    hide Launches, BoundAfter, Recorded, Transitions, UavBarriers, Written, Inputs, Outputs, ConstantsAddress, SetBase,
        ResolvedUpTo;
    var transitions, barriers := DispatchTransitions(names, s, ds[i]), ExplicitBarriers(names, ds, i, true);
    var binds := BindAndDispatch(names, ds, i, layout);
    BoundConcat(b, Recorded(transitions) + binds, Recorded(barriers));
    BoundConcat(b, Recorded(transitions), binds);
    BarriersLaunchNothing(b, transitions);
    FourCommands(b, ds[i].pipelineIndex, ConstantsAddress(layout, ds, i), SetBase(layout, i),
        SetBase(layout, i) + layout.srvCount, Inputs(names, ds[i]), Outputs(names, ds[i]));
    BarriersLaunchNothing(BoundAfter(b, Recorded(transitions) + binds), barriers);
  }

  lemma {:induction false} TraceLaunches(b: Held, names: Names, s: States, ds: seq<DispatchDesc>, k: nat,
        layout: Layout)
    requires k <= |ds| && (forall j :: 0 <= j < k ==> Resolved(names, ds[j].resources)) && names.Keys <= s.Keys
    ensures |Launches(b, Trace(names, s, ds, k, layout, true))| == k
    ensures forall i :: 0 <= i < k ==>
              Launches(b, Trace(names, s, ds, k, layout, true))[i] == OwnLaunch(names, ds, i, layout)
  {
    hide Launches, BoundAfter, Trace, StatesAfter, DispatchTrace, OwnLaunch, ResolvedUpTo;
    if k == 0 {
      NothingTraced(names, s, ds, layout, true);
      NothingLaunched(b);
    } else {
      TraceLaunches(b, names, s, ds, k - 1, layout);
      TraceSnoc(names, s, ds, k - 1, layout, true);
      var before := Trace(names, s, ds, k - 1, layout, true);
      var now := StatesAfter(s, ds, k - 1);
      BoundConcat(b, before, DispatchTrace(names, now, ds, k - 1, layout, true));
      DispatchLaunches(BoundAfter(b, before), names, now, ds, k - 1, layout);
    }
  }

  lemma NothingLaunched(b: Held)
    ensures Launches(b, []) == []
  {
  }

  lemma {:induction false} EvaluationLaunches(names: Names, s: States, ds: seq<DispatchDesc>, kinds: nat,
        layout: Layout)
    requires AllResolved(names, ds) && Resolved(names, BackToUav(kinds)) && names.Keys <= s.Keys
    ensures var launches := Launches(NOTHING, EvaluationTrace(names, s, ds, kinds, layout, true));
            |launches| == |ds| && forall i :: 0 <= i < |ds| ==> launches[i] == OwnLaunch(names, ds, i, layout)
  {
    hide Launches, BoundAfter, Trace, StatesAfter, OwnLaunch, ResolvedUpTo, FinalTransitions, Recorded;
    var before := Trace(names, s, ds, |ds|, layout, true);
    var back := FinalTransitions(names, StatesAfter(s, ds, |ds|), kinds);
    TraceLaunches(NOTHING, names, s, ds, |ds|, layout);
    BoundConcat(NOTHING, before, Recorded(back));
    BarriersLaunchNothing(BoundAfter(NOTHING, before), back);
  }

  lemma {:induction false} CountsKind(rs: seq<ResourceDesc>, j: nat, isSrv: bool)
    requires j <= |rs|
    ensures |Before(rs, j, isSrv)| == KindCount(rs, j, isSrv)
  {
    if j > 0 {
      CountsKind(rs, j - 1, isSrv);
      var before := Before(rs, j - 1, isSrv);
      assert Before(rs, j, isSrv) == if rs[j - 1].isSrv == isSrv then before + {j - 1} else before;
    } else {
      assert Before(rs, 0, isSrv) == {};
    }
  }

  lemma {:induction false} WrittenIsFound(h: seq<View>, shape: SetShape, names: Names, rs: seq<ResourceDesc>,
        formats: Resource -> nat, j: nat)
    requires Resolved(names, rs) && j < |rs| && FullyWritten(h, shape, names, rs, formats)
    ensures FindsView(h, shape.setBase, shape.setBase + shape.srvCount, names, rs, formats, j)
  {
    hide KindCount, Before;
    CountsKind(rs, j, rs[j].isSrv);
    assert HoldsView(h, shape, BindingAt(names, rs, formats, j));
  }

  lemma {:induction false} AccessesBound(names: Names, rs: seq<ResourceDesc>, isSrv: bool, accessed: seq<Resource>)
    requires Resolved(names, rs) && accessed == Bound(names, rs, |rs|, isSrv)
    ensures Accesses(accessed, names, rs, isSrv)
  {
    hide Bound;
    forall r ensures r in accessed <==> exists j :: 0 <= j < |rs| && rs[j].isSrv == isSrv && BoundTo(names, rs, j, r) {
      BoundMeans(names, rs, |rs|, isSrv, r);
      if r in accessed {
        var j :| 0 <= j < |rs| && rs[j].isSrv == isSrv && names[rs[j].ref] == r;
        assert BoundTo(names, rs, j, r);
      }
    }
  }

  // What the recording calls the effective constants is what the last dispatch brought.
  lemma {:induction false} EffectiveIsLast(ds: seq<DispatchDesc>, i: nat, size: nat, l: nat)
    requires i < |ds| && LastToBring(ds, l, i)
    ensures EffectiveConstants(ds, i, size) == Padded(ds[l].constants, size)
  {
    hide Padded;
    if l < i {
      assert !Brings(ds[i]);
      EffectiveIsLast(ds, i - 1, size, l);
    }
  }

  lemma {:induction false} EffectiveIsNone(ds: seq<DispatchDesc>, i: nat, size: nat)
    requires i < |ds| && forall l :: 0 <= l <= i ==> !Brings(ds[l])
    ensures EffectiveConstants(ds, i, size) == Padded([], size)
  {
    hide Padded;
    assert !Brings(ds[i]);
    if i > 0 {
      EffectiveIsNone(ds, i - 1, size);
    }
  }

  lemma {:induction false} HeldIsFound(mem: seq<nat>, start: nat, size: nat, data: seq<nat>)
    requires start + size <= |mem| && mem[start..start + size] == Padded(data, size)
    ensures FindsData(mem, start, size, data)
  {
    forall x | 0 <= x < size ensures mem[start + x] == if x < |data| then data[x] else 0 {
      assert mem[start..start + size][x] == mem[start + x];
    }
  }

  lemma {:induction false} PlacedIsFound(mem: seq<nat>, begin: nat, size: nat, ds: seq<DispatchDesc>, i: nat, k: nat)
    requires i < k <= |ds| && ConstantsPlaced(mem, begin, size, ds, k)
    ensures FindsConstants(mem, SlotStart(begin, size, SlotsUsed(ds, i + 1) - 1), size, ds, i)
  {
    hide Padded, EffectiveConstants, SlotsUsed, SlotStart, FindsData, LastToBring, Brings;
    var start := SlotStart(begin, size, SlotsUsed(ds, i + 1) - 1);
    assert HoldsConstants(mem, begin, size, SlotsUsed(ds, i + 1) - 1, EffectiveConstants(ds, i, size));
    forall l: nat | l <= i && LastToBring(ds, l, i) ensures FindsData(mem, start, size, ds[l].constants) {
      EffectiveIsLast(ds, i, size, l);
      HeldIsFound(mem, start, size, ds[l].constants);
    }
    if forall l :: 0 <= l <= i ==> !Brings(ds[l]) {
      EffectiveIsNone(ds, i, size);
      HeldIsFound(mem, start, size, []);
    }
  }

  // From what a successful evaluation leaves in the command list, the heap and the constant buffer.
  lemma {:induction false} EvaluationFinds(h: seq<View>, mem: seq<nat>, names: Names, s: States, ds: seq<DispatchDesc>,
        kinds: nat, layout: Layout, sizes: Sizes, f: nat, gpuBase: nat, begin: nat, formats: Resource -> nat)
    requires AllResolved(names, ds) && Resolved(names, BackToUav(kinds)) && names.Keys <= s.Keys
    requires AllWritten(h, sizes, f, names, ds, |ds|, formats)
    requires ConstantsPlaced(mem, begin, layout.constantStride, ds, |ds|) && layout.constants == gpuBase + begin
    requires layout.tables == TableBase(f, 0, sizes.setCount, layout.setStride) && layout.srvCount == sizes.srvCount
    requires layout.setStride == sizes.srvCount + sizes.uavCount
    ensures AllFind(EvaluationTrace(names, s, ds, kinds, layout, true), h, mem, gpuBase, layout.constantStride, names,
          ds, formats)
  {
    hide EvaluationTrace, Launches, TableBase, Accesses, ConstantsPlaced, FullyWritten, FindsView, FindsConstants,
        SlotStart, ConstantsAddress, SetBase, Bound, ResolvedUpTo, SlotsUsed;
    EvaluationLaunches(names, s, ds, kinds, layout);
    var size := layout.constantStride;
    forall i | 0 <= i < |ds|
      ensures FindsAll(OwnLaunch(names, ds, i, layout), h, mem, gpuBase, size, names, ds, i, formats)
    {
      AddressOfSlot(layout, gpuBase, begin, ds, i);
      BaseOfSet(layout, sizes, f, i);
      PlacedIsFound(mem, begin, size, ds, i, |ds|);
      var srv, uav, rs := SetBase(layout, i), SetBase(layout, i) + layout.srvCount, ds[i].resources;
      forall j | 0 <= j < |rs| ensures FindsView(h, srv, uav, names, rs, formats, j) {
        WrittenIsFound(h, SetOf(sizes, f, i), names, rs, formats, j);
      }
      AccessesBound(names, rs, true, Inputs(names, ds[i]));
      AccessesBound(names, rs, false, Outputs(names, ds[i]));
    }
  }
}
