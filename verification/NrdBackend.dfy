/** The NRD dispatch bridge (Source/NrdBackend.cpp): it replays the dispatches handed over by the
    denoiser library into a command list, tracking texture states, re-using descriptors written in
    earlier evaluations, and sub-allocating constants from the slice of the current frame. */
module NrdBackend {
  import opened Options
  import opened GpuTrace
  import opened NrdRecording
  import opened NrdSafety
  import opened NrdSlices
  import opened NrdLaunches

  datatype Failure =
    | NoFailure
    | NotReady
    | IncompleteResources
    | SettingsRejected
    | ExtractionFailed
    | UnavailablePipeline
    | TooFewDescriptorSets
    | UnsupportedResource
    | TooManySrvs
    | TooManyUavs
    | ConstantRingTooSmall
    | InitializationFailed

  // What the denoiser library asks for.
  datatype InstanceDesc = InstanceDesc(
    texturesPerSet: nat,
    storageTexturesPerSet: nat,
    setsMax: nat,
    pipelines: nat,
    constantDataMax: nat)

  function Max(a: nat, b: nat): (m: nat)
    ensures a <= m && b <= m && (m == a || m == b)
  {
    if a < b then b else a
  }

  // Rounds up to the placement alignment of constants; AlignUp in the source masks the low bits.
  function AlignUp(value: nat): (r: nat)
    ensures r % 256 == 0 && value <= r < value + 256
  {
    (value + 255) / 256 * 256
  }

  function PoolTable(permanent: seq<Resource>, transient: seq<Resource>): (names: Names)
    ensures NULL !in permanent && NULL !in transient ==> forall ref :: ref in names ==> names[ref] != NULL
  {
    (map i | 0 <= i < |permanent| :: Permanent(i) := permanent[i]) +
    (map i | 0 <= i < |transient| :: Transient(i) := transient[i])
  }

  // The textures the caller passes in; a null pointer where it has none.
  datatype EvaluationDesc = EvaluationDesc(
    frameContextIndex: nat,
    motion: Resource,
    normalRoughness: Resource,
    viewZ: Resource,
    diffuseRadiance: Resource,
    specularRadiance: Resource,
    diffuseOutput: Resource,
    specularOutput: Resource,
    diffuseConfidence: Resource,
    specularConfidence: Resource)

  predicate Complete(desc: EvaluationDesc) {
    && desc.motion != NULL && desc.normalRoughness != NULL && desc.viewZ != NULL
    && desc.diffuseRadiance != NULL && desc.specularRadiance != NULL
    && desc.diffuseOutput != NULL && desc.specularOutput != NULL
  }

  // The external resources in the order they are added; confidence only comes in pairs.
  function ExternalList(desc: EvaluationDesc): (list: seq<Resource>)
    ensures Complete(desc) ==> NULL !in list
  {
    [desc.motion, desc.normalRoughness, desc.viewZ, desc.diffuseRadiance, desc.specularRadiance,
     desc.diffuseOutput, desc.specularOutput] +
    if desc.diffuseConfidence != NULL && desc.specularConfidence != NULL then
      [desc.diffuseConfidence, desc.specularConfidence]
    else []
  }

  function ExternalNames(list: seq<Resource>): (names: Names)
    ensures forall ref :: ref in names <==> ref.External? && ref.kind < |list|
    ensures forall ref :: ref in names ==> names[ref] == list[ref.kind]
  {
    map k | 0 <= k < |list| :: External(k) := list[k]
  }

  function PoolNames(names: Names): (pool: Names)
    ensures forall ref :: ref in pool <==> ref in names && !ref.External?
    ensures forall ref :: ref in pool ==> pool[ref] == names[ref]
  {
    map ref | ref in names && !ref.External? :: names[ref]
  }

  // The lookups an evaluation can make: the pools as they are, and the textures passed in.
  function NamesFor(names: Names, desc: EvaluationDesc): (all: Names)
  {
    PoolNames(names) + ExternalNames(ExternalList(desc))
  }

  // Textures passed in arrive in the unordered-access state.
  function StatesFor(states: States, desc: EvaluationDesc): States {
    states + ExternalStates(ExternalNames(ExternalList(desc)))
  }

  function FrameOf(desc: EvaluationDesc, frameContextCount: nat): nat {
    if frameContextCount == 0 then 0 else desc.frameContextIndex % frameContextCount
  }

  class CommandList {
    var trace: seq<Command>

    constructor ()
      ensures trace == []
    {
      trace := [];
    }

    method Record(c: Command)
      modifies this
      ensures trace == old(trace) + [c]
    {
      trace := trace + [c];
    }

    // Binds pipeline, constants and tables, and dispatches.
    method RecordDispatch(pipeline: nat, constants: nat, srvTable: nat, uavTable: nat, inputs: seq<Resource>,
          outputs: seq<Resource>)
      modifies this
      ensures trace
            == old(trace)
            + [SetPipelineState(pipeline), SetConstants(constants), SetTables(srvTable, uavTable),
            Dispatch(inputs, outputs)]
    {
      Record(SetPipelineState(pipeline));
      Record(SetConstants(constants));
      Record(SetTables(srvTable, uavTable));
      Record(Dispatch(inputs, outputs));
    }

    method RecordBarriers(bs: seq<Barrier>)
      modifies this
      ensures trace == old(trace) + Recorded(bs)
    {
      if bs != [] {
        trace := trace + [ResourceBarrier(bs)];
      }
    }
  }

  class NrdBackend {
    var evaluationReady: bool
    var failure: Failure
    var instanceAlive: bool
    var historyResetRequested: bool
    var frameContextCount: nat
    var srvCount: nat
    var uavCount: nat
    var setStride: nat
    var setCount: nat
    var pipelines: seq<bool>
    // The two pools, and during an evaluation also the caller's textures.
    var names: Names
    var states: States
    var caches: seq<seq<DispatchCache>>
    var heap: array<View>
    var constants: array<nat>
    var constantStride: nat
    var frameStride: nat
    var cursor: nat
    var lastAddress: nat
    // GPU address of the constant buffer.
    var gpuBase: nat

    constructor ()
      ensures Valid() && !evaluationReady && !instanceAlive && fresh(heap) && fresh(constants)
    {
      evaluationReady, instanceAlive, failure, historyResetRequested := false, false, NoFailure, false;
      names, states, caches, pipelines := map[], map[], [], [];
      heap, constants := new View[0], new nat[0];
    }

    // Initialize. `created` is whether every device and library call succeeds; `permanent` and
    // `transient` are the pool textures the device then hands out, `address` the buffer's address.
    method Initialize(desc: InstanceDesc, permanent: seq<Resource>, transient: seq<Resource>, address: nat,
          frames: nat, created: bool)
      requires created ==> NULL !in permanent && NULL !in transient && address > 0
      modifies this
      ensures Valid() && evaluationReady == created && instanceAlive == created
      ensures created ==>
                && fresh(heap) && fresh(constants)
                && frameContextCount == Max(frames, 1)
                && srvCount == Max(1, desc.texturesPerSet) && uavCount == Max(1, desc.storageTexturesPerSet)
                && setCount == Max(128, Max(desc.setsMax + 4, desc.pipelines + 4))
                && constantStride == AlignUp(Max(1, desc.constantDataMax))
                && pipelines == seq(desc.pipelines, _ => true)
                && names == PoolTable(permanent, transient)
                && names.Keys <= states.Keys && (forall ref :: ref in names ==> states[ref] == UnorderedAccess)
                && (forall f :: 0 <= f < |caches| ==> caches[f] == [])
    {
      hide Sized, BridgeSizes, PoolTable, AlignUp, Max, CachesAgree;
      Shutdown();
      evaluationReady, historyResetRequested := false, false;
      failure := InitializationFailed;
      if created {
        CreateResources(desc, permanent, transient, address, frames);
        failure, instanceAlive, evaluationReady := NoFailure, true, true;
      }
    }

    method CreateResources(desc: InstanceDesc, permanent: seq<Resource>, transient: seq<Resource>, address: nat,
          frames: nat)
      requires NULL !in permanent && NULL !in transient && address > 0
      modifies this`frameContextCount, this`srvCount, this`uavCount, this`setStride, this`setCount, this`heap
      modifies this`caches, this`constantStride, this`frameStride, this`gpuBase, this`constants
      modifies this`names, this`states, this`pipelines
      ensures Sized() && CachesAgree(heap[..], caches, BridgeSizes())
      ensures fresh(heap) && fresh(constants) && frameContextCount == Max(frames, 1)
      ensures srvCount == Max(1, desc.texturesPerSet) && uavCount == Max(1, desc.storageTexturesPerSet)
      ensures setCount == Max(128, Max(desc.setsMax + 4, desc.pipelines + 4))
      ensures constantStride == AlignUp(Max(1, desc.constantDataMax)) && pipelines == seq(desc.pipelines, _ => true)
      ensures names == PoolTable(permanent, transient) && names.Keys <= states.Keys
      ensures forall ref :: ref in names ==> names[ref] != NULL && states[ref] == UnorderedAccess
      ensures forall f :: 0 <= f < |caches| ==> caches[f] == []
    {
      hide TableBase, SlotStart, PoolTable, AlignUp, Max, CachesAgree;
      CreateTables(desc, frames);
      CreateConstants(desc, address);
      CreatePools(desc, permanent, transient);
      EmptyCachesAgree(heap[..], caches, BridgeSizes());
    }

    method CreatePools(desc: InstanceDesc, permanent: seq<Resource>, transient: seq<Resource>)
      modifies this`names, this`states, this`pipelines
      ensures names == PoolTable(permanent, transient) && names.Keys <= states.Keys
      ensures forall ref :: ref in names ==> states[ref] == UnorderedAccess
      ensures pipelines == seq(desc.pipelines, _ => true)
    {
      hide PoolTable;
      names := PoolTable(permanent, transient);
      states := map ref | ref in names :: UnorderedAccess;
      pipelines := seq(desc.pipelines, _ => true);
    }

    method CreateTables(desc: InstanceDesc, frames: nat)
      modifies this`frameContextCount, this`srvCount, this`uavCount, this`setStride, this`setCount, this`heap,
            this`caches
      ensures frameContextCount == Max(frames, 1)
      ensures srvCount == Max(1, desc.texturesPerSet) && uavCount == Max(1, desc.storageTexturesPerSet)
      ensures setCount == Max(128, Max(desc.setsMax + 4, desc.pipelines + 4)) && setStride == srvCount + uavCount
      ensures fresh(heap) && heap.Length == TableBase(frameContextCount, 0, setCount, setStride)
      ensures |caches| == frameContextCount && forall f :: 0 <= f < |caches| ==> caches[f] == []
      ensures frameContextCount > 0
    {
      hide TableBase;
      frameContextCount := Max(frames, 1);
      srvCount := Max(1, desc.texturesPerSet);
      uavCount := Max(1, desc.storageTexturesPerSet);
      setStride := srvCount + uavCount;
      setCount := Max(128, Max(desc.setsMax + 4, desc.pipelines + 4));
      var descriptors := TableBase(frameContextCount, 0, setCount, setStride);
      heap := new View[descriptors](_ => NoView);
      caches := seq(frameContextCount, _ => []);
    }

    method CreateConstants(desc: InstanceDesc, address: nat)
      requires setCount == Max(128, Max(desc.setsMax + 4, desc.pipelines + 4))
      modifies this`constantStride, this`frameStride, this`gpuBase, this`constants
      ensures constantStride == AlignUp(Max(1, desc.constantDataMax)) && gpuBase == address
      ensures SlotStart(0, constantStride, setCount) <= frameStride
      ensures fresh(constants) && constants.Length == SlotStart(0, frameStride, frameContextCount)
    {
      hide SlotStart, AlignUp;
      var capacity := Max(setCount, Max(desc.setsMax + 4, desc.pipelines + 4));
      constantStride := AlignUp(Max(1, desc.constantDataMax));
      frameStride := SlotStart(0, constantStride, capacity);
      gpuBase := address;
      constants := new nat[SlotStart(0, frameStride, frameContextCount)](_ => 0);
    }

    // Forgets the tables and pools. The arrays of the heap and the constant buffer stay allocated here,
    // but nothing refers to their contents.
    method ReleaseBridgeResources()
      modifies this`pipelines, this`names, this`states, this`caches, this`srvCount, this`uavCount, this`setStride
      modifies this`setCount, this`constantStride, this`frameStride, this`cursor, this`lastAddress
      ensures pipelines == [] && names == map[] && states == map[] && caches == []
      ensures srvCount == uavCount == setCount == 1 && setStride == 2
      ensures constantStride == frameStride == 256 && cursor == lastAddress == 0
    {
      hide *;
      pipelines, names, states, caches := [], map[], map[], [];
      srvCount, uavCount, setStride, setCount := 1, 1, 2, 1;
      constantStride, frameStride, cursor, lastAddress := 256, 256, 0, 0;
    }

    // Releases everything but leaves the ready flag; without an instance it is not enough.
    method Shutdown()
      modifies this
      ensures Valid() && !instanceAlive && evaluationReady == old(evaluationReady) && failure == old(failure)
      ensures pipelines == [] && names == map[] && states == map[] && caches == []
      ensures srvCount == uavCount == setCount == 1 && setStride == 2
      ensures constantStride == frameStride == 256 && cursor == lastAddress == 0
      ensures heap == old(heap) && constants == old(constants)
    {
      hide Sized, CachesAgree;
      ReleaseBridgeResources();
      instanceAlive := false;
    }

    method ResetHistory()
      requires Valid()
      modifies this`historyResetRequested
      ensures Valid() && historyResetRequested
    {
      historyResetRequested := true;
    }

    method ResolveResource(d: ResourceDesc) returns (resource: Resource, barriers: seq<Barrier>)
      requires names.Keys <= states.Keys
      modifies this`states
      ensures resource == if d.ref in names then names[d.ref] else NULL
      ensures names.Keys <= states.Keys
      ensures resource != NULL ==>
                states == old(states)[d.ref := Desired(d)] && barriers == Transition1(names, old(states), d)
    {
      barriers := [];
      if d.ref !in names || names[d.ref] == NULL {
        resource := NULL;
      } else {
        resource := names[d.ref];
        if states[d.ref] != Desired(d) {
          barriers := [Transition(resource, states[d.ref], Desired(d))];
          states := states[d.ref := Desired(d)];
        }
      }
    }

    // Writes the k-th descriptor unless the cache already records it; then it was there before.
    method BindDescriptor(rs: seq<ResourceDesc>, formats: Resource -> nat, k: nat, binding: Binding,
                          bindings: seq<Binding>, layoutMatches: bool, shape: SetShape)
        returns (bindings': seq<Binding>)
      requires SetInProgress(heap[..], shape, names, rs, formats, k, bindings, layoutMatches)
      requires k < |rs| == |bindings| && rs[k].ref in names && binding == BindingAt(names, rs, formats, k)
      requires InSet(binding, shape) && Fits(heap[..], shape)
      modifies heap
      ensures SetInProgress(heap[..], shape, names, rs, formats, k + 1, bindings', layoutMatches)
      ensures OnlyChangedWithin(old(heap[..]), heap[..], shape)
    {
      hide BindingAt, HoldsView, SetInProgress, ViewOf;
      if !layoutMatches || bindings[k] != binding {
        DescriptorStep(heap[..], shape, names, rs, formats, k, bindings, layoutMatches, binding);
        ghost var h := heap[..];
        heap[shape.setBase + Offset(binding, shape)] := ViewOf(binding);
        assert heap[..] == h[shape.setBase + Offset(binding, shape) := ViewOf(binding)];
        bindings' := bindings[k := binding];
      } else {
        DescriptorKept(heap[..], shape, names, rs, formats, k, bindings);
        bindings' := bindings;
      }
    }

    // One turn of the resource loop.
    method BindResource(ghost s: States, rs: seq<ResourceDesc>, k: nat, w: Walk, bindings: seq<Binding>,
          layoutMatches: bool,
                        shape: SetShape, formats: Resource -> nat)
        returns (fault: Failure, w': Walk, bindings': seq<Binding>)
      requires k < |rs| == |bindings| && names.Keys <= states.Keys && Fits(heap[..], shape)
      requires Walked(names, s, rs, k, states, w, shape)
      requires SetInProgress(heap[..], shape, names, rs, formats, k, bindings, layoutMatches)
      modifies this`states, heap
      ensures names.Keys <= states.Keys
      ensures fault in {NoFailure, UnsupportedResource, TooManySrvs, TooManyUavs}
      ensures fault == NoFailure <==> Bindable(names, rs, k + 1, shape)
      ensures fault == NoFailure ==> Walked(names, s, rs, k + 1, states, w', shape)
      ensures fault == NoFailure ==> SetInProgress(heap[..], shape, names, rs, formats, k + 1, bindings', layoutMatches)
      ensures OnlyChangedWithin(old(heap[..]), heap[..], shape)
    {
      hide KindCount, Moved, Transitions, WrittenOnce, SetInProgress, Bindable;
      var d := rs[k];
      w', bindings' := w, bindings;
      WalkStep(names, s, rs, k, states, w, shape);
      var resource, barriers := ResolveResource(d);
      if resource == NULL {
        fault := UnsupportedResource;
      } else if d.isSrv && w.srvIndex >= shape.srvCount {
        fault := TooManySrvs;
      } else if !d.isSrv && w.uavIndex >= shape.uavCount {
        fault := TooManyUavs;
      } else {
        fault := NoFailure;
        w' := WalkOn(w, d, resource, barriers);
        var index := if d.isSrv then w.srvIndex else w.uavIndex;
        bindings' := BindDescriptor(rs, formats, k, Binding(resource, formats(resource), index, d.isSrv), bindings,
            layoutMatches, shape);
      }
    }

    // The resource loop for one dispatch: transitions are collected and only descriptors whose view
    // changed are written, yet afterwards the whole set is as if all of them had been written.
    method BindResources(rs: seq<ResourceDesc>, cache: DispatchCache, pipelineIndex: nat, shape: SetShape,
          formats: Resource -> nat)
        returns (fault: Failure, transitions: seq<Barrier>, written: seq<Resource>, cache': DispatchCache)
      requires names.Keys <= states.Keys && Fits(heap[..], shape) && SetAgrees(heap[..], shape, cache)
      modifies this`states, heap
      ensures OnlyChangedWithin(old(heap[..]), heap[..], shape) && names.Keys <= states.Keys
      ensures fault in {NoFailure, UnsupportedResource, TooManySrvs, TooManyUavs}
      ensures fault == NoFailure <==> Bindable(names, rs, |rs|, shape)
      ensures fault == NoFailure ==>
                && Resolved(names, rs)
                && states == Moved(old(states), rs, |rs|)
                && transitions == Transitions(names, old(states), rs, |rs|)
                && written == WrittenOnce(names, rs, |rs|)
                && FullyWritten(heap[..], shape, names, rs, formats)
                && SetAgrees(heap[..], shape, cache')
    {
      hide KindCount, Moved, Transitions, WrittenOnce, HoldsView, BindingAt;
      ghost var s := states;
      var layoutMatches := cache.valid && cache.pipelineIndex == pipelineIndex && |cache.bindings| == |rs|;
      var bindings := if layoutMatches then cache.bindings else
        seq(|rs|, j requires 0 <= j < |rs| =>
          if j < |cache.bindings| then cache.bindings[j] else Binding(NULL, 0, 0, false));
      var w := Walk(0, 0, [], []);
      var k := 0;
      StartWalk(names, s, rs, shape);
      while k < |rs|
        invariant 0 <= k <= |rs| == |bindings| && names.Keys <= states.Keys
        invariant OnlyChangedWithin(old(heap[..]), heap[..], shape)
        invariant Walked(names, s, rs, k, states, w, shape)
        invariant SetInProgress(heap[..], shape, names, rs, formats, k, bindings, layoutMatches)
      {
        fault, w, bindings := BindResource(s, rs, k, w, bindings, layoutMatches, shape, formats);
        if fault != NoFailure {
          cache' := DispatchCache(pipelineIndex, layoutMatches, bindings);
          transitions, written := w.transitions, w.written;
          BindableNeedsPrefix(names, rs, k + 1, shape);
          return;
        }
        k := k + 1;
      }
      fault := NoFailure;
      transitions, written := w.transitions, w.written;
      cache' := DispatchCache(pipelineIndex, true, bindings);
    }

    // The constants of dispatch i: a fresh slot, or the one used last.
    method PlaceConstants(ds: seq<DispatchDesc>, i: nat, ghost begin: nat, frameEnd: nat) returns (fits: bool)
      requires i < |ds| && gpuBase > 0 && frameEnd <= constants.Length
      requires ConstantState(constants[..], cursor, lastAddress, begin, gpuBase, constantStride, ds, i)
      requires i == 0 ==> cursor + constantStride <= constants.Length
      modifies this`cursor, this`lastAddress, constants
      ensures fits <==> !(Uploads(ds[i]) && old(cursor) + constantStride > frameEnd)
      ensures fits ==> ConstantState(constants[..], cursor, lastAddress, begin, gpuBase, constantStride, ds, i + 1)
      ensures forall a :: 0 <= a < constants.Length && !(old(cursor) <= a < old(cursor) + constantStride) ==>
            constants[a] == old(constants[a])
    {
      hide ConstantsPlaced, SlotsUsed, SlotStart;
      ghost var mem := constants[..];
      ConstantStep(mem, cursor, lastAddress, begin, gpuBase, constantStride, ds, i);
      fits := true;
      if Uploads(ds[i]) {
        if cursor + constantStride > frameEnd {
          fits := false;
          return;
        }
        FillSlot(ds[i].constants);
      } else if lastAddress == 0 {
        FillSlot([]);
      }
    }

    method FillSlot(data: seq<nat>)
      requires cursor + constantStride <= constants.Length
      modifies this`cursor, this`lastAddress, constants
      ensures constants[..] == WriteAt(old(constants[..]), old(cursor), Padded(data, constantStride))
      ensures lastAddress == gpuBase + old(cursor) && cursor == old(cursor) + constantStride
    {
      forall j | 0 <= j < constantStride {
        constants[cursor + j] := if j < |data| then data[j] else 0;
      }
      lastAddress := gpuBase + cursor;
      cursor := cursor + constantStride;
    }

    // True when the dispatch that follows turns the resource into a shader resource anyway.
    method NextTransitionsToSrv(next: seq<ResourceDesc>, resource: Resource) returns (usedAsSrv: bool)
      requires resource != NULL
      ensures usedAsSrv == NextOnlyReads(names, next, resource)
    {
      usedAsSrv := false;
      for i := 0 to |next|
        invariant usedAsSrv <==> exists j :: 0 <= j < i && next[j].ref in names && names[next[j].ref] == resource
        invariant forall j :: 0 <= j < i && next[j].ref in names && names[next[j].ref] == resource ==> next[j].isSrv
      {
        var found := if next[i].ref in names then names[next[i].ref] else NULL;
        if found == resource {
          if !next[i].isSrv {
            usedAsSrv := false;
            return;
          }
          usedAsSrv := true;
        }
      }
    }

    method CollectUavBarriers(written: seq<Resource>, next: seq<ResourceDesc>) returns (barriers: seq<Barrier>)
      requires NULL !in written
      ensures barriers == UavBarriers(names, written, |written|, next, true)
    {
      barriers := [];
      for k := 0 to |written|
        invariant barriers == UavBarriers(names, written, k, next, true)
      {
        var skip := NextTransitionsToSrv(next, written[k]);
        if !skip {
          barriers := barriers + [UavBarrier(written[k])];
        }
      }
    }

    ghost function BridgeSizes(): Sizes
      reads this`frameContextCount, this`setCount, this`srvCount, this`uavCount
    {
      Sizes(frameContextCount, setCount, srvCount, uavCount)
    }

    ghost function BridgeLayout(frame: nat): Layout
      reads this`setCount, this`setStride, this`srvCount, this`gpuBase, this`frameStride, this`constantStride
    {
      Layout(TableBase(frame, 0, setCount, setStride), setStride, srvCount, gpuBase + SlotStart(0, frameStride, frame),
          constantStride)
    }

    // The shape every successful initialisation gives the bridge.
    ghost predicate Sized()
      reads this`frameContextCount, this`setCount, this`srvCount, this`uavCount, this`setStride, this`gpuBase
      reads this`frameStride, this`constantStride, this`heap, this`constants, this`caches
    {
      && frameContextCount > 0 && gpuBase > 0
      && setStride == srvCount + uavCount
      && heap.Length == TableBase(frameContextCount, 0, setCount, setStride)
      && SlotStart(0, constantStride, setCount) <= frameStride
      && constants.Length == SlotStart(0, frameStride, frameContextCount)
      && |caches| == frameContextCount
    }

    // While the bridge is ready, what it remembers is true. A failed evaluation clears the flag.
    ghost predicate Valid()
      reads this, heap
    {
      evaluationReady && instanceAlive ==>
        Sized() && CachesAgree(heap[..], caches, BridgeSizes()) &&
        names.Keys <= states.Keys && (forall ref :: ref in names ==> names[ref] != NULL)
    }

    // The checks and the resource loop of one dispatch.
    method BindDispatch(d: DispatchDesc, i: nat, frame: nat, formats: Resource -> nat)
        returns (fault: Failure, transitions: seq<Barrier>, written: seq<Resource>)
      requires Sized() && frame < frameContextCount && i < |caches[frame]| && names.Keys <= states.Keys
      requires CachesAgree(heap[..], caches, BridgeSizes())
      modifies this`states, this`caches, heap
      ensures names.Keys <= states.Keys
      ensures |caches| == |old(caches)| && forall f :: 0 <= f < |caches| ==> |caches[f]| == |old(caches)[f]|
      ensures fault in {NoFailure, UnavailablePipeline, TooFewDescriptorSets, UnsupportedResource, TooManySrvs,
            TooManyUavs}
      ensures fault == NoFailure <==> Recordable(names, pipelines, d, setCount, i, SetOf(BridgeSizes(), frame, i))
      ensures fault == NoFailure ==>
                && Resolved(names, d.resources)
                && transitions == DispatchTransitions(names, old(states), d)
                && written == Written(names, d)
                && states == Moved(old(states), d.resources, |d.resources|)
                && CachesAgree(heap[..], caches, BridgeSizes())
                && FullyWritten(heap[..], SetOf(BridgeSizes(), frame, i), names, d.resources, formats)
                && OnlyChangedWithin(old(heap[..]), heap[..], SetOf(BridgeSizes(), frame, i))
    {
      hide TableBase, HoldsView, BindingAt, KindCount, Moved, Transitions, WrittenOnce, Bound, Bindable,
          OnlyChangedWithin, FullyWritten, SetAgrees;
      transitions, written := [], [];
      if d.pipelineIndex >= |pipelines| || !pipelines[d.pipelineIndex] {
        fault := UnavailablePipeline;
        return;
      }
      if i >= setCount {
        fault := TooFewDescriptorSets;
        return;
      }
      ghost var sizes, h := BridgeSizes(), heap[..];
      var shape := SetShape(TableBase(frame, i, setCount, setStride), srvCount, uavCount);
      assert shape == SetOf(sizes, frame, i);
      SetInHeap(frame, i, frameContextCount, setCount, setStride);
      CachedSetAgrees(heap[..], caches, sizes, frame, i);
      var cache;
      fault, transitions, written, cache :=
        BindResources(d.resources, caches[frame][i], d.pipelineIndex, shape, formats);
      if fault == NoFailure {
        CachesStillAgree(h, heap[..], caches, sizes, frame, i, cache);
      }
      caches := caches[frame := caches[frame][i := cache]];
    }

    // What is recorded for dispatch i once its resources are bound.
    method RecordBound(ds: seq<DispatchDesc>, i: nat, frame: nat, transitions: seq<Barrier>, written: seq<Resource>,
          commandList: CommandList)
        returns (fault: Failure)
      requires Sized() && frame < frameContextCount && i < |ds| && i < setCount
      requires Resolved(names, ds[i].resources) && written == Written(names, ds[i]) && NULL !in written
      requires ConstantState(constants[..], cursor, lastAddress, SlotStart(0, frameStride, frame), gpuBase,
            constantStride, ds, i)
      modifies this`cursor, this`lastAddress, constants, commandList
      ensures fault == NoFailure
      ensures commandList.trace == old(commandList.trace) + Recorded(transitions) +
                                   BindAndDispatch(names, ds, i, BridgeLayout(frame))
                                       + Recorded(ExplicitBarriers(names, ds, i, true))
      ensures ConstantState(constants[..], cursor, lastAddress, SlotStart(0, frameStride, frame), gpuBase,
            constantStride, ds, i + 1)
      ensures SliceOnly(old(constants[..]), constants[..], SlotStart(0, frameStride, frame), frameStride)
    {
      hide SlotStart, TableBase, ConstantsPlaced, Written, Recorded, Inputs, Outputs, UavBarriers, SetBase,
          ConstantsAddress, ConstantState, EffectiveConstants, SlotsUsed, NextResources, Sized;
      var begin := SlotStart(0, frameStride, frame);
      ConstantStateMeans(constants[..], cursor, lastAddress, begin, gpuBase, constantStride, ds, i);
      SizedMeans();
      SlotFitsSlice(frameContextCount, frame, constantStride, frameStride, setCount, ds, i);
      commandList.RecordBarriers(transitions);
      var fits := PlaceConstants(ds, i, begin, begin + frameStride);
      fault := if fits then NoFailure else ConstantRingTooSmall;
      if fits {
        ConstantStateMeans(constants[..], cursor, lastAddress, begin, gpuBase, constantStride, ds, i + 1);
        AddressOfSlot(BridgeLayout(frame), gpuBase, begin, ds, i);
        BaseOfSet(BridgeLayout(frame), BridgeSizes(), frame, i);
        var setBase := TableBase(frame, i, setCount, setStride);
        commandList.RecordDispatch(ds[i].pipelineIndex, lastAddress, setBase, setBase + srvCount,
                                   Inputs(names, ds[i]), Outputs(names, ds[i]));
        var barriers := CollectUavBarriers(written, if i + 1 < |ds| then ds[i + 1].resources else []);
        NextIs(ds, i);
        commandList.RecordBarriers(barriers);
      }
    }

    // One dispatch from its checks to its explicit barriers.
    method RecordDispatch(ds: seq<DispatchDesc>, i: nat, frame: nat, formats: Resource -> nat, commandList: CommandList)
        returns (fault: Failure)
      requires Sized() && frame < frameContextCount && i < |ds| && i < |caches[frame]|
      requires CachesAgree(heap[..], caches, BridgeSizes())
      requires names.Keys <= states.Keys && forall ref :: ref in names ==> names[ref] != NULL
      requires ConstantState(constants[..], cursor, lastAddress, SlotStart(0, frameStride, frame), gpuBase,
            constantStride, ds, i)
      modifies this`states, this`caches, this`cursor, this`lastAddress, heap, constants, commandList
      ensures fault in {NoFailure, UnavailablePipeline, TooFewDescriptorSets, UnsupportedResource, TooManySrvs,
            TooManyUavs}
      ensures fault == NoFailure <==> Recordable(names, pipelines, ds[i], setCount, i, SetOf(BridgeSizes(), frame, i))
      ensures |caches| == |old(caches)| && forall f :: 0 <= f < |caches| ==> |caches[f]| == |old(caches)[f]|
      ensures names.Keys <= states.Keys
      ensures Sized() && BridgeSizes() == old(BridgeSizes()) && BridgeLayout(frame) == old(BridgeLayout(frame))
      ensures fault != NoFailure ==> commandList.trace == old(commandList.trace)
      ensures fault == NoFailure ==>
                && i < setCount && Resolved(names, ds[i].resources)
                && commandList.trace
                    == old(commandList.trace) + DispatchTrace(names, old(states), ds, i, BridgeLayout(frame), true)
                && states == Moved(old(states), ds[i].resources, |ds[i].resources|)
                && CachesAgree(heap[..], caches, BridgeSizes())
                && FullyWritten(heap[..], SetOf(BridgeSizes(), frame, i), names, ds[i].resources, formats)
                && OnlyChangedWithin(old(heap[..]), heap[..], SetOf(BridgeSizes(), frame, i))
                && ConstantState(constants[..], cursor, lastAddress, SlotStart(0, frameStride, frame), gpuBase,
                    constantStride, ds, i + 1)
      ensures SliceOnly(old(constants[..]), constants[..], SlotStart(0, frameStride, frame), frameStride)
    {
      hide SlotStart, TableBase, ConstantState, Written, Moved, Transitions, Recorded, BindAndDispatch,
           ExplicitBarriers, CachesAgree, FullyWritten, OnlyChangedWithin, Bindable;
      var transitions, written;
      fault, transitions, written := BindDispatch(ds[i], i, frame, formats);
      if fault == NoFailure {
        assert NULL !in written by { NothingNullWritten(names, ds[i]); }
        fault := RecordBound(ds, i, frame, transitions, written, commandList);
      }
    }

    lemma CountsFit()
      requires Sized()
      ensures |caches| == frameContextCount > 0
    {
      hide SlotStart, TableBase;
    }

    lemma SizedMeans()
      requires Sized()
      ensures gpuBase > 0 && setStride == srvCount + uavCount
      ensures SlotStart(0, constantStride, setCount) <= frameStride
      ensures constants.Length == SlotStart(0, frameStride, frameContextCount)
    {
      hide SlotStart, TableBase;
    }

    lemma DispatchesFind(frame: nat, s: States, ds: seq<DispatchDesc>, kinds: nat, formats: Resource -> nat)
      requires Sized() && AllResolved(names, ds) && Resolved(names, BackToUav(kinds)) && names.Keys <= s.Keys
      requires AllWritten(heap[..], BridgeSizes(), frame, names, ds, |ds|, formats)
      requires ConstantsPlaced(constants[..], SlotStart(0, frameStride, frame), constantStride, ds, |ds|)
      ensures AllFind(EvaluationTrace(names, s, ds, kinds, BridgeLayout(frame), true), heap[..], constants[..], gpuBase,
            constantStride, names, ds, formats)
    {
      hide SlotStart, TableBase, AllFind, AllWritten, ConstantsPlaced, EvaluationTrace, AllResolved, ResolvedUpTo,
          Sized;
      SizedMeans();
      EvaluationFinds(heap[..], constants[..], names, s, ds, kinds, BridgeLayout(frame), BridgeSizes(), frame, gpuBase,
          SlotStart(0, frameStride, frame), formats);
    }

    // The dispatch loop.
    method RecordAll(ds: seq<DispatchDesc>, frame: nat, formats: Resource -> nat, commandList: CommandList)
        returns (fault: Failure)
      requires Sized() && frame < frameContextCount && |ds| <= |caches[frame]|
      requires CachesAgree(heap[..], caches, BridgeSizes())
      requires names.Keys <= states.Keys && forall ref :: ref in names ==> names[ref] != NULL
      requires cursor == SlotStart(0, frameStride, frame) && lastAddress == 0
      modifies this`states, this`caches, this`cursor, this`lastAddress, heap, constants, commandList
      ensures fault in {NoFailure, UnavailablePipeline, TooFewDescriptorSets, UnsupportedResource, TooManySrvs,
            TooManyUavs}
      ensures fault == NoFailure <==> AllRecordable(names, pipelines, ds, |ds|, BridgeSizes(), frame)
      ensures Sized() && |caches| == |old(caches)| && names.Keys <= states.Keys
      ensures fault != NoFailure ==>
                PartlyRecorded(names, pipelines, old(states), ds, BridgeSizes(), frame, BridgeLayout(frame),
                    old(commandList.trace), commandList.trace)
      ensures fault == NoFailure ==>
                && AllResolved(names, ds)
                && commandList.trace
                    == old(commandList.trace) + Trace(names, old(states), ds, |ds|, BridgeLayout(frame), true)
                && states == StatesAfter(old(states), ds, |ds|)
                && CachesAgree(heap[..], caches, BridgeSizes())
                && AllWritten(heap[..], BridgeSizes(), frame, names, ds, |ds|, formats)
                && ConstantsPlaced(constants[..], SlotStart(0, frameStride, frame), constantStride, ds, |ds|)
      ensures SliceOnly(old(constants[..]), constants[..], SlotStart(0, frameStride, frame), frameStride)
    {
      hide SlotStart, TableBase, ConstantState, Moved, DispatchTrace, CachesAgree, Recordable, OnlyChangedWithin,
          FullyWritten, ResolvedUpTo, Sized, BridgeLayout, Trace, StatesAfter, AllRecordable, AllWritten,
          SliceOnly, ConstantsPlaced;
      ghost var sizes, layout, s, mem := BridgeSizes(), BridgeLayout(frame), states, constants[..];
      ghost var begin := SlotStart(0, frameStride, frame);
      CountsFit();
      var i := 0;
      NothingRecorded(mem, begin, frameStride, gpuBase, constantStride, heap[..], names, pipelines, ds, sizes, frame,
          formats);
      NothingTraced(names, s, ds, layout, true);
      while i < |ds|
        invariant |caches| == |old(caches)| && 0 <= i <= |ds| <= |caches[frame]| && names.Keys <= states.Keys
        invariant Sized() && BridgeSizes() == sizes && BridgeLayout(frame) == layout
        invariant AllRecordable(names, pipelines, ds, i, sizes, frame)
        invariant forall j :: 0 <= j < i ==> Resolved(names, ds[j].resources)
        invariant commandList.trace == old(commandList.trace) + Trace(names, s, ds, i, layout, true)
        invariant states == StatesAfter(s, ds, i)
        invariant CachesAgree(heap[..], caches, sizes)
        invariant AllWritten(heap[..], sizes, frame, names, ds, i, formats)
        invariant ConstantState(constants[..], cursor, lastAddress, begin, gpuBase, constantStride, ds, i)
        invariant SliceOnly(mem, constants[..], begin, frameStride)
      {
        ghost var h, mem' := heap[..], constants[..];
        RecordableSnoc(names, pipelines, ds, i, sizes, frame);
        fault := RecordDispatch(ds, i, frame, formats, commandList);
        SliceOnlyTwice(mem, mem', constants[..], begin, frameStride);
        if fault != NoFailure {
          assert StoppedAt(names, pipelines, s, ds, i, sizes, frame, layout, old(commandList.trace),
              commandList.trace);
          return;
        }
        AllWrittenStep(h, heap[..], sizes, frame, names, ds, i, formats);
        TraceSnoc(names, s, ds, i, layout, true);
        i := i + 1;
      }
      fault := NoFailure;
      ConstantStateMeans(constants[..], cursor, lastAddress, begin, gpuBase, constantStride, ds, |ds|);
    }

    // The round of barriers that gives the external textures back.
    method ReturnExternals(kinds: nat) returns (barriers: seq<Barrier>)
      requires names.Keys <= states.Keys && Resolved(names, BackToUav(kinds))
      modifies this`states
      ensures names.Keys <= states.Keys
      ensures barriers == FinalTransitions(names, old(states), kinds)
      ensures states == Moved(old(states), BackToUav(kinds), kinds)
    {
      hide Transitions, Moved, BackToUav;
      ghost var s, back := states, BackToUav(kinds);
      NothingMoved(names, s, back);
      barriers := [];
      for k := 0 to kinds
        invariant names.Keys <= states.Keys
        invariant barriers == Transitions(names, s, back, k) && states == Moved(s, back, k)
      {
        BackIsThere(names, kinds, k);
        TransitionsSnoc(names, s, back, k);
        if states[External(k)] != UnorderedAccess {
          barriers := barriers + [Transition(names[External(k)], states[External(k)], UnorderedAccess)];
        }
        states := states[External(k) := UnorderedAccess];
      }
    }

    method SetFailure(reason: Failure)
      modifies this`evaluationReady, this`failure
      ensures !evaluationReady && failure == reason
      ensures BridgeSizes() == old(BridgeSizes())
      ensures forall frame: nat :: BridgeLayout(frame) == old(BridgeLayout(frame))
    {
      evaluationReady := false;
      failure := reason;
    }

    // Evaluate once the dispatches are extracted: reset the slice, replay, give the externals back.
    method Replay(ds: seq<DispatchDesc>, kinds: nat, frame: nat, formats: Resource -> nat, commandList: CommandList)
        returns (fault: Failure)
      requires Sized() && frame < frameContextCount && CachesAgree(heap[..], caches, BridgeSizes())
      requires names.Keys <= states.Keys && Resolved(names, BackToUav(kinds))
      requires forall ref :: ref in names ==> names[ref] != NULL
      modifies this`states, this`caches, this`cursor, this`lastAddress, heap, constants, commandList
      ensures fault in {NoFailure, UnavailablePipeline, TooFewDescriptorSets, UnsupportedResource, TooManySrvs,
            TooManyUavs}
      ensures fault == NoFailure <==> AllRecordable(names, pipelines, ds, |ds|, BridgeSizes(), frame)
      ensures |caches| == |old(caches)| && names.Keys <= states.Keys && Sized() && BridgeSizes() == old(BridgeSizes())
      ensures fault != NoFailure ==>
                PartlyRecorded(names, pipelines, old(states), ds, BridgeSizes(), frame, BridgeLayout(frame),
                    old(commandList.trace), commandList.trace)
      ensures fault == NoFailure ==>
                && AllResolved(names, ds)
                && commandList.trace
                    == old(commandList.trace)
                    + EvaluationTrace(names, old(states), ds, kinds, BridgeLayout(frame), true)
                && states == EvaluationStates(old(states), ds, kinds)
                && CachesAgree(heap[..], caches, BridgeSizes())
                && AllWritten(heap[..], BridgeSizes(), frame, names, ds, |ds|, formats)
                && ConstantsPlaced(constants[..], SlotStart(0, frameStride, frame), constantStride, ds, |ds|)
      ensures SliceOnly(old(constants[..]), constants[..], SlotStart(0, frameStride, frame), frameStride)
    {
      hide SlotStart, TableBase, CachesAgree, Moved, Transitions, Recorded, Trace, AllWritten, ConstantsPlaced,
          AllRecordable, StatesAfter, ResolvedUpTo, PartlyRecorded, Sized, BridgeLayout, SliceOnly, EvaluationTrace,
          FinalTransitions, AllResolved;
      ghost var s, before := states, commandList.trace;
      cursor := SlotStart(0, frameStride, frame);
      lastAddress := 0;
      GrowCache(frame, |ds|);
      fault := RecordAll(ds, frame, formats, commandList);
      if fault == NoFailure {
        EvaluationEnds(names, s, ds, kinds, BridgeLayout(frame), before);
        var barriers := ReturnExternals(kinds);
        commandList.RecordBarriers(barriers);
      }
    }

    // The checks before any dispatch, and the textures this evaluation can look up.
    method Prepare(desc: EvaluationDesc, commandList: CommandList?, settingsAccepted: bool,
          extracted: Option<seq<DispatchDesc>>)
        returns (fault: Failure)
      requires names.Keys <= states.Keys && (forall ref :: ref in names ==> names[ref] != NULL) && Sized()
      modifies this`names, this`states, this`historyResetRequested
      ensures Sized() && BridgeSizes() == old(BridgeSizes()) && FrameOf(desc, frameContextCount) < frameContextCount
      ensures fault in {NoFailure, IncompleteResources, SettingsRejected, ExtractionFailed}
      ensures fault == NoFailure <==> commandList != null && Complete(desc) && settingsAccepted && extracted.Some?
      ensures fault == NoFailure ==>
                && names == NamesFor(old(names), desc)
                && states == StatesFor(old(states), desc)
                && names.Keys <= states.Keys && (forall ref :: ref in names ==> names[ref] != NULL)
                && !historyResetRequested
      ensures fault in {IncompleteResources, SettingsRejected} ==> historyResetRequested == old(historyResetRequested)
    {
      hide Sized, SlotStart, TableBase, Complete, NamesFor, StatesFor;
      CountsFit();
      if commandList == null || !Complete(desc) {
        return IncompleteResources;
      }
      NamesAreThere(names, states, desc);
      names := NamesFor(names, desc);
      states := StatesFor(states, desc);
      if !settingsAccepted {
        return SettingsRejected;
      }
      if extracted.None? {
        return ExtractionFailed;
      }
      historyResetRequested := false;
      return NoFailure;
    }

    // Evaluate. `settingsAccepted` and `extracted` are what the denoiser library answers.
    method Evaluate(desc: EvaluationDesc, commandList: CommandList?, settingsAccepted: bool,
          extracted: Option<seq<DispatchDesc>>,
                    formats: Resource -> nat)
        returns (ok: bool)
      requires Valid()
      modifies this, heap, constants, commandList
      ensures Valid() && heap == old(heap) && constants == old(constants)
      ensures instanceAlive == old(instanceAlive) && BridgeSizes() == old(BridgeSizes()) && pipelines == old(pipelines)
      // Nothing happens unless the bridge is ready.
      ensures !(old(evaluationReady) && instanceAlive) ==>
                !ok && evaluationReady == old(evaluationReady) && failure == old(failure) &&
                (commandList != null ==> commandList.trace == old(commandList.trace))
      // It succeeds exactly when all it is given can be recorded, and any failure clears the flag.
      ensures ok <==> && old(evaluationReady) && instanceAlive && commandList != null && Complete(desc)
                      && settingsAccepted && extracted.Some?
                      && AllRecordable(NamesFor(old(names), desc), pipelines, extracted.value, |extracted.value|,
                          BridgeSizes(),
                                       FrameOf(desc, frameContextCount))
      ensures old(evaluationReady) && instanceAlive && !ok ==> !evaluationReady && failure != ConstantRingTooSmall
      ensures ok ==> evaluationReady && failure == old(failure) && Sized() && !historyResetRequested
      // A failure leaves the command list alone, or at a dispatch: with what was recorded before it.
      ensures old(evaluationReady) && instanceAlive && !ok && commandList != null ==>
                if Complete(desc) && settingsAccepted && extracted.Some? then
                  PartlyRecorded(NamesFor(old(names), desc), pipelines, StatesFor(old(states), desc), extracted.value,
                      BridgeSizes(), FrameOf(desc, frameContextCount),
                      BridgeLayout(FrameOf(desc, frameContextCount)), old(commandList.trace), commandList.trace)
                else commandList.trace == old(commandList.trace)
      // What is recorded is the trace of NrdRecording, and the tracked states follow it.
      ensures ok ==>
                var ds, kinds := extracted.value, |ExternalList(desc)|;
                var s := StatesFor(old(states), desc);
                && names == NamesFor(old(names), desc) && names.Keys <= s.Keys
                && AllResolved(names, ds) && Resolved(names, BackToUav(kinds))
                && states == EvaluationStates(s, ds, kinds)
                && commandList.trace == old(commandList.trace) +
                     EvaluationTrace(names, s, ds, kinds, BridgeLayout(FrameOf(desc, frameContextCount)), true)
      // Every dispatch finds the views and the constants that writing everything would give it.
      ensures ok ==>
                && AllWritten(heap[..], BridgeSizes(), FrameOf(desc, frameContextCount), names, extracted.value,
                    |extracted.value|, formats)
                && ConstantsPlaced(constants[..], SlotStart(0, frameStride, FrameOf(desc, frameContextCount)),
                    constantStride,
                                   extracted.value, |extracted.value|)
      // So each dispatch runs with its pipeline, its views and its constants bound.
      ensures ok ==>
            AllFind(commandList.trace[|old(commandList.trace)|..], heap[..], constants[..], gpuBase, constantStride,
            names, extracted.value, formats)
      // The constants of the other frames are still there.
      ensures ok ==>
            SliceOnly(old(constants[..]), constants[..], SlotStart(0, frameStride, FrameOf(desc, frameContextCount)),
            frameStride)
    {
      hide SlotStart, TableBase, CachesAgree, EvaluationTrace, EvaluationStates, AllWritten, ConstantsPlaced,
           AllRecordable, ResolvedUpTo, SliceOnly, Complete, ExternalList, NamesFor, StatesFor, AllResolved,
           PartlyRecorded, Sized, BridgeSizes, BridgeLayout, AllFind;
      ok := false;
      if !evaluationReady || !instanceAlive {
        return;
      }
      ghost var before := names;
      var fault := Prepare(desc, commandList, settingsAccepted, extracted);
      if fault == NoFailure {
        ExternalsResolved(before, desc);
        ghost var s, trace := states, commandList.trace;
        fault := Replay(extracted.value, |ExternalList(desc)|, FrameOf(desc, frameContextCount), formats, commandList);
        if fault == NoFailure {
          DispatchesFind(FrameOf(desc, frameContextCount), s, extracted.value, |ExternalList(desc)|, formats);
          assert commandList.trace[|trace|..] ==
              EvaluationTrace(names, s, extracted.value, |ExternalList(desc)|,
              BridgeLayout(FrameOf(desc, frameContextCount)), true);
        }
      }
      if fault != NoFailure {
        SetFailure(fault);
        return;
      }
      ok := true;
    }

    // The descriptor caches have one entry per dispatch of the frame; new entries claim nothing.
    method GrowCache(frame: nat, count: nat)
      requires Sized() && frame < frameContextCount && CachesAgree(heap[..], caches, BridgeSizes())
      modifies this`caches
      ensures Sized() && |caches| == |old(caches)| && |caches[frame]| >= count
      ensures CachesAgree(heap[..], caches, BridgeSizes())
    {
      hide SetAgrees, SetOf, TableBase;
      if |caches[frame]| < count {
        caches := caches[frame := caches[frame] + seq(count - |caches[frame]|, _ => DispatchCache(0, false, []))];
      }
    }
  }

  // A complete description adds textures that are there to pools that are.
  lemma {:induction false} NamesAreThere(names: Names, states: States, desc: EvaluationDesc)
    requires names.Keys <= states.Keys && (forall ref :: ref in names ==> names[ref] != NULL) && Complete(desc)
    ensures NamesFor(names, desc).Keys <= StatesFor(states, desc).Keys
    ensures forall ref :: ref in NamesFor(names, desc) ==> NamesFor(names, desc)[ref] != NULL
  {
    hide Complete, ExternalList;
    assert ExternalNames(ExternalList(desc)).Keys <= ExternalStates(ExternalNames(ExternalList(desc))).Keys;
  }

  lemma {:induction false} ExternalsResolved(pools: Names, desc: EvaluationDesc)
    ensures Resolved(NamesFor(pools, desc), BackToUav(|ExternalList(desc)|))
  {
    var list := ExternalList(desc);
    forall j | 0 <= j < |list| ensures BackToUav(|list|)[j].ref in NamesFor(pools, desc) {
      assert External(j) in ExternalNames(list);
    }
  }

  lemma NextIs(ds: seq<DispatchDesc>, i: nat)
    ensures NextResources(ds, i) == if i + 1 < |ds| then ds[i + 1].resources else []
  {
  }

  lemma BackIsThere(names: Names, kinds: nat, k: nat)
    requires Resolved(names, BackToUav(kinds)) && k < kinds
    ensures BackToUav(kinds)[k] == ResourceDesc(External(k), false) && External(k) in names
  {
  }

  lemma {:induction false} NothingNullWritten(names: Names, d: DispatchDesc)
    requires Resolved(names, d.resources) && forall ref :: ref in names ==> names[ref] != NULL
    ensures NULL !in Written(names, d)
  {
    BoundMeans(names, d.resources, |d.resources|, false, NULL);
  }
}
