/** What NrdBackend::Evaluate records for a list of dispatches (Source/NrdBackend.cpp:514-563 and
    611-790), as functions on values: the transitions, the bound resources, the explicit barriers
    it leaves out, and the constants each dispatch sees. */
module NrdRecording {
  import opened GpuTrace

  // Where a dispatch resource lives: in one of the two texture pools or among the textures the
  // caller passed in for this evaluation.
  datatype Ref = Permanent(index: nat) | Transient(index: nat) | External(kind: nat)

  // Which resource a reference names, and the state the bridge believes it to be in.
  type Names = map<Ref, Resource>
  type States = map<Ref, State>

  datatype ResourceDesc = ResourceDesc(ref: Ref, isSrv: bool)

  datatype DispatchDesc = DispatchDesc(
    pipelineIndex: nat,
    resources: seq<ResourceDesc>,
    constants: seq<nat>,
    constantsMatchPrevious: bool)

  predicate ResolvedUpTo(names: Names, rs: seq<ResourceDesc>, k: nat)
    requires k <= |rs|
  {
    forall j :: 0 <= j < k ==> rs[j].ref in names
  }

  predicate Resolved(names: Names, rs: seq<ResourceDesc>) {
    ResolvedUpTo(names, rs, |rs|)
  }

  predicate AllResolved(names: Names, ds: seq<DispatchDesc>) {
    forall i :: 0 <= i < |ds| ==> Resolved(names, ds[i].resources)
  }

  function Desired(d: ResourceDesc): State {
    if d.isSrv then ShaderRead else UnorderedAccess
  }

  // The states and the barriers after the resource loop has walked over the first k of `rs`.
  function Moved(s: States, rs: seq<ResourceDesc>, k: nat): (s': States)
    requires k <= |rs|
    ensures s.Keys <= s'.Keys
  {
    if k == 0 then s else Moved(s, rs, k - 1)[rs[k - 1].ref := Desired(rs[k - 1])]
  }

  // At most one barrier per resource.
  function Transition1(names: Names, s: States, d: ResourceDesc): seq<Barrier>
    requires d.ref in names && d.ref in s
  {
    if s[d.ref] == Desired(d) then [] else [Transition(names[d.ref], s[d.ref], Desired(d))]
  }

  function Transitions(names: Names, s: States, rs: seq<ResourceDesc>, k: nat): seq<Barrier>
    requires k <= |rs| && ResolvedUpTo(names, rs, k) && names.Keys <= s.Keys
  {
    if k == 0 then []
    else Transitions(names, s, rs, k - 1) + Transition1(names, Moved(s, rs, k - 1), rs[k - 1])
  }

  lemma {:induction false} TransitionsSnoc(names: Names, s: States, rs: seq<ResourceDesc>, k: nat)
    requires k < |rs| && Resolved(names, rs) && names.Keys <= s.Keys
    ensures Transitions(names, s, rs, k + 1)
         == Transitions(names, s, rs, k) + Transition1(names, Moved(s, rs, k), rs[k])
    ensures Moved(s, rs, k + 1) == Moved(s, rs, k)[rs[k].ref := Desired(rs[k])]
  {
    hide Transition1, Desired;
  }

  lemma NothingMoved(names: Names, s: States, rs: seq<ResourceDesc>)
    requires names.Keys <= s.Keys
    ensures Transitions(names, s, rs, 0) == [] && Moved(s, rs, 0) == s
  {
  }

  // The resources bound for reading (isSrv) or for unordered access, in binding order.
  function Bound(names: Names, rs: seq<ResourceDesc>, k: nat, isSrv: bool): seq<Resource>
    requires k <= |rs| && ResolvedUpTo(names, rs, k)
  {
    if k == 0 then []
    else if rs[k - 1].isSrv == isSrv then Bound(names, rs, k - 1, isSrv) + [names[rs[k - 1].ref]]
    else Bound(names, rs, k - 1, isSrv)
  }

  function Inputs(names: Names, d: DispatchDesc): seq<Resource>
    requires Resolved(names, d.resources)
  {
    Bound(names, d.resources, |d.resources|, true)
  }

  function Outputs(names: Names, d: DispatchDesc): seq<Resource>
    requires Resolved(names, d.resources)
  {
    Bound(names, d.resources, |d.resources|, false)
  }

  // The written resources, each once, in the order of their first use.
  function WrittenOnce(names: Names, rs: seq<ResourceDesc>, k: nat): (s: seq<Resource>)
    requires k <= |rs| && ResolvedUpTo(names, rs, k)
    ensures forall r :: r in s <==> r in Bound(names, rs, k, false)
  {
    if k == 0 then []
    else
      var s := WrittenOnce(names, rs, k - 1);
      var r := names[rs[k - 1].ref];
      if rs[k - 1].isSrv || r in s then s else s + [r]
  }

  // True when the dispatch that follows uses the resource, and only for reading.
  predicate NextOnlyReads(names: Names, next: seq<ResourceDesc>, r: Resource) {
    && (exists j :: 0 <= j < |next| && next[j].ref in names && names[next[j].ref] == r)
    && (forall j :: 0 <= j < |next| && next[j].ref in names && names[next[j].ref] == r ==> next[j].isSrv)
  }

  predicate LeftOut(names: Names, next: seq<ResourceDesc>, omit: bool, r: Resource) {
    omit && NextOnlyReads(names, next, r)
  }

  // The explicit barriers after a dispatch that wrote the first k of `written`. With `omit` false
  // every written resource gets one.
  function UavBarriers(names: Names, written: seq<Resource>, k: nat, next: seq<ResourceDesc>, omit: bool): seq<Barrier>
    requires k <= |written|
  {
    if k == 0 then []
    else if LeftOut(names, next, omit, written[k - 1]) then UavBarriers(names, written, k - 1, next, omit)
    else UavBarriers(names, written, k - 1, next, omit) + [UavBarrier(written[k - 1])]
  }

  function Written(names: Names, d: DispatchDesc): (s: seq<Resource>)
    requires Resolved(names, d.resources)
    ensures forall r :: r in s <==> r in Outputs(names, d)
  {
    WrittenOnce(names, d.resources, |d.resources|)
  }

  function NextResources(ds: seq<DispatchDesc>, i: nat): seq<ResourceDesc> {
    if i + 1 < |ds| then ds[i + 1].resources else []
  }

  function ExplicitBarriers(names: Names, ds: seq<DispatchDesc>, i: nat, omit: bool): seq<Barrier>
    requires i < |ds| && Resolved(names, ds[i].resources)
  {
    var written := Written(names, ds[i]);
    UavBarriers(names, written, |written|, NextResources(ds, i), omit)
  }

  // Where one evaluation's descriptors and constants live: `tables` is the first descriptor of its
  // frame, `constants` the address of its constant slice.
  datatype Layout = Layout(tables: nat, setStride: nat, srvCount: nat, constants: nat, constantStride: nat)

  function SetBase(layout: Layout, i: nat): nat {
    layout.tables + i * layout.setStride
  }

  predicate Uploads(d: DispatchDesc) {
    d.constants != [] && !d.constantsMatchPrevious
  }

  // Constant slots taken by the first k dispatches: the first always takes one, later ones only
  // when they upload.
  function SlotsUsed(ds: seq<DispatchDesc>, k: nat): (used: nat)
    requires k <= |ds|
    ensures used <= k && (k > 0 ==> used > 0)
  {
    if k == 0 then 0
    else if k == 1 || Uploads(ds[k - 1]) then SlotsUsed(ds, k - 1) + 1
    else SlotsUsed(ds, k - 1)
  }

  function ConstantsAddress(layout: Layout, ds: seq<DispatchDesc>, i: nat): nat
    requires i < |ds|
  {
    layout.constants + (SlotsUsed(ds, i + 1) - 1) * layout.constantStride
  }

  // A slot holds the data cut to the slot size and filled up with zeros.
  function Padded(data: seq<nat>, size: nat): (s: seq<nat>)
    ensures |s| == size
  {
    seq(size, j requires 0 <= j < size => if j < |data| then data[j] else 0)
  }

  // The constants dispatch i has to see: its own, or those of the dispatch before it, or zeros.
  function EffectiveConstants(ds: seq<DispatchDesc>, i: nat, size: nat): (s: seq<nat>)
    requires i < |ds|
    ensures |s| == size
  {
    if Uploads(ds[i]) then Padded(ds[i].constants, size)
    else if i == 0 then Padded([], size)
    else EffectiveConstants(ds, i - 1, size)
  }

  function BindAndDispatch(names: Names, ds: seq<DispatchDesc>, i: nat, layout: Layout): seq<Command>
    requires i < |ds| && Resolved(names, ds[i].resources)
  {
    [SetPipelineState(ds[i].pipelineIndex),
     SetConstants(ConstantsAddress(layout, ds, i)),
     SetTables(SetBase(layout, i), SetBase(layout, i) + layout.srvCount),
     Dispatch(Inputs(names, ds[i]), Outputs(names, ds[i]))]
  }

  function DispatchTransitions(names: Names, s: States, d: DispatchDesc): seq<Barrier>
    requires Resolved(names, d.resources) && names.Keys <= s.Keys
  {
    Transitions(names, s, d.resources, |d.resources|)
  }

  // `s` holds the states tracked when dispatch i is reached.
  function DispatchTrace(names: Names, s: States, ds: seq<DispatchDesc>, i: nat, layout: Layout,
        omit: bool): seq<Command>
    requires i < |ds| && Resolved(names, ds[i].resources) && names.Keys <= s.Keys
  {
    Recorded(DispatchTransitions(names, s, ds[i])) +
    BindAndDispatch(names, ds, i, layout) +
    Recorded(ExplicitBarriers(names, ds, i, omit))
  }

  function StatesAfter(s: States, ds: seq<DispatchDesc>, k: nat): (s': States)
    requires k <= |ds|
    ensures s.Keys <= s'.Keys
  {
    if k == 0 then s else Moved(StatesAfter(s, ds, k - 1), ds[k - 1].resources, |ds[k - 1].resources|)
  }

  // The commands of the first k dispatches.
  function Trace(names: Names, s: States, ds: seq<DispatchDesc>, k: nat, layout: Layout, omit: bool): seq<Command>
    requires k <= |ds| && (forall j :: 0 <= j < k ==> Resolved(names, ds[j].resources)) && names.Keys <= s.Keys
  {
    if k == 0 then []
    else Trace(names, s, ds, k - 1, layout, omit) +
         DispatchTrace(names, StatesAfter(s, ds, k - 1), ds, k - 1, layout, omit)
  }

  lemma {:induction false} TraceSnoc(names: Names, s: States, ds: seq<DispatchDesc>, k: nat, layout: Layout, omit: bool)
    requires k < |ds| && (forall j :: 0 <= j <= k ==> Resolved(names, ds[j].resources)) && names.Keys <= s.Keys
    ensures Trace(names, s, ds, k + 1, layout, omit)
         == Trace(names, s, ds, k, layout, omit) + DispatchTrace(names, StatesAfter(s, ds, k), ds, k, layout, omit)
    ensures StatesAfter(s, ds, k + 1) == Moved(StatesAfter(s, ds, k), ds[k].resources, |ds[k].resources|)
  {
    hide DispatchTrace, Moved, ResolvedUpTo;
  }

  lemma NothingTraced(names: Names, s: States, ds: seq<DispatchDesc>, layout: Layout, omit: bool)
    requires names.Keys <= s.Keys
    ensures Trace(names, s, ds, 0, layout, omit) == [] && StatesAfter(s, ds, 0) == s
  {
  }

  // The final round gives every external texture back for unordered access.
  function BackToUav(kinds: nat): (rs: seq<ResourceDesc>)
    ensures |rs| == kinds
    ensures forall j :: 0 <= j < kinds ==> rs[j] == ResourceDesc(External(j), false)
  {
    seq(kinds, j requires 0 <= j < kinds => ResourceDesc(External(j), false))
  }

  function FinalTransitions(names: Names, s: States, kinds: nat): seq<Barrier>
    requires Resolved(names, BackToUav(kinds)) && names.Keys <= s.Keys
  {
    Transitions(names, s, BackToUav(kinds), kinds)
  }

  // Everything one successful evaluation records, and the states it leaves behind.
  function EvaluationTrace(names: Names, s: States, ds: seq<DispatchDesc>, kinds: nat, layout: Layout,
        omit: bool): seq<Command>
    requires AllResolved(names, ds) && Resolved(names, BackToUav(kinds)) && names.Keys <= s.Keys
  {
    Trace(names, s, ds, |ds|, layout, omit) + Recorded(FinalTransitions(names, StatesAfter(s, ds, |ds|), kinds))
  }

  lemma {:induction false} EvaluationEnds(names: Names, s: States, ds: seq<DispatchDesc>, kinds: nat, layout: Layout,
        before: seq<Command>)
    requires AllResolved(names, ds) && Resolved(names, BackToUav(kinds)) && names.Keys <= s.Keys
    ensures before + Trace(names, s, ds, |ds|, layout, true)
            + Recorded(FinalTransitions(names, StatesAfter(s, ds, |ds|), kinds))
         == before + EvaluationTrace(names, s, ds, kinds, layout, true)
  {
    hide Trace, Recorded, FinalTransitions, StatesAfter, BackToUav, ResolvedUpTo;
  }

  function EvaluationStates(s: States, ds: seq<DispatchDesc>, kinds: nat): (s': States)
    ensures s.Keys <= s'.Keys
  {
    Moved(StatesAfter(s, ds, |ds|), BackToUav(kinds), kinds)
  }
}
