/** Leaving out barriers is safe: every recording of NrdBackend::Evaluate, run on the machine of
    GpuTrace, breaks no rule exactly when its dispatches and its caller keep a simple discipline. */
module NrdSafety {
  import opened GpuTrace
  import opened NrdRecording

  ghost predicate Distinct(names: Names) {
    forall a, b :: a in names && b in names && a != b ==> names[a] != names[b]
  }

  // The tracked states are the real ones.
  ghost predicate InSync(g: Gpu, names: Names, s: States) {
    forall ref :: ref in names && ref in s ==> InState(g, names[ref], s[ref])
  }

  // ----- the discipline

  predicate Reads(names: Names, ds: seq<DispatchDesc>, i: nat, r: Resource)
    requires AllResolved(names, ds) && i < |ds|
  {
    r in Inputs(names, ds[i])
  }

  predicate Writes(names: Names, ds: seq<DispatchDesc>, i: nat, r: Resource)
    requires AllResolved(names, ds) && i < |ds|
  {
    r in Outputs(names, ds[i])
  }

  predicate UsedBefore(names: Names, ds: seq<DispatchDesc>, k: nat, r: Resource)
    requires AllResolved(names, ds) && k <= |ds|
  {
    exists j :: 0 <= j < k && (Reads(names, ds, j, r) || Writes(names, ds, j, r))
  }

  predicate ReadBefore(names: Names, ds: seq<DispatchDesc>, k: nat, r: Resource)
    requires AllResolved(names, ds) && k <= |ds|
  {
    exists j :: 0 <= j < k && Reads(names, ds, j, r)
  }

  predicate WriteAllowed(names: Names, ds: seq<DispatchDesc>, k: nat, unsynced: set<Resource>, r: Resource)
    requires AllResolved(names, ds) && k < |ds|
  {
    !Reads(names, ds, k, r) && (r in unsynced ==> ReadBefore(names, ds, k, r))
  }

  // Dispatch k does not bind a resource both ways, and whatever the caller wrote without a barrier
  // of its own has been read by an earlier dispatch before this one writes it.
  ghost predicate StepAllowed(names: Names, ds: seq<DispatchDesc>, k: nat, unsynced: set<Resource>)
    requires AllResolved(names, ds) && k < |ds|
  {
    forall r :: Writes(names, ds, k, r) ==> WriteAllowed(names, ds, k, unsynced, r)
  }

  ghost predicate Disciplined(names: Names, ds: seq<DispatchDesc>, k: nat, unsynced: set<Resource>)
    requires AllResolved(names, ds) && k <= |ds|
  {
    forall i :: 0 <= i < k ==> StepAllowed(names, ds, i, unsynced)
  }

  lemma {:induction false} DisciplinedStep(names: Names, ds: seq<DispatchDesc>, k: nat, unsynced: set<Resource>)
    requires AllResolved(names, ds) && 0 < k <= |ds|
    ensures Disciplined(names, ds, k, unsynced) <==>
            Disciplined(names, ds, k - 1, unsynced) && StepAllowed(names, ds, k - 1, unsynced)
  {
    hide StepAllowed;
  }

  // ----- one batch of transitions

  lemma {:induction false} ResolvedPrefix(names: Names, rs: seq<ResourceDesc>, k: nat)
    requires 0 < k <= |rs| && Resolved(names, rs)
    ensures ResolvedUpTo(names, rs, k) && ResolvedUpTo(names, rs, k - 1) && rs[k - 1].ref in names
  {
  }

  lemma {:induction false} BoundMeans(names: Names, rs: seq<ResourceDesc>, k: nat, isSrv: bool, r: Resource)
    requires k <= |rs| && Resolved(names, rs)
    ensures r in Bound(names, rs, k, isSrv) <==> exists j :: 0 <= j < k && rs[j].isSrv == isSrv && names[rs[j].ref] == r
  {
    if k > 0 {
      BoundMeans(names, rs, k - 1, isSrv, r);
    }
  }

  lemma {:induction false} MovedState(s: States, rs: seq<ResourceDesc>, k: nat, ref: Ref, state: State)
    requires k <= |rs| && ref in s
    requires forall j :: 0 <= j < k && rs[j].ref == ref ==> Desired(rs[j]) == state
    ensures Moved(s, rs, k)[ref] == if exists j :: 0 <= j < k && rs[j].ref == ref then state else s[ref]
  {
    if k > 0 {
      MovedState(s, rs, k - 1, ref, state);
    }
  }

  // Resolving one resource on the machine.
  function Resolve(g: Gpu, names: Names, s: States, d: ResourceDesc): Gpu
    requires d.ref in names && d.ref in s
  {
    if s[d.ref] == Desired(d) then g else ApplyBarrier(g, Transition(names[d.ref], s[d.ref], Desired(d)))
  }

  lemma {:induction false} NoTransitions(g: Gpu, names: Names, s: States, rs: seq<ResourceDesc>)
    requires names.Keys <= s.Keys
    ensures ApplyBarriers(g, Transitions(names, s, rs, 0)) == g && Moved(s, rs, 0) == s
  {
  }

  lemma {:induction false} TransitionStep(g: Gpu, names: Names, s: States, rs: seq<ResourceDesc>, k: nat)
    requires 0 < k <= |rs| && Resolved(names, rs) && names.Keys <= s.Keys
    ensures ApplyBarriers(g, Transitions(names, s, rs, k)) ==
            Resolve(ApplyBarriers(g, Transitions(names, s, rs, k - 1)), names, Moved(s, rs, k - 1), rs[k - 1])
    ensures Moved(s, rs, k) == Moved(s, rs, k - 1)[rs[k - 1].ref := Desired(rs[k - 1])]
  {
    var now := Moved(s, rs, k - 1);
    var shorter := Transitions(names, s, rs, k - 1);
    var d := rs[k - 1];
    if now[d.ref] == Desired(d) {
      assert Transitions(names, s, rs, k) == shorter;
    } else {
      BarriersSnoc(g, shorter, Transition(names[d.ref], now[d.ref], Desired(d)));
    }
  }

  lemma {:induction false} ResolveStaysInSync(g: Gpu, names: Names, s: States, d: ResourceDesc)
    requires d.ref in names && Distinct(names) && names.Keys <= s.Keys && InSync(g, names, s)
    ensures InSync(Resolve(g, names, s, d), names, s[d.ref := Desired(d)])
    ensures Resolve(g, names, s, d).safe == g.safe && Resolve(g, names, s, d).pending <= g.pending
  {
  }

  lemma {:induction false} TransitionsStayInSync(g: Gpu, names: Names, s: States, rs: seq<ResourceDesc>, k: nat)
    requires k <= |rs| && Resolved(names, rs) && Distinct(names) && names.Keys <= s.Keys && InSync(g, names, s)
    ensures InSync(ApplyBarriers(g, Transitions(names, s, rs, k)), names, Moved(s, rs, k))
    ensures ApplyBarriers(g, Transitions(names, s, rs, k)).safe == g.safe
    ensures ApplyBarriers(g, Transitions(names, s, rs, k)).pending <= g.pending
  {
    hide *;
    if k == 0 {
      NoTransitions(g, names, s, rs);
    } else {
      ResolvedPrefix(names, rs, k);
      TransitionsStayInSync(g, names, s, rs, k - 1);
      TransitionStep(g, names, s, rs, k);
      ResolveStaysInSync(ApplyBarriers(g, Transitions(names, s, rs, k - 1)), names, Moved(s, rs, k - 1), rs[k - 1]);
    }
  }

  // A texture that turns from written to read becomes visible.
  lemma {:induction false} ReadingMakesVisible(g: Gpu, names: Names, s: States, rs: seq<ResourceDesc>, k: nat, ref: Ref)
    requires k <= |rs| && Resolved(names, rs) && names.Keys <= s.Keys && ref in names && s[ref] == UnorderedAccess
    requires exists j :: 0 <= j < k && rs[j] == ResourceDesc(ref, true)
    ensures names[ref] !in ApplyBarriers(g, Transitions(names, s, rs, k)).pending
  {
    hide ApplyBarriers, Transitions, ResolvedUpTo;
    ResolvedPrefix(names, rs, k);
    TransitionStep(g, names, s, rs, k);
    if exists j :: 0 <= j < k - 1 && rs[j] == ResourceDesc(ref, true) {
      ReadingMakesVisible(g, names, s, rs, k - 1, ref);
    } else {
      assert rs[k - 1] == ResourceDesc(ref, true);
      forall i | 0 <= i < k - 1 && rs[i].ref == ref ensures !rs[i].isSrv {
        assert rs[i] == ResourceDesc(ref, rs[i].isSrv);
      }
      MovedState(s, rs, k - 1, ref, UnorderedAccess);
    }
  }

  lemma {:induction false} ResolveKeepsPending(g: Gpu, names: Names, s: States, d: ResourceDesc, r: Resource)
    requires d.ref in names && d.ref in s && (names[d.ref] == r ==> s[d.ref] == Desired(d))
    ensures r in Resolve(g, names, s, d).pending <==> r in g.pending
  {
  }

  // Transitions leave alone what the dispatch does not use or only writes.
  lemma {:induction false} WritingKeepsPending(g: Gpu, names: Names, s: States, rs: seq<ResourceDesc>, k: nat,
        r: Resource)
    requires k <= |rs| && Resolved(names, rs) && names.Keys <= s.Keys
    requires forall j :: 0 <= j < k && names[rs[j].ref] == r ==> !rs[j].isSrv && s[rs[j].ref] == UnorderedAccess
    ensures r in ApplyBarriers(g, Transitions(names, s, rs, k)).pending <==> r in g.pending
  {
    hide Resolve, ApplyBarriers, Transitions, Moved, ResolvedUpTo;
    if k == 0 {
      NoTransitions(g, names, s, rs);
    } else {
      ResolvedPrefix(names, rs, k);
      WritingKeepsPending(g, names, s, rs, k - 1, r);
      TransitionStep(g, names, s, rs, k);
      if names[rs[k - 1].ref] == r {
        MovedState(s, rs, k - 1, rs[k - 1].ref, UnorderedAccess);
      }
      ResolveKeepsPending(ApplyBarriers(g, Transitions(names, s, rs, k - 1)), names, Moved(s, rs, k - 1), rs[k - 1], r);
    }
  }

  lemma {:induction false} UavBarrierEffect(g: Gpu, names: Names, written: seq<Resource>, k: nat,
        next: seq<ResourceDesc>, omit: bool)
    requires k <= |written| && forall j :: 0 <= j < k ==> InState(g, written[j], UnorderedAccess)
    ensures var g' := ApplyBarriers(g, UavBarriers(names, written, k, next, omit));
            g'.states == g.states && g'.safe == g.safe &&
            forall r :: r in g'.pending <==> r in g.pending && (r in written[..k] ==> LeftOut(names, next, omit, r))
  {
    if k > 0 {
      UavBarrierEffect(g, names, written, k - 1, next, omit);
      assert written[..k] == written[..k - 1] + [written[k - 1]];
      if !LeftOut(names, next, omit, written[k - 1]) {
        BarriersSnoc(g, UavBarriers(names, written, k - 1, next, omit), UavBarrier(written[k - 1]));
      }
    }
  }

  // ----- one dispatch

  // The caller's unsynchronised writes are to textures tracked as unordered-access.
  ghost predicate UnsyncedTextures(names: Names, s: States, unsynced: set<Resource>) {
    forall r :: r in unsynced ==> HeldForWriting(names, s, r)
  }

  ghost predicate HeldForWriting(names: Names, s: States, r: Resource) {
    exists ref :: ref in names && ref in s && names[ref] == r && s[ref] == UnorderedAccess
  }

  // Writes of dispatch k whose barrier the recording leaves out.
  predicate Skipped(names: Names, ds: seq<DispatchDesc>, k: nat, omit: bool, r: Resource)
    requires AllResolved(names, ds) && k < |ds|
  {
    r in Written(names, ds[k]) && LeftOut(names, NextResources(ds, k), omit, r)
  }

  // Writes no barrier has covered when k dispatches are recorded: those of the caller that nothing
  // has used, and those of the last dispatch whose barrier was left out.
  predicate Uncovered(names: Names, ds: seq<DispatchDesc>, k: nat, omit: bool, unsynced: set<Resource>, r: Resource)
    requires AllResolved(names, ds) && k <= |ds|
  {
    (r in unsynced && !UsedBefore(names, ds, k, r)) || (k > 0 && Skipped(names, ds, k - 1, omit, r))
  }

  ghost predicate Faithful(g: Gpu, names: Names, s: States, ds: seq<DispatchDesc>, k: nat, omit: bool,
        unsynced: set<Resource>)
    requires AllResolved(names, ds) && k <= |ds|
  {
    g.safe && InSync(g, names, StatesAfter(s, ds, k)) &&
    forall r :: r in g.pending <==> Uncovered(names, ds, k, omit, unsynced, r)
  }

  // Common ground of the lemmas about dispatch k.
  ghost predicate Setting(names: Names, s: States, ds: seq<DispatchDesc>, k: nat, unsynced: set<Resource>)
  {
    && AllResolved(names, ds) && k <= |ds| && names.Keys <= s.Keys && Distinct(names)
    && UnsyncedTextures(names, s, unsynced) && Disciplined(names, ds, k, unsynced)
  }

  function AfterTransitions(g: Gpu, names: Names, s: States, d: DispatchDesc): Gpu
    requires Resolved(names, d.resources) && names.Keys <= s.Keys
  {
    ApplyBarriers(g, DispatchTransitions(names, s, d))
  }

  lemma {:induction false} UnusedKeepsState(names: Names, s: States, ds: seq<DispatchDesc>, k: nat, ref: Ref)
    requires AllResolved(names, ds) && k <= |ds| && names.Keys <= s.Keys && ref in names
    requires !UsedBefore(names, ds, k, names[ref])
    ensures StatesAfter(s, ds, k)[ref] == s[ref]
  {
    if k > 0 {
      UnusedKeepsState(names, s, ds, k - 1, ref);
      var d := ds[k - 1];
      assert !Reads(names, ds, k - 1, names[ref]) && !Writes(names, ds, k - 1, names[ref]);
      BoundMeans(names, d.resources, |d.resources|, true, names[ref]);
      BoundMeans(names, d.resources, |d.resources|, false, names[ref]);
      assert forall j :: 0 <= j < |d.resources| ==> d.resources[j].ref != ref;
      MovedState(StatesAfter(s, ds, k - 1), d.resources, |d.resources|, ref, UnorderedAccess);
    }
  }

  lemma {:induction false} UsedMeansRead(names: Names, ds: seq<DispatchDesc>, k: nat, unsynced: set<Resource>,
        r: Resource)
    requires AllResolved(names, ds) && k <= |ds| && Disciplined(names, ds, k, unsynced)
    requires r in unsynced && UsedBefore(names, ds, k, r)
    ensures ReadBefore(names, ds, k, r)
  {
    hide Reads, Writes;
    var j :| 0 <= j < k && (Reads(names, ds, j, r) || Writes(names, ds, j, r));
    if !Reads(names, ds, j, r) {
      assert StepAllowed(names, ds, j, unsynced);
      assert ReadBefore(names, ds, j, r);
    }
  }

  lemma {:induction false} SkippedIsReadNext(names: Names, ds: seq<DispatchDesc>, k: nat, omit: bool,
        unsynced: set<Resource>, r: Resource)
    requires AllResolved(names, ds) && 0 < k < |ds| && Disciplined(names, ds, k, unsynced)
    requires Skipped(names, ds, k - 1, omit, r)
    ensures Writes(names, ds, k - 1, r) && !Reads(names, ds, k - 1, r)
    ensures Reads(names, ds, k, r) && !Writes(names, ds, k, r)
  {
    hide Bound;
    assert Writes(names, ds, k - 1, r);
    assert StepAllowed(names, ds, k - 1, unsynced);
    assert WriteAllowed(names, ds, k - 1, unsynced, r);
    BoundMeans(names, ds[k].resources, |ds[k].resources|, true, r);
    BoundMeans(names, ds[k].resources, |ds[k].resources|, false, r);
  }

  // How dispatch k leaves a texture it only reads, or only writes.
  lemma {:induction false} StateAtDispatch(names: Names, s: States, ds: seq<DispatchDesc>, k: nat, r: Resource,
        isSrv: bool) returns (ref: Ref)
    requires AllResolved(names, ds) && k < |ds| && Distinct(names) && names.Keys <= s.Keys
    requires var rs := ds[k].resources; r in Bound(names, rs, |rs|, isSrv) && r !in Bound(names, rs, |rs|, !isSrv)
    ensures ref in names && names[ref] == r
    ensures StatesAfter(s, ds, k + 1)[ref] == if isSrv then ShaderRead else UnorderedAccess
    ensures exists j :: 0 <= j < |ds[k].resources| && ds[k].resources[j] == ResourceDesc(ref, isSrv)
  {
    hide Bound, Distinct;
    var rs := ds[k].resources;
    BoundMeans(names, rs, |rs|, isSrv, r);
    BoundMeans(names, rs, |rs|, !isSrv, r);
    var j :| 0 <= j < |rs| && rs[j].isSrv == isSrv && names[rs[j].ref] == r;
    ref := rs[j].ref;
    assert rs[j] == ResourceDesc(ref, isSrv);
    assert forall i :: 0 <= i < |rs| && rs[i].ref == ref ==> rs[i].isSrv == isSrv;
    MovedState(StatesAfter(s, ds, k), rs, |rs|, ref, if isSrv then ShaderRead else UnorderedAccess);
  }

  // A resource with uncovered writes is a tracked texture in the unordered-access state; if the
  // caller did not leave it that way, the coming dispatch reads it.
  lemma {:induction false} UncoveredTexture(names: Names, s: States, ds: seq<DispatchDesc>, k: nat, omit: bool,
        unsynced: set<Resource>, r: Resource)
      returns (ref: Ref)
    requires Setting(names, s, ds, k, unsynced) && k < |ds| && Uncovered(names, ds, k, omit, unsynced, r)
    ensures ref in names && names[ref] == r && StatesAfter(s, ds, k)[ref] == UnorderedAccess
    ensures (r in unsynced && !UsedBefore(names, ds, k, r)) || (Reads(names, ds, k, r) && !Writes(names, ds, k, r))
  {
    hide Bound, Distinct, UsedBefore, Moved, Skipped;
    if r in unsynced && !UsedBefore(names, ds, k, r) {
      assert HeldForWriting(names, s, r);
      ref :| ref in names && ref in s && names[ref] == r && s[ref] == UnorderedAccess;
      UnusedKeepsState(names, s, ds, k, ref);
    } else {
      SkippedIsReadNext(names, ds, k, omit, unsynced, r);
      ref := StateAtDispatch(names, s, ds, k - 1, r, false);
    }
  }

  // What the transitions of dispatch k leave uncovered.
  lemma {:induction false} PendingAtDispatch(g: Gpu, names: Names, s: States, ds: seq<DispatchDesc>, k: nat,
        omit: bool, unsynced: set<Resource>, r: Resource)
    requires Setting(names, s, ds, k, unsynced) && k < |ds| && Faithful(g, names, s, ds, k, omit, unsynced)
    ensures r in AfterTransitions(g, names, StatesAfter(s, ds, k), ds[k]).pending <==>
            r in unsynced && !UsedBefore(names, ds, k, r) && !Reads(names, ds, k, r)
  {
    hide ApplyBarriers, Transitions, Moved, Bound, UsedBefore, Skipped, StatesAfter, Disciplined, UnsyncedTextures;
    var now := StatesAfter(s, ds, k);
    var rs := ds[k].resources;
    TransitionsStayInSync(g, names, now, rs, |rs|);
    if r in g.pending {
      var ref := UncoveredTexture(names, s, ds, k, omit, unsynced, r);
      BoundMeans(names, rs, |rs|, true, r);
      if Reads(names, ds, k, r) {
        var j :| 0 <= j < |rs| && rs[j].isSrv && names[rs[j].ref] == r;
        assert rs[j] == ResourceDesc(ref, true);
        ReadingMakesVisible(g, names, now, rs, |rs|, ref);
      } else {
        WritingKeepsPending(g, names, now, rs, |rs|, r);
      }
    }
  }

  // The dispatch command runs legally exactly when the step is allowed.
  lemma {:induction false} AllowedStepIsLegal(g: Gpu, names: Names, s: States, ds: seq<DispatchDesc>, k: nat,
        omit: bool, unsynced: set<Resource>)
    requires Setting(names, s, ds, k, unsynced) && k < |ds| && Faithful(g, names, s, ds, k, omit, unsynced)
    requires StepAllowed(names, ds, k, unsynced)
    ensures DispatchAllowed(AfterTransitions(g, names, StatesAfter(s, ds, k), ds[k]), Inputs(names, ds[k]),
          Outputs(names, ds[k]))
  {
    hide ApplyBarriers, Transitions, Moved, Bound, UsedBefore, Skipped, Disciplined, UnsyncedTextures, Uncovered,
        Distinct;
    var g1 := AfterTransitions(g, names, StatesAfter(s, ds, k), ds[k]);
    TransitionsStayInSync(g, names, StatesAfter(s, ds, k), ds[k].resources, |ds[k].resources|);
    forall r | r in Inputs(names, ds[k]) ensures InState(g1, r, ShaderRead) && r !in g1.pending {
      assert Reads(names, ds, k, r);
      assert !Writes(names, ds, k, r);
      var _ := StateAtDispatch(names, s, ds, k, r, true);
      PendingAtDispatch(g, names, s, ds, k, omit, unsynced, r);
    }
    forall r | r in Outputs(names, ds[k]) ensures InState(g1, r, UnorderedAccess) && r !in g1.pending {
      assert Writes(names, ds, k, r);
      assert WriteAllowed(names, ds, k, unsynced, r);
      var _ := StateAtDispatch(names, s, ds, k, r, false);
      PendingAtDispatch(g, names, s, ds, k, omit, unsynced, r);
      ReadMeansUsed(names, ds, k, r);
    }
  }

  lemma {:induction false} ReadMeansUsed(names: Names, ds: seq<DispatchDesc>, k: nat, r: Resource)
    requires AllResolved(names, ds) && k <= |ds|
    ensures ReadBefore(names, ds, k, r) ==> UsedBefore(names, ds, k, r)
  {
    hide Reads, Writes;
  }

  lemma {:induction false} ForbiddenStepIsIllegal(g: Gpu, names: Names, s: States, ds: seq<DispatchDesc>, k: nat,
        omit: bool, unsynced: set<Resource>)
    requires Setting(names, s, ds, k, unsynced) && k < |ds| && Faithful(g, names, s, ds, k, omit, unsynced)
    requires !StepAllowed(names, ds, k, unsynced)
    ensures !DispatchAllowed(AfterTransitions(g, names, StatesAfter(s, ds, k), ds[k]), Inputs(names, ds[k]),
          Outputs(names, ds[k]))
  {
    hide ApplyBarriers, Transitions, Moved, Bound, UsedBefore, Skipped, Disciplined, UnsyncedTextures, Uncovered,
        Distinct, AfterTransitions, InSync;
    var r :| Writes(names, ds, k, r) && !WriteAllowed(names, ds, k, unsynced, r);
    if !Reads(names, ds, k, r) {
      if UsedBefore(names, ds, k, r) {
        UsedMeansRead(names, ds, k, unsynced, r);
      }
      PendingAtDispatch(g, names, s, ds, k, omit, unsynced, r);
    }
  }

  lemma {:induction false} RunDispatchTrace(g: Gpu, names: Names, s: States, ds: seq<DispatchDesc>, k: nat,
        layout: Layout, omit: bool)
    requires k < |ds| && Resolved(names, ds[k].resources) && names.Keys <= s.Keys
    ensures Run(g, DispatchTrace(names, s, ds, k, layout, omit)) ==
            ApplyBarriers(Apply(AfterTransitions(g, names, s, ds[k]),
                Dispatch(Inputs(names, ds[k]), Outputs(names, ds[k]))),
                          ExplicitBarriers(names, ds, k, omit))
  {
    hide Run, Transitions, Recorded, Inputs, Outputs, ExplicitBarriers, ApplyBarriers, ConstantsAddress, SetBase;
    var a := Recorded(DispatchTransitions(names, s, ds[k]));
    var b := BindAndDispatch(names, ds, k, layout);
    var c := Recorded(ExplicitBarriers(names, ds, k, omit));
    RunConcat(g, a + b, c);
    RunConcat(g, a, b);
    RunRecorded(g, DispatchTransitions(names, s, ds[k]));
    RunBindings(Run(g, a), ds[k].pipelineIndex, ConstantsAddress(layout, ds, k), SetBase(layout, k),
        SetBase(layout, k) + layout.srvCount,
                Dispatch(Inputs(names, ds[k]), Outputs(names, ds[k])));
    RunRecorded(Run(g, a + b), ExplicitBarriers(names, ds, k, omit));
  }

  // A legal dispatch and its explicit barriers change no state and cover all but the skipped writes.
  lemma {:induction false} CoverWrites(g: Gpu, names: Names, ds: seq<DispatchDesc>, k: nat, omit: bool)
    requires AllResolved(names, ds) && k < |ds| && g.safe
          && DispatchAllowed(g, Inputs(names, ds[k]), Outputs(names, ds[k]))
    ensures var g' := ApplyBarriers(Apply(g, Dispatch(Inputs(names, ds[k]), Outputs(names, ds[k]))),
          ExplicitBarriers(names, ds, k, omit));
            g'.safe && g'.states == g.states &&
            forall r :: r in g'.pending <==>
              (r in g.pending && !Writes(names, ds, k, r)) || Skipped(names, ds, k, omit, r)
  {
    hide Bound, ApplyBarriers, UavBarriers, LeftOut, WrittenOnce, Inputs, Outputs;
    var written := Written(names, ds[k]);
    var g1 := Apply(g, Dispatch(Inputs(names, ds[k]), Outputs(names, ds[k])));
    forall j | 0 <= j < |written| ensures InState(g1, written[j], UnorderedAccess) {
      assert written[j] in Outputs(names, ds[k]);
    }
    UavBarrierEffect(g1, names, written, |written|, NextResources(ds, k), omit);
    assert written[..|written|] == written;
  }

  // One allowed dispatch with its barriers takes a faithful machine to a faithful one.
  lemma {:induction false} DispatchStep(g: Gpu, names: Names, s: States, ds: seq<DispatchDesc>, k: nat, layout: Layout,
        omit: bool, unsynced: set<Resource>)
    requires Setting(names, s, ds, k, unsynced) && k < |ds| && Faithful(g, names, s, ds, k, omit, unsynced)
    requires StepAllowed(names, ds, k, unsynced)
    ensures Faithful(Run(g, DispatchTrace(names, StatesAfter(s, ds, k), ds, k, layout, omit)), names, s, ds, k + 1,
          omit, unsynced)
  {
    var now := StatesAfter(s, ds, k);
    var g1 := AfterTransitions(g, names, now, ds[k]);
    var g' := Run(g, DispatchTrace(names, now, ds, k, layout, omit));
    hide Run, ApplyBarriers, DispatchTrace, Transitions, Moved, Bound, UsedBefore, Skipped, Disciplined,
         UnsyncedTextures, Distinct, DispatchAllowed, Inputs, Outputs, Apply, ExplicitBarriers, UavBarriers;
    RunDispatchTrace(g, names, now, ds, k, layout, omit);
    TransitionsStayInSync(g, names, now, ds[k].resources, |ds[k].resources|);
    AllowedStepIsLegal(g, names, s, ds, k, omit, unsynced);
    CoverWrites(g1, names, ds, k, omit);
    forall r
      ensures r in g'.pending <==> Uncovered(names, ds, k + 1, omit, unsynced, r)
    {
      PendingAtDispatch(g, names, s, ds, k, omit, unsynced, r);
      UsedStep(names, ds, k, r);
    }
  }

  lemma {:induction false} UsedStep(names: Names, ds: seq<DispatchDesc>, k: nat, r: Resource)
    requires AllResolved(names, ds) && k < |ds|
    ensures UsedBefore(names, ds, k + 1, r) <==>
          UsedBefore(names, ds, k, r) || Reads(names, ds, k, r) || Writes(names, ds, k, r)
  {
    hide Reads, Writes;
  }

  lemma {:induction false} ForbiddenDispatch(g: Gpu, names: Names, s: States, ds: seq<DispatchDesc>,
        k: nat, layout: Layout, omit: bool, unsynced: set<Resource>)
    requires Setting(names, s, ds, k, unsynced) && k < |ds| && Faithful(g, names, s, ds, k, omit, unsynced)
    requires !StepAllowed(names, ds, k, unsynced)
    ensures !Run(g, DispatchTrace(names, StatesAfter(s, ds, k), ds, k, layout, omit)).safe
  {
    var now := StatesAfter(s, ds, k);
    hide Run, ApplyBarriers, DispatchTrace, AfterTransitions, Inputs, Outputs, DispatchAllowed, ExplicitBarriers,
         Distinct, Disciplined, UnsyncedTextures, StepAllowed, Faithful;
    RunDispatchTrace(g, names, now, ds, k, layout, omit);
    ForbiddenStepIsIllegal(g, names, s, ds, k, omit, unsynced);
    IllegalDispatchIsUnsafe(AfterTransitions(g, names, now, ds[k]), Inputs(names, ds[k]), Outputs(names, ds[k]),
        ExplicitBarriers(names, ds, k, omit));
  }

  // ----- whole evaluations

  // What the caller hands over: its machine agrees with the table, and `unsynced` is what it wrote
  // without a barrier of its own.
  ghost predicate Entry(g: Gpu, names: Names, s: States, unsynced: set<Resource>) {
    && g.safe && g.pending == unsynced && names.Keys <= s.Keys && InSync(g, names, s)
    && Distinct(names) && UnsyncedTextures(names, s, unsynced)
  }

  lemma {:induction false} TraceStaysFaithful(g: Gpu, names: Names, s: States, ds: seq<DispatchDesc>,
        k: nat, layout: Layout, omit: bool, unsynced: set<Resource>)
    requires AllResolved(names, ds) && k <= |ds| && Entry(g, names, s, unsynced) && Disciplined(names, ds, k, unsynced)
    ensures Faithful(Run(g, Trace(names, s, ds, k, layout, omit)), names, s, ds, k, omit, unsynced)
  {
    hide InSync, Distinct, UnsyncedTextures, StepAllowed, Skipped, DispatchTrace, Reads, Writes;
    if k > 0 {
      TraceStaysFaithful(g, names, s, ds, k - 1, layout, omit, unsynced);
      var before := Trace(names, s, ds, k - 1, layout, omit);
      RunConcat(g, before, DispatchTrace(names, StatesAfter(s, ds, k - 1), ds, k - 1, layout, omit));
      DispatchStep(Run(g, before), names, s, ds, k - 1, layout, omit, unsynced);
    }
  }

  lemma {:induction false} TraceTurnsUnsafe(g: Gpu, names: Names, s: States, ds: seq<DispatchDesc>, k: nat,
        layout: Layout, omit: bool, unsynced: set<Resource>)
    requires AllResolved(names, ds) && k <= |ds| && Entry(g, names, s, unsynced) && !Disciplined(names, ds, k, unsynced)
    ensures !Run(g, Trace(names, s, ds, k, layout, omit)).safe
  {
    hide InSync, Distinct, UnsyncedTextures, StepAllowed, Faithful, DispatchTrace, Run;
    var before := Trace(names, s, ds, k - 1, layout, omit);
    var last := DispatchTrace(names, StatesAfter(s, ds, k - 1), ds, k - 1, layout, omit);
    RunConcat(g, before, last);
    DisciplinedStep(names, ds, k, unsynced);
    if Disciplined(names, ds, k - 1, unsynced) {
      TraceStaysFaithful(g, names, s, ds, k - 1, layout, omit, unsynced);
      ForbiddenDispatch(Run(g, before), names, s, ds, k - 1, layout, omit, unsynced);
    } else {
      TraceTurnsUnsafe(g, names, s, ds, k - 1, layout, omit, unsynced);
      UnsafeStaysUnsafe(Run(g, before), last);
    }
  }

  // The caller's writes that the evaluation never touches.
  ghost predicate Untouched(names: Names, ds: seq<DispatchDesc>, unsynced: set<Resource>, r: Resource)
    requires AllResolved(names, ds)
  {
    r in unsynced && !UsedBefore(names, ds, |ds|, r)
  }

  // The final barriers give every external texture back and cover nothing.
  lemma {:induction false} BackToUavStep(g: Gpu, names: Names, s: States, kinds: nat)
    requires Resolved(names, BackToUav(kinds)) && names.Keys <= s.Keys && Distinct(names) && InSync(g, names, s)
    requires forall r :: r in g.pending ==> HeldForWriting(names, s, r)
    ensures var g' := ApplyBarriers(g, FinalTransitions(names, s, kinds));
            (forall r :: r in g'.pending <==> r in g.pending) &&
            forall j :: 0 <= j < kinds ==> InState(g', names[External(j)], UnorderedAccess)
  {
    hide ApplyBarriers, Transitions, Moved, Distinct;
    var back := BackToUav(kinds);
    TransitionsStayInSync(g, names, s, back, kinds);
    forall r | r in g.pending
      ensures r in ApplyBarriers(g, FinalTransitions(names, s, kinds)).pending
    {
      assert HeldForWriting(names, s, r);
      var ref :| ref in names && ref in s && names[ref] == r && s[ref] == UnorderedAccess;
      assert forall j :: 0 <= j < kinds && names[back[j].ref] == r ==> back[j].ref == ref by {
        DistinctRefs(names, ref);
      }
      WritingKeepsPending(g, names, s, back, kinds, r);
    }
    forall j | 0 <= j < kinds
      ensures InState(ApplyBarriers(g, FinalTransitions(names, s, kinds)), names[External(j)], UnorderedAccess)
    {
      assert back[j].ref == External(j);
      MovedState(s, back, kinds, External(j), UnorderedAccess);
    }
  }

  lemma {:induction false} DistinctRefs(names: Names, ref: Ref)
    requires Distinct(names) && ref in names
    ensures forall other :: other in names && names[other] == names[ref] ==> other == ref
  {
  }

  // After the last dispatch only untouched writes of the caller are uncovered, and their textures
  // are still held for writing.
  lemma {:induction false} UncoveredAtTheEnd(names: Names, s: States, ds: seq<DispatchDesc>, omit: bool,
        unsynced: set<Resource>, r: Resource)
    requires AllResolved(names, ds) && names.Keys <= s.Keys && UnsyncedTextures(names, s, unsynced)
    ensures Uncovered(names, ds, |ds|, omit, unsynced, r) <==> Untouched(names, ds, unsynced, r)
    ensures Uncovered(names, ds, |ds|, omit, unsynced, r) ==> HeldForWriting(names, StatesAfter(s, ds, |ds|), r)
  {
    hide UsedBefore, StatesAfter, Written;
    if r in unsynced && !UsedBefore(names, ds, |ds|, r) {
      assert HeldForWriting(names, s, r);
      var ref :| ref in names && ref in s && names[ref] == r && s[ref] == UnorderedAccess;
      UnusedKeepsState(names, s, ds, |ds|, ref);
    }
  }

  // Barrier omission is safe: a recorded evaluation breaks no rule if no dispatch binds a resource
  // both ways and every texture the caller left unsynchronised is read before it is written. It
  // then leaves the real states equal to the tracked ones, every external texture in the
  // unordered-access state, and no write of its own uncovered.
  lemma {:induction false} EvaluationIsSafe(g: Gpu, names: Names, s: States, ds: seq<DispatchDesc>,
        kinds: nat, layout: Layout, omit: bool, unsynced: set<Resource>)
    requires AllResolved(names, ds) && Resolved(names, BackToUav(kinds)) && Entry(g, names, s, unsynced)
    requires Disciplined(names, ds, |ds|, unsynced)
    ensures var g' := Run(g, EvaluationTrace(names, s, ds, kinds, layout, omit));
            && g'.safe
            && InSync(g', names, EvaluationStates(s, ds, kinds))
            && (forall j :: 0 <= j < kinds ==> InState(g', names[External(j)], UnorderedAccess))
            && (forall r :: r in g'.pending <==> Untouched(names, ds, unsynced, r))
  {
    hide Run, ApplyBarriers, Trace, StatesAfter, InSync, Distinct, UnsyncedTextures, Uncovered, Untouched, Disciplined,
        Recorded, Transitions;
    var before := Trace(names, s, ds, |ds|, layout, omit);
    var now := StatesAfter(s, ds, |ds|);
    var g1 := Run(g, before);
    TraceStaysFaithful(g, names, s, ds, |ds|, layout, omit, unsynced);
    RunConcat(g, before, Recorded(FinalTransitions(names, now, kinds)));
    RunRecorded(g1, FinalTransitions(names, now, kinds));
    forall r
      ensures r in g1.pending <==> Untouched(names, ds, unsynced, r)
      ensures r in g1.pending ==> HeldForWriting(names, now, r)
    {
      UncoveredAtTheEnd(names, s, ds, omit, unsynced, r);
    }
    TransitionsStayInSync(g1, names, now, BackToUav(kinds), kinds);
    BackToUavStep(g1, names, now, kinds);
  }

  lemma {:induction false} EntryKeys(g: Gpu, names: Names, s: States, unsynced: set<Resource>)
    requires Entry(g, names, s, unsynced)
    ensures names.Keys <= s.Keys
  {
  }

  // And only then: any other list of dispatches is recorded as a broken command list.
  lemma {:induction false} EvaluationIsSafeOnlyIf(g: Gpu, names: Names, s: States, ds: seq<DispatchDesc>,
        kinds: nat, layout: Layout, omit: bool, unsynced: set<Resource>)
    requires AllResolved(names, ds) && Resolved(names, BackToUav(kinds)) && Entry(g, names, s, unsynced)
    requires !Disciplined(names, ds, |ds|, unsynced)
    ensures !Run(g, EvaluationTrace(names, s, ds, kinds, layout, omit)).safe
  {
    hide Run, Trace, Entry, Disciplined, Recorded;
    EntryKeys(g, names, s, unsynced);
    var before := Trace(names, s, ds, |ds|, layout, omit);
    var back := Recorded(FinalTransitions(names, StatesAfter(s, ds, |ds|), kinds));
    TraceTurnsUnsafe(g, names, s, ds, |ds|, layout, omit, unsynced);
    RunConcat(g, before, back);
    UnsafeStaysUnsafe(Run(g, before), back);
  }

  // Compared with a barrier after every written resource, the shorter recording is exactly as safe
  // and leaves the machine as it would have been.
  lemma {:induction false} OmissionIsInvisible(g: Gpu, names: Names, s: States, ds: seq<DispatchDesc>, kinds: nat,
        layout: Layout, unsynced: set<Resource>)
    requires AllResolved(names, ds) && Resolved(names, BackToUav(kinds)) && Entry(g, names, s, unsynced)
    ensures var short := Run(g, EvaluationTrace(names, s, ds, kinds, layout, true));
            var full := Run(g, EvaluationTrace(names, s, ds, kinds, layout, false));
            && short.safe == full.safe
            && (short.safe ==> short.pending == full.pending)
            && (short.safe ==> forall ref :: ref in names ==>
                 names[ref] in short.states && names[ref] in full.states
                     && short.states[names[ref]] == full.states[names[ref]])
  {
    hide Run, EvaluationTrace, Entry, Disciplined, Untouched, EvaluationStates;
    if Disciplined(names, ds, |ds|, unsynced) {
      EvaluationIsSafe(g, names, s, ds, kinds, layout, true, unsynced);
      EvaluationIsSafe(g, names, s, ds, kinds, layout, false, unsynced);
      EntryKeys(g, names, s, unsynced);
    } else {
      EvaluationIsSafeOnlyIf(g, names, s, ds, kinds, layout, true, unsynced);
      EvaluationIsSafeOnlyIf(g, names, s, ds, kinds, layout, false, unsynced);
    }
  }

  // ----- runs of evaluations

  // One evaluation as its caller sees it. `entry` is the machine when recording starts: between
  // evaluations the renderer may do what it likes to the external textures.
  datatype Frame = Frame(externals: Names, kinds: nat, dispatches: seq<DispatchDesc>, layout: Layout, entry: Gpu)

  function ExternalStates(externals: Names): States {
    map ref | ref in externals :: UnorderedAccess
  }

  ghost predicate FrameFits(pool: Names, s: States, f: Frame) {
    var names := pool + f.externals;
    && AllResolved(names, f.dispatches) && Resolved(names, BackToUav(f.kinds)) && Distinct(names)
    && (forall ref :: ref in f.externals ==> ref !in pool)
    && Disciplined(names, f.dispatches, |f.dispatches|, f.entry.pending)
    // what the caller hands over
    && f.entry.safe && InSync(f.entry, f.externals, ExternalStates(f.externals))
    && UnsyncedTextures(f.externals, ExternalStates(f.externals), f.entry.pending)
  }

  ghost function FrameExit(pool: Names, s: States, f: Frame): Gpu
    requires FrameFits(pool, s, f) && pool.Keys <= s.Keys
  {
    Run(f.entry,
        EvaluationTrace(pool + f.externals, s + ExternalStates(f.externals), f.dispatches, f.kinds, f.layout, true))
  }

  function StatesOut(s: States, f: Frame): (s': States)
    ensures s.Keys <= s'.Keys
  {
    EvaluationStates(s + ExternalStates(f.externals), f.dispatches, f.kinds)
  }

  // Between two frames nobody else touches the pool textures.
  ghost predicate PoolLeftAlone(pool: Names, before: Gpu, after: Gpu) {
    forall ref :: ref in pool && pool[ref] in before.states ==>
      pool[ref] in after.states && after.states[pool[ref]] == before.states[pool[ref]]
  }

  ghost predicate RunFits(pool: Names, s: States, frames: seq<Frame>)
    requires pool.Keys <= s.Keys
    decreases |frames|
  {
    frames == [] ||
    (FrameFits(pool, s, frames[0]) &&
     (|frames| > 1 ==> PoolLeftAlone(pool, FrameExit(pool, s, frames[0]), frames[1].entry)) &&
     RunFits(pool, StatesOut(s, frames[0]), frames[1..]))
  }

  ghost predicate EveryFrameSafe(pool: Names, s: States, frames: seq<Frame>)
    requires pool.Keys <= s.Keys && RunFits(pool, s, frames)
    decreases |frames|
  {
    frames == [] || (FrameExit(pool, s, frames[0]).safe && EveryFrameSafe(pool, StatesOut(s, frames[0]), frames[1..]))
  }

  lemma {:induction false} FrameEntry(pool: Names, s: States, f: Frame)
    requires FrameFits(pool, s, f) && pool.Keys <= s.Keys && InSync(f.entry, pool, s)
    ensures Entry(f.entry, pool + f.externals, s + ExternalStates(f.externals), f.entry.pending)
  {
    hide Distinct, Disciplined;
    var names, t := pool + f.externals, s + ExternalStates(f.externals);
    forall r | r in f.entry.pending ensures HeldForWriting(names, t, r) {
      assert HeldForWriting(f.externals, ExternalStates(f.externals), r);
      var ref :| ref in f.externals && f.externals[ref] == r;
      assert names[ref] == r && t[ref] == UnorderedAccess;
    }
  }

  // The states tracked across evaluations stay the real ones, so every evaluation of a run is safe.
  lemma {:induction false} EveryRunIsSafe(pool: Names, s: States, frames: seq<Frame>)
    requires pool.Keys <= s.Keys && RunFits(pool, s, frames)
    requires frames != [] ==> InSync(frames[0].entry, pool, s)
    ensures EveryFrameSafe(pool, s, frames)
    decreases |frames|
  {
    hide Distinct, Disciplined, EvaluationTrace, Run, EvaluationStates, Untouched, UnsyncedTextures, Entry;
    if frames != [] {
      var f := frames[0];
      FrameEntry(pool, s, f);
      EvaluationIsSafe(f.entry, pool + f.externals, s + ExternalStates(f.externals), f.dispatches, f.kinds, f.layout,
          true, f.entry.pending);
      assert InSync(FrameExit(pool, s, f), pool, StatesOut(s, f)) by {
        forall ref | ref in pool
          ensures InState(FrameExit(pool, s, f), pool[ref], StatesOut(s, f)[ref])
        {
          assert (pool + f.externals)[ref] == pool[ref];
        }
      }
      EveryRunIsSafe(pool, StatesOut(s, f), frames[1..]);
    }
  }
}
