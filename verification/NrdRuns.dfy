/** What sequences of NrdBackend::Evaluate calls leave behind (Source/NrdBackend.cpp:369-795): runs of
    successful evaluations are the runs of NrdSafety, and an evaluation that fails at a dispatch
    leaves the textures in the states of their last recorded use. */
module NrdRuns {
  import opened Options
  import opened GpuTrace
  import opened NrdRecording
  import opened NrdSafety
  import opened NrdSlices
  import opened NrdBackend

  // ----- runs of evaluations

  // An evaluation that succeeds: the tables it starts from, what it is given, and the machine when
  // its recording starts.
  datatype Evaluation = Evaluation(names: Names, states: States, desc: EvaluationDesc, dispatches: seq<DispatchDesc>,
    layout: Layout, entry: Gpu)

  function Kinds(e: Evaluation): nat {
    |ExternalList(e.desc)|
  }

  function Lookups(e: Evaluation): Names {
    NamesFor(e.names, e.desc)
  }

  function Tracked(e: Evaluation): States {
    StatesFor(e.states, e.desc)
  }

  // The table the contract of Evaluate leaves.
  function StatesLeft(e: Evaluation): States {
    EvaluationStates(Tracked(e), e.dispatches, Kinds(e))
  }

  // What Evaluate's contract says of its tables when it succeeds.
  predicate Succeeds(e: Evaluation) {
    && e.names.Keys <= e.states.Keys && Lookups(e).Keys <= Tracked(e).Keys
    && AllResolved(Lookups(e), e.dispatches) && Resolved(Lookups(e), BackToUav(Kinds(e)))
  }

  // The machine after the commands that Evaluate's contract says it records.
  ghost function Exit(e: Evaluation): Gpu
    requires Succeeds(e)
  {
    Run(e.entry, EvaluationTrace(Lookups(e), Tracked(e), e.dispatches, Kinds(e), e.layout, true))
  }

  // What the caller of Evaluate has to see to.
  ghost predicate CallerKeepsRules(e: Evaluation)
    requires Succeeds(e)
  {
    var externals := ExternalNames(ExternalList(e.desc));
    && Distinct(Lookups(e))
    && Disciplined(Lookups(e), e.dispatches, |e.dispatches|, e.entry.pending)
    && e.entry.safe && InSync(e.entry, externals, ExternalStates(externals))
    && UnsyncedTextures(externals, ExternalStates(externals), e.entry.pending)
  }

  // Each evaluation starts from the tables the one before it left, and nobody else has touched the
  // pool textures in between.
  ghost predicate Consecutive(es: seq<Evaluation>)
    requires forall i :: 0 <= i < |es| ==> Succeeds(es[i])
  {
    forall i :: 0 < i < |es| ==>
      && es[i].names == Lookups(es[i - 1]) && es[i].states == StatesLeft(es[i - 1])
      && PoolLeftAlone(PoolNames(es[0].names), Exit(es[i - 1]), es[i].entry)
  }

  function FrameOfEvaluation(e: Evaluation): Frame {
    Frame(ExternalNames(ExternalList(e.desc)), Kinds(e), e.dispatches, e.layout, e.entry)
  }

  function Frames(es: seq<Evaluation>): (frames: seq<Frame>)
    ensures |frames| == |es|
    ensures forall i :: 0 <= i < |es| ==> frames[i] == FrameOfEvaluation(es[i])
  {
    seq(|es|, i requires 0 <= i < |es| => FrameOfEvaluation(es[i]))
  }

  // An evaluation is a frame over the pools.
  lemma {:induction false} EvaluationIsFrame(e: Evaluation)
    requires Succeeds(e)
    ensures FrameOfEvaluation(e).entry == e.entry
    ensures Lookups(e) == PoolNames(e.names) + FrameOfEvaluation(e).externals
    ensures Tracked(e) == e.states + ExternalStates(FrameOfEvaluation(e).externals)
    ensures StatesLeft(e) == StatesOut(e.states, FrameOfEvaluation(e))
    ensures PoolNames(Lookups(e)) == PoolNames(e.names) && PoolNames(e.names).Keys <= e.states.Keys
    ensures CallerKeepsRules(e) ==> FrameFits(PoolNames(e.names), e.states, FrameOfEvaluation(e))
    ensures FrameFits(PoolNames(e.names), e.states, FrameOfEvaluation(e)) ==>
              FrameExit(PoolNames(e.names), e.states, FrameOfEvaluation(e)) == Exit(e)
  {
    hide EvaluationTrace, EvaluationStates, Run, Distinct, Disciplined, InSync, UnsyncedTextures, ExternalList,
        AllResolved, ResolvedUpTo;
    assert PoolNames(Lookups(e)) == PoolNames(e.names);
  }

  lemma {:induction false} EvaluationsAreRun(es: seq<Evaluation>)
    requires es != [] && forall i :: 0 <= i < |es| ==> Succeeds(es[i]) && CallerKeepsRules(es[i])
    requires Consecutive(es)
    ensures PoolNames(es[0].names).Keys <= es[0].states.Keys
    ensures RunFits(PoolNames(es[0].names), es[0].states, Frames(es))
    decreases |es|
  {
    hide CallerKeepsRules, Lookups, StatesLeft, FrameFits, StatesOut, PoolLeftAlone, Exit, FrameExit, PoolNames,
        FrameOfEvaluation, Succeeds;
    EvaluationIsFrame(es[0]);
    var pool := PoolNames(es[0].names);
    assert Frames(es)[1..] == Frames(es[1..]);
    if |es| > 1 {
      assert es[1].names == Lookups(es[1 - 1]) && es[1].states == StatesLeft(es[1 - 1]);
      forall i | 0 < i < |es[1..]|
        ensures es[1..][i].names == Lookups(es[1..][i - 1]) && es[1..][i].states == StatesLeft(es[1..][i - 1])
        ensures PoolLeftAlone(pool, Exit(es[1..][i - 1]), es[1..][i].entry)
      {
        assert es[1..][i] == es[i + 1] && es[1..][i - 1] == es[i];
      }
      EvaluationsAreRun(es[1..]);
      EvaluationIsFrame(es[1]);
      assert Frames(es)[1] == FrameOfEvaluation(es[1]);
      assert PoolLeftAlone(pool, Exit(es[1 - 1]), es[1].entry);
    }
  }

  // However many evaluations follow each other, none breaks a rule of the machine.
  lemma {:induction false} EvaluationsStaySafe(es: seq<Evaluation>)
    requires es != [] && forall i :: 0 <= i < |es| ==> Succeeds(es[i]) && CallerKeepsRules(es[i])
    requires Consecutive(es) && InSync(es[0].entry, PoolNames(es[0].names), es[0].states)
    ensures forall i :: 0 <= i < |es| ==> Exit(es[i]).safe
  {
    hide CallerKeepsRules, RunFits, EveryFrameSafe, InSync, Exit;
    EvaluationsAreRun(es);
    EveryRunIsSafe(PoolNames(es[0].names), es[0].states, Frames(es));
    FramesAreExits(es);
  }

  lemma {:induction false} FramesAreExits(es: seq<Evaluation>)
    requires es != [] && forall i :: 0 <= i < |es| ==> Succeeds(es[i]) && CallerKeepsRules(es[i])
    requires Consecutive(es)
    requires PoolNames(es[0].names).Keys <= es[0].states.Keys
    requires RunFits(PoolNames(es[0].names), es[0].states, Frames(es))
    requires EveryFrameSafe(PoolNames(es[0].names), es[0].states, Frames(es))
    ensures forall i :: 0 <= i < |es| ==> Exit(es[i]).safe
    decreases |es|
  {
    hide CallerKeepsRules, Lookups, StatesLeft, FrameFits, StatesOut, PoolLeftAlone, Exit, FrameExit, PoolNames,
        FrameOfEvaluation, Succeeds;
    EvaluationIsFrame(es[0]);
    var pool := PoolNames(es[0].names);
    assert Frames(es)[1..] == Frames(es[1..]);
    assert Exit(es[0]).safe;
    if |es| > 1 {
      assert es[1].names == Lookups(es[1 - 1]) && es[1].states == StatesLeft(es[1 - 1]);
      forall i | 0 < i < |es[1..]|
        ensures es[1..][i].names == Lookups(es[1..][i - 1]) && es[1..][i].states == StatesLeft(es[1..][i - 1])
        ensures PoolLeftAlone(pool, Exit(es[1..][i - 1]), es[1..][i].entry)
      {
        assert es[1..][i] == es[i + 1] && es[1..][i - 1] == es[i];
      }
      FramesAreExits(es[1..]);
      forall i | 0 <= i < |es| ensures Exit(es[i]).safe {
        if i > 0 {
          assert es[i] == es[1..][i - 1];
        }
      }
    }
  }

  // ----- failures

  // How the first k resources of a list use a texture last: for reading, or for writing.
  function LastIn(rs: seq<ResourceDesc>, k: nat, ref: Ref): Option<bool>
    requires k <= |rs|
  {
    if k == 0 then None
    else if rs[k - 1].ref == ref then Some(rs[k - 1].isSrv)
    else LastIn(rs, k - 1, ref)
  }

  // How the first k dispatches use it last.
  function LastUse(ds: seq<DispatchDesc>, k: nat, ref: Ref): Option<bool>
    requires k <= |ds|
  {
    if k == 0 then None
    else
      var last := LastIn(ds[k - 1].resources, |ds[k - 1].resources|, ref);
      if last.Some? then last else LastUse(ds, k - 1, ref)
  }

  lemma {:induction false} MovedByLast(s: States, rs: seq<ResourceDesc>, k: nat, ref: Ref)
    requires k <= |rs| && ref in s
    ensures Moved(s, rs, k)[ref] ==
              match LastIn(rs, k, ref)
              case None => s[ref]
              case Some(isSrv) => if isSrv then ShaderRead else UnorderedAccess
  {
    if k > 0 {
      MovedByLast(s, rs, k - 1, ref);
    }
  }

  lemma {:induction false} StateByLastUse(s: States, ds: seq<DispatchDesc>, k: nat, ref: Ref)
    requires k <= |ds| && ref in s
    ensures StatesAfter(s, ds, k)[ref] ==
              match LastUse(ds, k, ref)
              case None => s[ref]
              case Some(isSrv) => if isSrv then ShaderRead else UnorderedAccess
  {
    hide Moved, LastIn;
    if k > 0 {
      StateByLastUse(s, ds, k - 1, ref);
      MovedByLast(StatesAfter(s, ds, k - 1), ds[k - 1].resources, |ds[k - 1].resources|, ref);
    }
  }

  lemma {:induction false} UavBarriersKeepStates(g: Gpu, names: Names, written: seq<Resource>, k: nat,
        next: seq<ResourceDesc>)
    requires k <= |written|
    ensures ApplyBarriers(g, UavBarriers(names, written, k, next, true)).states == g.states
  {
    hide LeftOut;
    if k > 0 {
      UavBarriersKeepStates(g, names, written, k - 1, next);
      if !LeftOut(names, next, true, written[k - 1]) {
        BarriersSnoc(g, UavBarriers(names, written, k - 1, next, true), UavBarrier(written[k - 1]));
      }
    }
  }

  // The first k dispatches leave every texture in its tracked state, safe or not.
  lemma {:induction false} PartStaysInSync(g: Gpu, names: Names, s: States, ds: seq<DispatchDesc>, k: nat,
        layout: Layout)
    requires k <= |ds| && (forall j :: 0 <= j < k ==> Resolved(names, ds[j].resources))
    requires Distinct(names) && names.Keys <= s.Keys && InSync(g, names, s)
    ensures InSync(Run(g, Trace(names, s, ds, k, layout, true)), names, StatesAfter(s, ds, k))
  {
    hide Distinct, InSync, DispatchTrace, Moved, ResolvedUpTo, Run;
    if k > 0 {
      PartStaysInSync(g, names, s, ds, k - 1, layout);
      var now := StatesAfter(s, ds, k - 1);
      var g1 := Run(g, Trace(names, s, ds, k - 1, layout, true));
      RunConcat(g, Trace(names, s, ds, k - 1, layout, true), DispatchTrace(names, now, ds, k - 1, layout, true));
      DispatchStaysInSync(g1, names, now, ds, k - 1, layout);
    } else {
      NoCommands(g);
    }
  }

  lemma NoCommands(g: Gpu)
    ensures Run(g, []) == g
  {
  }

  lemma {:induction false} DispatchStaysInSync(g: Gpu, names: Names, s: States, ds: seq<DispatchDesc>, i: nat,
        layout: Layout)
    requires i < |ds| && Resolved(names, ds[i].resources)
    requires Distinct(names) && names.Keys <= s.Keys && InSync(g, names, s)
    ensures InSync(Run(g, DispatchTrace(names, s, ds, i, layout, true)), names,
          Moved(s, ds[i].resources, |ds[i].resources|))
  {
    hide Distinct, InSync, DispatchTrace, ApplyBarriers, Moved, Written, UavBarriers, ResolvedUpTo, Inputs, Outputs,
        Transitions, Run;
    RunDispatchTrace(g, names, s, ds, i, layout, true);
    TransitionsStayInSync(g, names, s, ds[i].resources, |ds[i].resources|);
    var g2 := AfterTransitions(g, names, s, ds[i]);
    var g3 := Apply(g2, Dispatch(Inputs(names, ds[i]), Outputs(names, ds[i])));
    var written := Written(names, ds[i]);
    UavBarriersKeepStates(g3, names, written, |written|, NextResources(ds, i));
    SameStatesInSync(g2, Run(g, DispatchTrace(names, s, ds, i, layout, true)), names,
        Moved(s, ds[i].resources, |ds[i].resources|));
  }

  lemma SameStatesInSync(g: Gpu, g': Gpu, names: Names, s: States)
    requires g.states == g'.states && InSync(g, names, s)
    ensures InSync(g', names, s)
  {
  }

  // An evaluation that fails at a dispatch does not give the external textures back: those that its
  // recorded dispatches used last for reading stay in the shader-read state, the others do not.
  lemma {:induction false} FailureLeavesReads(g: Gpu, names: Names, pipelines: seq<bool>, s: States,
        ds: seq<DispatchDesc>, i: nat, sizes: Sizes, f: nat, layout: Layout, before: seq<Command>, after: seq<Command>,
        kind: nat)
    requires StoppedAt(names, pipelines, s, ds, i, sizes, f, layout, before, after)
    requires Distinct(names) && InSync(Run(g, before), names, s)
    requires External(kind) in names && s[External(kind)] == UnorderedAccess
    ensures InState(Run(g, after), names[External(kind)],
          if LastUse(ds, i, External(kind)) == Some(true) then ShaderRead else UnorderedAccess)
  {
    hide Run, Trace, AllRecordable, Recordable, Distinct, ResolvedUpTo;
    RunConcat(g, before, Trace(names, s, ds, i, layout, true));
    PartStaysInSync(Run(g, before), names, s, ds, i, layout);
    StateByLastUse(s, ds, i, External(kind));
  }

  // ----- evaluations of each kind

  // A complete description with seven textures of which the first, the motion vectors, was written
  // without a barrier.
  const DESC := EvaluationDesc(0, 1, 2, 3, 4, 5, 6, 7, 0, 0)
  const NO_NAMES: Names := map[]
  const NO_STATES: States := map[]
  const HANDED_OVER := Gpu(map r: nat | 1 <= r <= 7 :: UnorderedAccess, {1}, true)

  // A dispatch that binds only the motion vectors.
  function Binding1(pipeline: nat, isSrv: bool): DispatchDesc {
    DispatchDesc(pipeline, [ResourceDesc(External(0), isSrv)], [], false)
  }

  function WriteFirst(): seq<DispatchDesc> {
    [Binding1(0, false)]
  }

  function ReadFirst(): seq<DispatchDesc> {
    [Binding1(0, true), Binding1(0, false)]
  }

  // The second dispatch names a pipeline that is not there.
  function ReadThenFail(): seq<DispatchDesc> {
    [Binding1(0, true), Binding1(1, false)]
  }

  function Handed(ds: seq<DispatchDesc>, layout: Layout): Evaluation {
    Evaluation(NO_NAMES, NO_STATES, DESC, ds, layout, HANDED_OVER)
  }

  lemma {:induction false} SevenTextures()
    ensures Complete(DESC) && |ExternalList(DESC)| == 7
    ensures var names, states := NamesFor(NO_NAMES, DESC), StatesFor(NO_STATES, DESC);
            && (forall ref :: ref in names <==> ref.External? && ref.kind < 7)
            && (forall ref :: ref in names ==> names[ref] == ref.kind + 1)
            && (forall ref :: ref in states <==> ref in names)
            && (forall ref :: ref in states ==> states[ref] == UnorderedAccess)
  {
    var list := ExternalList(DESC);
    assert list == [1, 2, 3, 4, 5, 6, 7];
    assert forall k :: 0 <= k < 7 ==> list[k] == k + 1;
  }

  lemma {:induction false} CallerHandsOver()
    ensures Entry(HANDED_OVER, NamesFor(NO_NAMES, DESC), StatesFor(NO_STATES, DESC), {1})
  {
    hide NamesFor, StatesFor;
    SevenTextures();
    var names, states := NamesFor(NO_NAMES, DESC), StatesFor(NO_STATES, DESC);
    assert HeldForWriting(names, states, 1) by {
      assert External(0) in names;
    }
  }

  lemma {:induction false} OneResource(names: Names, pipeline: nat, isSrv: bool, other: bool)
    requires External(0) in names
    ensures Resolved(names, Binding1(pipeline, isSrv).resources)
    ensures Bound(names, Binding1(pipeline, isSrv).resources, 1, other)
         == if isSrv == other then [names[External(0)]] else []
  {
    assert Bound(names, Binding1(pipeline, isSrv).resources, 0, other) == [];
  }

  lemma {:induction false} WriteFirstIsForbidden(names: Names)
    requires External(0) in names && names[External(0)] == 1
    ensures AllResolved(names, WriteFirst()) && !Disciplined(names, WriteFirst(), 1, {1})
  {
    var ds := WriteFirst();
    OneResource(names, 0, false, false);
    OneResource(names, 0, false, true);
    assert Writes(names, ds, 0, 1) && !ReadBefore(names, ds, 0, 1);
    assert !StepAllowed(names, ds, 0, {1});
  }

  lemma {:induction false} ReadFirstIsAllowed(names: Names)
    requires External(0) in names && names[External(0)] == 1
    ensures AllResolved(names, ReadFirst()) && Disciplined(names, ReadFirst(), 2, {1})
  {
    var ds := ReadFirst();
    OneResource(names, 0, true, false);
    OneResource(names, 0, true, true);
    OneResource(names, 0, false, false);
    OneResource(names, 0, false, true);
    assert Reads(names, ds, 0, 1) && !Reads(names, ds, 1, 1);
    assert StepAllowed(names, ds, 0, {1});
    assert StepAllowed(names, ds, 1, {1});
  }

  lemma {:induction false} HandedSucceeds(ds: seq<DispatchDesc>, layout: Layout)
    requires AllResolved(NamesFor(NO_NAMES, DESC), ds)
    ensures Succeeds(Handed(ds, layout))
  {
    hide NamesFor, StatesFor, ExternalList;
    SevenTextures();
    var names := NamesFor(NO_NAMES, DESC);
    forall j | 0 <= j < 7 ensures BackToUav(7)[j].ref in names {
      assert BackToUav(7)[j].ref == External(j);
    }
  }

  // With these textures a dispatch list that writes the first at once is recorded unsafely, and one
  // that reads it first is safe.
  lemma {:induction false} BothDisciplinesHappen(layout: Layout)
    ensures Complete(DESC)
    ensures var names, states := NamesFor(NO_NAMES, DESC), StatesFor(NO_STATES, DESC);
            && Entry(HANDED_OVER, names, states, {1})
            && AllResolved(names, WriteFirst()) && !Disciplined(names, WriteFirst(), 1, {1})
            && AllResolved(names, ReadFirst()) && Disciplined(names, ReadFirst(), 2, {1})
    ensures Succeeds(Handed(WriteFirst(), layout)) && !Exit(Handed(WriteFirst(), layout)).safe
    ensures Succeeds(Handed(ReadFirst(), layout)) && Exit(Handed(ReadFirst(), layout)).safe
  {
    hide Run, EvaluationTrace, Disciplined, Entry, Untouched, Binding1, EvaluationStates, NamesFor, StatesFor,
        ExternalList, Complete;
    SevenTextures();
    CallerHandsOver();
    var names, states := NamesFor(NO_NAMES, DESC), StatesFor(NO_STATES, DESC);
    WriteFirstIsForbidden(names);
    ReadFirstIsAllowed(names);
    HandedSucceeds(WriteFirst(), layout);
    HandedSucceeds(ReadFirst(), layout);
    EvaluationIsSafeOnlyIf(HANDED_OVER, names, states, WriteFirst(), 7, layout, true, {1});
    EvaluationIsSafe(HANDED_OVER, names, states, ReadFirst(), 7, layout, true, {1});
  }

  lemma {:induction false} ReadIsRecordable(names: Names, shape: SetShape)
    requires External(0) in names && names[External(0)] == 1 && shape.srvCount == 1
    ensures Resolved(names, ReadThenFail()[0].resources)
    ensures Recordable(names, [true], ReadThenFail()[0], 128, 0, shape)
    ensures forall other :: !Recordable(names, [true], ReadThenFail()[1], 128, 1, other)
  {
    var rs := ReadThenFail()[0].resources;
    assert KindCount(rs, 0, true) == 0 == KindCount(rs, 0, false);
  }

  lemma {:induction false} StopsAtSecond(names: Names, states: States, sizes: Sizes, layout: Layout)
    requires External(0) in names && names[External(0)] == 1 && names.Keys <= states.Keys
    requires sizes.setCount == 128 && sizes.srvCount == 1
    ensures Resolved(names, ReadThenFail()[0].resources)
    ensures StoppedAt(names, [true], states, ReadThenFail(), 1, sizes, 0, layout, [],
          Trace(names, states, ReadThenFail(), 1, layout, true))
  {
    hide Trace, Recordable, TableBase, Binding1, ResolvedUpTo;
    ReadIsRecordable(names, SetOf(sizes, 0, 0));
    var after := Trace(names, states, ReadThenFail(), 1, layout, true);
    assert after == [] + after;
  }

  // One pipeline and two dispatches, the second of which cannot be recorded: the motion vectors, read
  // by the first, are left in the shader-read state.
  lemma {:induction false} FailureHappens(layout: Layout)
        returns (names: Names, states: States, after: seq<Command>)
    ensures Complete(DESC) && names == NamesFor(NO_NAMES, DESC) && states == StatesFor(NO_STATES, DESC)
    ensures PartlyRecorded(names, [true], states, ReadThenFail(), Sizes(1, 128, 1, 1), 0, layout, [], after)
    ensures InState(Run(HANDED_OVER, after), DESC.motion, ShaderRead)
  {
    hide Trace, NamesFor, StatesFor, Run, Distinct, InSync, StoppedAt, Complete;
    SevenTextures();
    CallerHandsOver();
    names, states := NamesFor(NO_NAMES, DESC), StatesFor(NO_STATES, DESC);
    StopsAtSecond(names, states, Sizes(1, 128, 1, 1), layout);
    NoCommands(HANDED_OVER);
    assert LastUse(ReadThenFail(), 1, External(0)) == Some(true);
    after := Trace(names, states, ReadThenFail(), 1, layout, true);
    FailureLeavesReads(HANDED_OVER, names, [true], states, ReadThenFail(), 1, Sizes(1, 128, 1, 1), 0, layout, [], after,
        0);
  }
}
