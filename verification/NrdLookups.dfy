/** What an evaluation of NrdBackend looks up (Source/NrdBackend.cpp:458-560): the textures passed in, the frame
    context whose slices it uses, and what a dispatch needs to be recorded. */
module NrdLookups {
  import opened GpuTrace
  import opened NrdRecording
  import opened NrdSlices
  import opened NrdLaunches
  import opened NrdBackend
  import opened Multiples

  // Each texture passed in is found under its own kind, the confidences only when both are there.
  lemma {:induction false} ExternalsAre(pools: Names, desc: EvaluationDesc)
    ensures var names := NamesFor(pools, desc);
            && (forall kind :: 0 <= kind < 7 ==> External(kind) in names)
            && names[External(0)] == desc.motion && names[External(1)] == desc.normalRoughness
            && names[External(2)] == desc.viewZ && names[External(3)] == desc.diffuseRadiance
            && names[External(4)] == desc.specularRadiance && names[External(5)] == desc.diffuseOutput
            && names[External(6)] == desc.specularOutput
    ensures var names, both := NamesFor(pools, desc), desc.diffuseConfidence != NULL && desc.specularConfidence != NULL;
            && (forall kind :: 7 <= kind ==> (External(kind) in names <==> both && kind < 9))
            && (both ==> names[External(7)] == desc.diffuseConfidence && names[External(8)] == desc.specularConfidence)
  {
    hide PoolNames;
    var list := ExternalList(desc);
    var externals := ExternalNames(list);
    assert forall kind :: External(kind) in NamesFor(pools, desc) <==> External(kind) in externals;
  }

  // Each pool texture is found under its own pool and index.
  lemma {:induction false} PoolsAre(permanent: seq<Resource>, transient: seq<Resource>, i: nat)
    ensures var names := PoolTable(permanent, transient);
            && (Permanent(i) in names <==> i < |permanent|) && (Transient(i) in names <==> i < |transient|)
            && External(i) !in names
            && (i < |permanent| ==> names[Permanent(i)] == permanent[i])
            && (i < |transient| ==> names[Transient(i)] == transient[i])
  {
  }

  // The pools are found as they are, in the states they were left in; what is passed in is taken to
  // be ready for writing.
  lemma {:induction false} PoolsStay(pools: Names, states: States, desc: EvaluationDesc)
    ensures var names, tracked := NamesFor(pools, desc), StatesFor(states, desc);
            && (forall ref: Ref :: !ref.External? ==> (ref in names <==> ref in pools))
            && (forall ref: Ref :: !ref.External? && ref in pools ==> names[ref] == pools[ref])
            && (forall ref: Ref :: !ref.External? ==> (ref in tracked <==> ref in states))
            && (forall ref: Ref :: !ref.External? && ref in states ==> tracked[ref] == states[ref])
            && (forall ref: Ref :: ref.External? && ref in names ==> ref in tracked && tracked[ref] == UnorderedAccess)
  {
    hide ExternalList;
  }

  // Frame contexts take turns.
  lemma {:induction false} FramesTakeTurns(desc: EvaluationDesc, count: nat, round: nat, turn: nat)
    requires turn < count
    ensures FrameOf(desc.(frameContextIndex := round * count + turn), count) == turn
  {
    RemainderOf(round, turn, count);
  }

  // A dispatch can be recorded exactly when its pipeline is there, there is a descriptor set left,
  // each resource can be looked up, and there are no more of either kind than a table holds.
  lemma {:induction false} RecordableExactly(names: Names, pipelines: seq<bool>, d: DispatchDesc, setCount: nat, i: nat,
        shape: SetShape)
    ensures Recordable(names, pipelines, d, setCount, i, shape) <==>
              var rs := d.resources;
              && d.pipelineIndex < |pipelines| && pipelines[d.pipelineIndex] && i < setCount
              && (forall j :: 0 <= j < |rs| ==> rs[j].ref in names && names[rs[j].ref] != NULL)
              && |Before(rs, |rs|, true)| <= shape.srvCount && |Before(rs, |rs|, false)| <= shape.uavCount
  {
    hide Before, KindCount;
    CountsKind(d.resources, |d.resources|, true);
    CountsKind(d.resources, |d.resources|, false);
  }
}
