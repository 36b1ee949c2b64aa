/** The benchmark harness's register of captured images and its readiness test for the temporal
    analysis (RegisterArtifact and WriteOutputs, Source/BenchmarkHarness.cpp:1093-1106, 1161-1230,
    1541-1557). */
module ArtifactRegistry {
  import opened Multiples

  // The index a final artifact carries, and no frame has.
  const INVALID_INDEX := 0xffff_ffff

  datatype Phase = MeasuredFrame | FinalImage

  datatype Artifact = Artifact(
    path: string,
    role: string,
    encoding: string,
    sourceFormat: string,
    width: nat,
    height: nat,
    phase: Phase,
    frameIndex: nat,
    measuredFrameIndex: nat)

  datatype Options = Options(warmup: nat, frames: nat, captureEvery: nat)

  predicate IsToken(text: string) {
    && 0 < |text| <= 96
    && forall i :: 0 <= i < |text| ==>
         || 'a' <= text[i] <= 'z' || 'A' <= text[i] <= 'Z' || '0' <= text[i] <= '9'
         || text[i] == '_' || text[i] == '-' || text[i] == '.'
  }

  predicate ShouldCapture(options: Options, frame: nat) {
    && options.captureEvery != 0 && options.warmup <= frame < options.warmup + options.frames
    && (frame - options.warmup) % options.captureEvery == 0
  }

  // A measured frame is one of the schedule, a final image claims none.
  predicate OnSchedule(options: Options, a: Artifact) {
    match a.phase
    case MeasuredFrame =>
      && ShouldCapture(options, a.frameIndex)
      && a.measuredFrameIndex == a.frameIndex - options.warmup
    case FinalImage => a.frameIndex == INVALID_INDEX && a.measuredFrameIndex == INVALID_INDEX
  }

  predicate Clashes(a: Artifact, b: Artifact) {
    || a.path == b.path
    || (a.role == b.role && a.phase == b.phase && a.frameIndex == b.frameIndex
        && a.measuredFrameIndex == b.measuredFrameIndex)
  }

  predicate Described(a: Artifact) {
    IsToken(a.role) && IsToken(a.encoding) && IsToken(a.sourceFormat) && a.width != 0 && a.height != 0
  }

  // What the register always is.
  predicate Consistent(options: Options, artifacts: seq<Artifact>) {
    && (forall i :: 0 <= i < |artifacts| ==> OnSchedule(options, artifacts[i]))
    && (forall i, j :: 0 <= i < j < |artifacts| ==> !Clashes(artifacts[i], artifacts[j]))
  }

  // ----- the inputs of the temporal analysis

  predicate IsInput(a: Artifact) {
    a.phase == MeasuredFrame && a.role == "beauty_hdr"
  }

  function Inputs(artifacts: seq<Artifact>): seq<nat> {
    if artifacts == [] then []
    else
      var last := artifacts[|artifacts| - 1];
      Inputs(artifacts[..|artifacts| - 1]) + if IsInput(last) then [last.measuredFrameIndex] else []
  }

  predicate Distinct(s: seq<nat>) {
    forall i, j :: 0 <= i < j < |s| ==> s[i] != s[j]
  }

  predicate Increasing(s: seq<nat>) {
    forall i, j :: 0 <= i < j < |s| ==> s[i] < s[j]
  }

  // An input comes from an artifact.
  lemma {:induction false} InputSource(artifacts: seq<Artifact>, k: nat) returns (i: nat)
    requires k < |Inputs(artifacts)|
    ensures i < |artifacts| && IsInput(artifacts[i]) && artifacts[i].measuredFrameIndex == Inputs(artifacts)[k]
  {
    var n := |artifacts| - 1;
    if k < |Inputs(artifacts[..n])| {
      i := InputSource(artifacts[..n], k);
    } else {
      i := n;
    }
  }

  // The uniqueness rule makes the inputs' indices distinct, and the schedule keeps them below the
  // number of frames.
  lemma {:induction false} InputsAreDistinct(options: Options, artifacts: seq<Artifact>)
    requires Consistent(options, artifacts)
    ensures Distinct(Inputs(artifacts))
    ensures forall k :: 0 <= k < |Inputs(artifacts)| ==> Inputs(artifacts)[k] < options.frames
  {
    hide OnSchedule, Clashes;
    if artifacts != [] {
      var n := |artifacts| - 1;
      var before, a := artifacts[..n], artifacts[n];
      InputsAreDistinct(options, before);
      if IsInput(a) {
        ScheduledBelow(options, a);
        forall k | 0 <= k < |Inputs(before)| ensures Inputs(before)[k] != a.measuredFrameIndex {
          var i := InputSource(before, k);
          assert !Clashes(artifacts[i], artifacts[n]);
          DifferentIndex(options, artifacts[i], a);
        }
      }
    }
  }

  lemma ScheduledBelow(options: Options, a: Artifact)
    requires OnSchedule(options, a) && IsInput(a)
    ensures a.measuredFrameIndex < options.frames
  {
  }

  lemma DifferentIndex(options: Options, a: Artifact, b: Artifact)
    requires OnSchedule(options, a) && OnSchedule(options, b) && IsInput(a) && IsInput(b) && !Clashes(a, b)
    ensures a.measuredFrameIndex != b.measuredFrameIndex
  {
  }

  // ----- the pigeonhole

  lemma {:induction false} AtLeastPosition(s: seq<nat>, i: nat)
    requires Increasing(s) && i < |s|
    ensures s[i] >= i
  {
    if i > 0 {
      AtLeastPosition(s, i - 1);
    }
  }

  lemma {:induction false} RoomAbove(s: seq<nat>, n: nat, i: nat)
    requires Increasing(s) && i < |s| && forall k :: 0 <= k < |s| ==> s[k] < n
    ensures s[i] + (|s| - i) <= n
    decreases |s| - i
  {
    if i + 1 < |s| {
      RoomAbove(s, n, i + 1);
    }
  }

  // n increasing numbers below n are 0, 1, ... n - 1.
  lemma {:induction false} FillsTheRange(s: seq<nat>, n: nat)
    requires Increasing(s) && forall k :: 0 <= k < |s| ==> s[k] < n
    ensures |s| <= n
    ensures |s| == n ==> forall i :: 0 <= i < n ==> s[i] == i
  {
    if s != [] {
      RoomAbove(s, n, 0);
    }
    if |s| == n {
      forall i | 0 <= i < n ensures s[i] == i {
        AtLeastPosition(s, i);
        RoomAbove(s, n, i);
      }
    }
  }

  // ----- sorting

  function Insert(x: nat, s: seq<nat>): (r: seq<nat>)
    ensures multiset(r) == multiset(s) + multiset{x}
  {
    if s == [] || x < s[0] then [x] + s
    else
      assert s == [s[0]] + s[1..];
      [s[0]] + Insert(x, s[1..])
  }

  function Sort(s: seq<nat>): (r: seq<nat>)
    ensures multiset(r) == multiset(s)
  {
    if s == [] then []
    else
      assert s == s[..|s| - 1] + [s[|s| - 1]];
      Insert(s[|s| - 1], Sort(s[..|s| - 1]))
  }

  lemma {:induction false} InsertIncreases(x: nat, s: seq<nat>)
    requires Increasing(s) && x !in s
    ensures Increasing(Insert(x, s))
  {
    if s != [] && x >= s[0] {
      InsertIncreases(x, s[1..]);
      var r := Insert(x, s[1..]);
      forall j | 0 <= j < |r| ensures s[0] < r[j] {
        assert r[j] in multiset(r);
        assert r[j] == x || r[j] in s[1..];
      }
    }
  }

  lemma {:induction false} SortIncreases(s: seq<nat>)
    requires Distinct(s)
    ensures Increasing(Sort(s)) && |Sort(s)| == |s| && forall x :: x in Sort(s) <==> x in s
  {
    assert |multiset(Sort(s))| == |multiset(s)|;
    forall x: nat ensures x in Sort(s) <==> x in s {
      assert x in Sort(s) <==> x in multiset(Sort(s));
    }
    if s != [] {
      var n := |s| - 1;
      SortIncreases(s[..n]);
      InsertIncreases(s[n], Sort(s[..n]));
    }
  }

  class Harness {
    const options: Options
    const initialized: bool
    var artifacts: seq<Artifact>

    ghost predicate Valid()
      reads this
    {
      Consistent(options, artifacts)
    }

    constructor (options: Options, initialized: bool)
      ensures Valid() && this.options == options && this.initialized == initialized && artifacts == []
    {
      this.options := options;
      this.initialized := initialized;
      artifacts := [];
    }

    // Accepts an artifact, its path made normal, when it is described, on schedule and clashes with
    // none before it; `safe` says whether the path stays inside the output directory.
    method RegisterArtifact(artifact: Artifact, normalPath: string, safe: bool) returns (ok: bool)
      requires Valid()
      modifies `artifacts
      ensures Valid()
      ensures var a := artifact.(path := normalPath);
              && (ok <==> initialized && safe && Described(artifact) && OnSchedule(options, a) &&
                          forall i :: 0 <= i < |old(artifacts)| ==> !Clashes(old(artifacts)[i], a))
              && artifacts == if ok then old(artifacts) + [a] else old(artifacts)
    {
      hide Clashes, OnSchedule;
      if !initialized || !safe || !Described(artifact) {
        return false;
      }
      var a := artifact.(path := normalPath);
      if !OnSchedule(options, a) {
        return false;
      }
      var i := 0;
      while i < |artifacts| && !Clashes(artifacts[i], a)
        invariant i <= |artifacts| && forall j :: 0 <= j < i ==> !Clashes(artifacts[j], a)
      {
        i := i + 1;
      }
      if i < |artifacts| {
        return false;
      }
      artifacts := artifacts + [a];
      ok := true;
    }

    // The readiness test: collects the inputs, sorts them, and looks for gaps.
    method TemporalReady() returns (ready: bool, inputs: seq<nat>)
      requires Valid()
      ensures inputs == Sort(Inputs(artifacts))
      ensures ready <==> options.captureEvery == 1 && |Inputs(artifacts)| == options.frames && options.frames >= 2
      ensures |inputs| <= options.frames
      ensures |inputs| == options.frames ==> forall k :: 0 <= k < options.frames ==> inputs[k] == k
    {
      hide Sort, Consistent;
      var found: seq<nat> := [];
      for i := 0 to |artifacts|
        invariant found == Inputs(artifacts[..i])
      {
        assert artifacts[..i + 1][..i] == artifacts[..i];
        if IsInput(artifacts[i]) {
          found := found + [artifacts[i].measuredFrameIndex];
        }
      }
      assert artifacts[..|artifacts|] == artifacts;
      inputs := Sort(found);
      InputsAreDistinct(options, artifacts);
      SortIncreases(found);
      assert forall k :: 0 <= k < |inputs| ==> inputs[k] in inputs;
      FillsTheRange(inputs, options.frames);
      ready := options.captureEvery == 1 && |inputs| == options.frames && |inputs| >= 2;
      var k := 0;
      while ready && k < |inputs|
        invariant k <= |inputs|
        invariant ready == (options.captureEvery == 1 && |inputs| == options.frames && |inputs| >= 2)
      {
        ready := inputs[k] == k;
        k := k + 1;
      }
    }
  }

  // ----- what is registered

  // Digits, letters, the hyphen, the full stop and the underscore, by their codes.
  predicate IsTokenCode(code: nat) {
    48 <= code <= 57 || 65 <= code <= 90 || 97 <= code <= 122 || code == 45 || code == 46 || code == 95
  }

  // A token has 1 to 96 of these characters.
  lemma {:induction false} TokensAre(text: string)
    ensures IsToken(text) <==> 1 <= |text| <= 96 && forall i :: 0 <= i < |text| ==> IsTokenCode(text[i] as nat)
  {
  }

  // The captured frames are every so many from the end of the warm-up on, while they last.
  lemma {:induction false} ScheduleExactly(options: Options, frame: nat)
    ensures ShouldCapture(options, frame) <==>
              exists k: nat :: IsCapture(options, frame, k)
  {
    if ShouldCapture(options, frame) {
      var k := (frame - options.warmup) / options.captureEvery;
      assert frame == options.warmup + k * options.captureEvery;
      assert IsCapture(options, frame, k);
    }
    if k: nat :| IsCapture(options, frame, k) {
      MultipleLeavesNothing(k, options.captureEvery);
    }
  }

  predicate IsCapture(options: Options, frame: nat, k: nat) {
    && options.captureEvery > 0 && frame == options.warmup + k * options.captureEvery
    && k * options.captureEvery < options.frames
  }

  predicate IsTokenText(text: string) {
    1 <= |text| <= 96 && forall i :: 0 <= i < |text| ==> IsTokenCode(text[i] as nat)
  }

  // What is accepted beside what is registered: three tokens, a size, a captured frame with its number
  // or none for a final image, a new path, and a new role for this frame or image.
  lemma {:induction false} AcceptedExactly(options: Options, artifacts: seq<Artifact>, a: Artifact)
    ensures Described(a) && OnSchedule(options, a) && (forall i :: 0 <= i < |artifacts| ==> !Clashes(artifacts[i], a))
       <==> && IsTokenText(a.role) && IsTokenText(a.encoding) && IsTokenText(a.sourceFormat)
            && a.width > 0 && a.height > 0
            && (a.phase.MeasuredFrame? ==>
                  && (exists k: nat :: IsCapture(options, a.frameIndex, k))
                  && a.frameIndex == options.warmup + a.measuredFrameIndex)
            && (a.phase.FinalImage? ==> a.frameIndex == a.measuredFrameIndex == 4294967295)
            && (forall i :: 0 <= i < |artifacts| ==> artifacts[i].path != a.path)
            && forall i :: 0 <= i < |artifacts| && artifacts[i].role == a.role ==>
                 artifacts[i].(path := a.path, encoding := a.encoding, sourceFormat := a.sourceFormat, width := a.width,
                   height := a.height) != a
  {
    hide IsToken, IsTokenText, ShouldCapture, IsCapture;
    TokenTextIs(a.role);
    TokenTextIs(a.encoding);
    TokenTextIs(a.sourceFormat);
    ScheduleExactly(options, a.frameIndex);
    if ShouldCapture(options, a.frameIndex) {
      CapturedLate(options, a.frameIndex);
    }
  }

  lemma TokenTextIs(text: string)
    ensures IsToken(text) <==> IsTokenText(text)
  {
    TokensAre(text);
  }

  lemma CapturedLate(options: Options, frame: nat)
    requires ShouldCapture(options, frame)
    ensures options.warmup <= frame
  {
  }

  // The analysis takes the linear images of measured frames.
  lemma {:induction false} InputsAre(artifacts: seq<Artifact>, x: nat)
    ensures x in Inputs(artifacts) <==>
              exists i :: 0 <= i < |artifacts| && artifacts[i].phase.MeasuredFrame?
                          && artifacts[i].role == "beauty_hdr" && artifacts[i].measuredFrameIndex == x
  {
    if artifacts != [] {
      var n := |artifacts| - 1;
      InputsAre(artifacts[..n], x);
      assert forall i :: 0 <= i < n ==> artifacts[..n][i] == artifacts[i];
    }
  }

  // Artifacts differ in their paths, and in role, phase or frame.
  lemma {:induction false} RegisteredDiffer(options: Options, artifacts: seq<Artifact>, i: nat, j: nat)
    requires Consistent(options, artifacts) && i < j < |artifacts|
    ensures artifacts[i].path != artifacts[j].path
    ensures (artifacts[i].role, artifacts[i].phase, artifacts[i].frameIndex, artifacts[i].measuredFrameIndex)
         != (artifacts[j].role, artifacts[j].phase, artifacts[j].frameIndex, artifacts[j].measuredFrameIndex)
    ensures artifacts[i].phase.FinalImage? ==> artifacts[i].frameIndex == artifacts[i].measuredFrameIndex == 4294967295
    ensures artifacts[i].phase.MeasuredFrame? ==>
              artifacts[i].frameIndex == options.warmup + artifacts[i].measuredFrameIndex
  {
    assert !Clashes(artifacts[i], artifacts[j]) && OnSchedule(options, artifacts[i]);
  }
}
