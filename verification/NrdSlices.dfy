/** The two kinds of storage NrdBackend::Evaluate hands out in slices (Source/NrdBackend.cpp): one
    descriptor set per frame context and dispatch, re-used while its cached bindings still hold,
    and one run of constant slots per frame context. */
module NrdSlices {
  import opened GpuTrace
  import opened NrdRecording

  datatype View = NoView | SrvView(resource: Resource, format: nat) | UavView(resource: Resource, format: nat)

  datatype Binding = Binding(resource: Resource, format: nat, descriptorIndex: nat, isSrv: bool)

  datatype DispatchCache = DispatchCache(pipelineIndex: nat, valid: bool, bindings: seq<Binding>)

  function ViewOf(b: Binding): View {
    if b.isSrv then SrvView(b.resource, b.format) else UavView(b.resource, b.format)
  }

  // The number of resources of one kind among the first k.
  function KindCount(rs: seq<ResourceDesc>, k: nat, isSrv: bool): nat
    requires k <= |rs|
  {
    if k == 0 then 0 else KindCount(rs, k - 1, isSrv) + (if rs[k - 1].isSrv == isSrv then 1 else 0)
  }

  // The view that unconditional writing would give the j-th resource of a dispatch.
  function BindingAt(names: Names, rs: seq<ResourceDesc>, formats: Resource -> nat, j: nat): Binding
    requires j < |rs| && rs[j].ref in names
  {
    var r := names[rs[j].ref];
    Binding(r, formats(r), KindCount(rs, j, rs[j].isSrv), rs[j].isSrv)
  }

  // A descriptor set: srvCount shader-resource views followed by uavCount unordered-access views.
  datatype SetShape = SetShape(setBase: nat, srvCount: nat, uavCount: nat)

  function Offset(b: Binding, shape: SetShape): nat {
    if b.isSrv then b.descriptorIndex else shape.srvCount + b.descriptorIndex
  }

  predicate InSet(b: Binding, shape: SetShape) {
    b.descriptorIndex < if b.isSrv then shape.srvCount else shape.uavCount
  }

  // The resource loop gets through k resources: each is there and the set has room for all of them.
  predicate Bindable(names: Names, rs: seq<ResourceDesc>, k: nat, shape: SetShape)
    requires k <= |rs|
  {
    && (forall j :: 0 <= j < k ==> rs[j].ref in names && names[rs[j].ref] != NULL)
    && KindCount(rs, k, true) <= shape.srvCount
    && KindCount(rs, k, false) <= shape.uavCount
  }

  lemma {:induction false} KindCountGrows(rs: seq<ResourceDesc>, j: nat, k: nat, isSrv: bool)
    requires j <= k <= |rs|
    ensures KindCount(rs, j, isSrv) <= KindCount(rs, k, isSrv)
    ensures j < k && rs[j].isSrv == isSrv ==> KindCount(rs, j, isSrv) < KindCount(rs, k, isSrv)
    decreases k
  {
    if j < k {
      KindCountGrows(rs, j, k - 1, isSrv);
    }
  }

  // Different resources of a dispatch never share a descriptor.
  lemma {:induction false} OffsetsDiffer(names: Names, rs: seq<ResourceDesc>, formats: Resource -> nat, j: nat, k: nat,
        shape: SetShape)
    requires j < k < |rs| && rs[j].ref in names && rs[k].ref in names
    requires InSet(BindingAt(names, rs, formats, j), shape) && InSet(BindingAt(names, rs, formats, k), shape)
    ensures Offset(BindingAt(names, rs, formats, j), shape) != Offset(BindingAt(names, rs, formats, k), shape)
  {
    KindCountGrows(rs, j, k, rs[j].isSrv);
  }

  predicate Fits(h: seq<View>, shape: SetShape) {
    shape.setBase + shape.srvCount + shape.uavCount <= |h|
  }

  // The heap holds this view in its place in the set.
  predicate HoldsView(h: seq<View>, shape: SetShape, b: Binding) {
    && InSet(b, shape)
    && Fits(h, shape)
    && h[shape.setBase + Offset(b, shape)] == ViewOf(b)
  }

  // Where the cache claims a view, the heap holds it.
  predicate SetAgrees(h: seq<View>, shape: SetShape, cache: DispatchCache) {
    cache.valid ==> forall j :: 0 <= j < |cache.bindings| ==> HoldsView(h, shape, cache.bindings[j])
  }

  // Every descriptor the dispatch needs is in place, exactly as unconditional writing would leave it.
  predicate FullyWritten(h: seq<View>, shape: SetShape, names: Names, rs: seq<ResourceDesc>, formats: Resource -> nat)
    requires Resolved(names, rs)
  {
    forall j :: 0 <= j < |rs| ==> HoldsView(h, shape, BindingAt(names, rs, formats, j))
  }

  // The descriptors of the first k resources are in place, and those the cache still records
  // correctly for the others have not been overwritten meanwhile.
  predicate SetInProgress(h: seq<View>, shape: SetShape, names: Names, rs: seq<ResourceDesc>, formats: Resource -> nat,
                          k: nat, bindings: seq<Binding>, layoutMatches: bool)
  {
    && k <= |rs| == |bindings|
    && (forall j :: 0 <= j < k ==>
          rs[j].ref in names && bindings[j] == BindingAt(names, rs, formats, j) && HoldsView(h, shape, bindings[j]))
    && (layoutMatches ==> forall j :: k <= j < |rs| ==>
          rs[j].ref in names && bindings[j] == BindingAt(names, rs, formats, j) ==> HoldsView(h, shape, bindings[j]))
  }

  lemma {:induction false} ViewWritten(h: seq<View>, shape: SetShape, b: Binding)
    requires InSet(b, shape) && Fits(h, shape)
    ensures shape.setBase + Offset(b, shape) < |h|
    ensures HoldsView(h[shape.setBase + Offset(b, shape) := ViewOf(b)], shape, b)
  {
  }

  lemma {:induction false} OtherViewKept(h: seq<View>, shape: SetShape, b: Binding, other: Binding)
    requires InSet(b, shape) && Fits(h, shape) && HoldsView(h, shape, other)
    requires Offset(other, shape) != Offset(b, shape)
    ensures shape.setBase + Offset(b, shape) < |h| && InSet(other, shape)
    ensures HoldsView(h[shape.setBase + Offset(b, shape) := ViewOf(b)], shape, other)
  {
  }

  lemma {:induction false} HeldIsInSet(h: seq<View>, shape: SetShape, b: Binding)
    requires HoldsView(h, shape, b)
    ensures InSet(b, shape)
  {
  }

  // Writing the k-th descriptor spoils neither those before it nor those still to come.
  lemma {:induction false} DescriptorStep(h: seq<View>, shape: SetShape, names: Names, rs: seq<ResourceDesc>,
        formats: Resource -> nat,
                                          k: nat, bindings: seq<Binding>, layoutMatches: bool, b: Binding)
    requires SetInProgress(h, shape, names, rs, formats, k, bindings, layoutMatches)
    requires k < |rs| && rs[k].ref in names && b == BindingAt(names, rs, formats, k)
    requires InSet(b, shape) && Fits(h, shape)
    ensures SetInProgress(h[shape.setBase + Offset(b, shape) := ViewOf(b)], shape, names, rs, formats,
                          k + 1, bindings[k := b], layoutMatches)
  {
    hide HoldsView, BindingAt, Offset, InSet, ViewOf, Fits;
    ViewWritten(h, shape, b);
    var h' := h[shape.setBase + Offset(b, shape) := ViewOf(b)];
    forall j | 0 <= j < |rs| && j != k && rs[j].ref in names && bindings[j] == BindingAt(names, rs, formats, j)
        && HoldsView(h, shape, bindings[j])
      ensures HoldsView(h', shape, bindings[j])
    {
      HeldIsInSet(h, shape, bindings[j]);
      if j < k {
        OffsetsDiffer(names, rs, formats, j, k, shape);
      } else {
        OffsetsDiffer(names, rs, formats, k, j, shape);
      }
      OtherViewKept(h, shape, b, bindings[j]);
    }
  }

  // A descriptor the cache already records correctly needs no writing.
  lemma {:induction false} DescriptorKept(h: seq<View>, shape: SetShape, names: Names, rs: seq<ResourceDesc>,
        formats: Resource -> nat,
                                          k: nat, bindings: seq<Binding>)
    requires SetInProgress(h, shape, names, rs, formats, k, bindings, true)
    requires k < |rs| && rs[k].ref in names && bindings[k] == BindingAt(names, rs, formats, k)
    ensures SetInProgress(h, shape, names, rs, formats, k + 1, bindings, true)
  {
  }

  predicate OnlyChangedWithin(h: seq<View>, h': seq<View>, shape: SetShape) {
    |h| == |h'| &&
    forall i :: 0 <= i < |h| && !(shape.setBase <= i < shape.setBase + shape.srvCount + shape.uavCount) ==>
        h'[i] == h[i]
  }

  // What the resource loop carries along besides the texture states.
  datatype Walk = Walk(srvIndex: nat, uavIndex: nat, transitions: seq<Barrier>, written: seq<Resource>)

  ghost predicate Walked(names: Names, s: States, rs: seq<ResourceDesc>, k: nat, now: States, w: Walk,
        shape: SetShape) {
    && k <= |rs| && Bindable(names, rs, k, shape) && names.Keys <= s.Keys
    && w.srvIndex == KindCount(rs, k, true) && w.uavIndex == KindCount(rs, k, false)
    && now == Moved(s, rs, k)
    && w.transitions == Transitions(names, s, rs, k)
    && w.written == WrittenOnce(names, rs, k)
  }

  function WalkOn(w: Walk, d: ResourceDesc, r: Resource, barriers: seq<Barrier>): Walk {
    if d.isSrv then Walk(w.srvIndex + 1, w.uavIndex, w.transitions + barriers, w.written)
    else Walk(w.srvIndex, w.uavIndex + 1, w.transitions + barriers,
              if r in w.written then w.written else w.written + [r])
  }

  predicate CanWalkOn(names: Names, rs: seq<ResourceDesc>, k: nat, w: Walk, shape: SetShape)
    requires k < |rs|
  {
    && rs[k].ref in names && names[rs[k].ref] != NULL
    && (if rs[k].isSrv then w.srvIndex < shape.srvCount else w.uavIndex < shape.uavCount)
  }

  lemma {:induction false} WalkStep(names: Names, s: States, rs: seq<ResourceDesc>, k: nat, now: States, w: Walk,
        shape: SetShape)
    requires k < |rs| && Walked(names, s, rs, k, now, w, shape)
    ensures CanWalkOn(names, rs, k, w, shape) <==> Bindable(names, rs, k + 1, shape)
    ensures CanWalkOn(names, rs, k, w, shape) ==> rs[k].ref in now
    ensures CanWalkOn(names, rs, k, w, shape) ==>
              Walked(names, s, rs, k + 1, now[rs[k].ref := Desired(rs[k])],
                     WalkOn(w, rs[k], names[rs[k].ref], Transition1(names, now, rs[k])), shape)
  {
  }

  lemma {:induction false} BindableNeedsPrefix(names: Names, rs: seq<ResourceDesc>, k: nat, shape: SetShape)
    requires k <= |rs|
    ensures Bindable(names, rs, |rs|, shape) ==> Bindable(names, rs, k, shape)
  {
    KindCountGrows(rs, k, |rs|, true);
    KindCountGrows(rs, k, |rs|, false);
  }

  // ----- the constant slice

  function WriteAt(mem: seq<nat>, at: nat, data: seq<nat>): (mem': seq<nat>)
    requires at + |data| <= |mem|
    ensures |mem'| == |mem|
  {
    mem[..at] + data + mem[at + |data|..]
  }

  function SlotStart(begin: nat, stride: nat, slot: nat): nat {
    begin + slot * stride
  }

  lemma {:induction false} NextSlot(begin: nat, stride: nat, slot: nat)
    ensures SlotStart(begin, stride, slot + 1) == SlotStart(begin, stride, slot) + stride
  {
    assert (slot + 1) * stride == slot * stride + stride;
  }

  lemma {:induction false} SlotsOrdered(begin: nat, stride: nat, a: nat, b: nat)
    requires a < b
    ensures SlotStart(begin, stride, a) + stride <= SlotStart(begin, stride, b)
  {
    assert (a + 1) * stride <= b * stride;
  }

  // The block in slot n is what dispatch j has to see.
  predicate HoldsConstants(mem: seq<nat>, begin: nat, stride: nat, slot: nat, data: seq<nat>) {
    SlotStart(begin, stride, slot) + stride <= |mem| &&
    mem[SlotStart(begin, stride, slot)..SlotStart(begin, stride, slot) + stride] == data
  }

  // Each of the first i dispatches finds its constants in the slot its address points to.
  predicate ConstantsPlaced(mem: seq<nat>, begin: nat, stride: nat, ds: seq<DispatchDesc>, i: nat)
    requires i <= |ds|
  {
    forall j :: 0 <= j < i ==>
        HoldsConstants(mem, begin, stride, SlotsUsed(ds, j + 1) - 1, EffectiveConstants(ds, j, stride))
  }

  lemma {:induction false} SlotsUsedGrows(ds: seq<DispatchDesc>, j: nat, k: nat)
    requires j <= k <= |ds|
    ensures SlotsUsed(ds, j) <= SlotsUsed(ds, k)
    decreases k
  {
    if j < k {
      SlotsUsedGrows(ds, j, k - 1);
    }
  }

  predicate TakesSlot(ds: seq<DispatchDesc>, i: nat)
    requires i < |ds|
  {
    i == 0 || Uploads(ds[i])
  }

  lemma {:induction false} EarlierConstantsKept(mem: seq<nat>, begin: nat, stride: nat, slot: nat, data: seq<nat>,
        next: nat, new_: seq<nat>)
    requires HoldsConstants(mem, begin, stride, slot, data) && slot < next
    requires |new_| == stride && SlotStart(begin, stride, next) + stride <= |mem|
    ensures HoldsConstants(WriteAt(mem, SlotStart(begin, stride, next), new_), begin, stride, slot, data)
  {
    hide SlotStart;
    SlotsOrdered(begin, stride, slot, next);
    var a, at := SlotStart(begin, stride, slot), SlotStart(begin, stride, next);
    var mem' := WriteAt(mem, at, new_);
    assert mem'[a..a + stride] == mem[a..a + stride];
  }

  // A dispatch that takes a slot fills the next one and leaves the earlier ones alone.
  lemma {:induction false} SlotTaken(mem: seq<nat>, begin: nat, stride: nat, ds: seq<DispatchDesc>, i: nat)
    requires i < |ds| && TakesSlot(ds, i) && ConstantsPlaced(mem, begin, stride, ds, i)
    requires SlotStart(begin, stride, SlotsUsed(ds, i)) + stride <= |mem|
    ensures SlotsUsed(ds, i + 1) == SlotsUsed(ds, i) + 1
    ensures var data := Padded(if Uploads(ds[i]) then ds[i].constants else [], stride);
            ConstantsPlaced(WriteAt(mem, SlotStart(begin, stride, SlotsUsed(ds, i)), data), begin, stride, ds, i + 1)
  {
    hide SlotStart, Padded, WriteAt, HoldsConstants;
    var at := SlotStart(begin, stride, SlotsUsed(ds, i));
    var data := Padded(if Uploads(ds[i]) then ds[i].constants else [], stride);
    var mem' := WriteAt(mem, at, data);
    forall j | 0 <= j < i + 1
      ensures HoldsConstants(mem', begin, stride, SlotsUsed(ds, j + 1) - 1, EffectiveConstants(ds, j, stride))
    {
      if j < i {
        SlotsUsedGrows(ds, j + 1, i);
        EarlierConstantsKept(mem, begin, stride, SlotsUsed(ds, j + 1) - 1, EffectiveConstants(ds, j, stride),
            SlotsUsed(ds, i), data);
      } else {
        NewConstantsHeld(mem, begin, stride, SlotsUsed(ds, i), data);
      }
    }
  }

  lemma {:induction false} NewConstantsHeld(mem: seq<nat>, begin: nat, stride: nat, slot: nat, data: seq<nat>)
    requires |data| == stride && SlotStart(begin, stride, slot) + stride <= |mem|
    ensures HoldsConstants(WriteAt(mem, SlotStart(begin, stride, slot), data), begin, stride, slot, data)
  {
  }

  // A dispatch that takes none sees the constants of the one before it.
  lemma {:induction false} SlotShared(mem: seq<nat>, begin: nat, stride: nat, ds: seq<DispatchDesc>, i: nat)
    requires i < |ds| && !TakesSlot(ds, i) && ConstantsPlaced(mem, begin, stride, ds, i)
    ensures SlotsUsed(ds, i + 1) == SlotsUsed(ds, i)
    ensures ConstantsPlaced(mem, begin, stride, ds, i + 1)
  {
    hide HoldsConstants;
    assert HoldsConstants(mem, begin, stride, SlotsUsed(ds, i) - 1, EffectiveConstants(ds, i - 1, stride));
  }

  // ----- the descriptor sets

  // The sets of frame f follow those of frame f - 1.
  function TableBase(f: nat, d: nat, setCount: nat, setStride: nat): nat {
    f * setCount * setStride + d * setStride
  }

  lemma {:induction false} TableBaseIsRow(f: nat, d: nat, setCount: nat, setStride: nat)
    ensures TableBase(f, d, setCount, setStride) == (f * setCount + d) * setStride
  {
  }

  // No two sets overlap, within a frame or across frames, and all of them are in the heap.
  lemma {:induction false} SetsAreDisjoint(f: nat, d: nat, f': nat, d': nat, setCount: nat, setStride: nat)
    requires d < setCount && d' < setCount && (f, d) != (f', d')
    ensures TableBase(f, d, setCount, setStride) + setStride <= TableBase(f', d', setCount, setStride) ||
            TableBase(f', d', setCount, setStride) + setStride <= TableBase(f, d, setCount, setStride)
  {
    TableBaseIsRow(f, d, setCount, setStride);
    TableBaseIsRow(f', d', setCount, setStride);
    var a, b := f * setCount + d, f' * setCount + d';
    RowsDiffer(f, d, f', d', setCount);
    if a < b {
      SlotsOrdered(0, setStride, a, b);
    } else {
      SlotsOrdered(0, setStride, b, a);
    }
  }

  lemma {:induction false} RowsDiffer(f: nat, d: nat, f': nat, d': nat, setCount: nat)
    requires d < setCount && d' < setCount && (f, d) != (f', d')
    ensures f * setCount + d != f' * setCount + d'
  {
    if f < f' {
      SlotsOrdered(0, setCount, f, f');
    } else if f' < f {
      SlotsOrdered(0, setCount, f', f);
    }
  }

  lemma {:induction false} SetInHeap(f: nat, d: nat, frames: nat, setCount: nat, setStride: nat)
    requires f < frames && d < setCount
    ensures TableBase(f, d, setCount, setStride) + setStride <= TableBase(frames, 0, setCount, setStride)
  {
    TableBaseIsRow(f, d, setCount, setStride);
    SlotsOrdered(0, setCount, f, frames);
    SlotsOrdered(0, setStride, f * setCount + d, frames * setCount);
  }

  datatype Sizes = Sizes(frames: nat, setCount: nat, srvCount: nat, uavCount: nat)

  function SetOf(sizes: Sizes, f: nat, d: nat): SetShape {
    SetShape(TableBase(f, d, sizes.setCount, sizes.srvCount + sizes.uavCount), sizes.srvCount, sizes.uavCount)
  }

  // Every binding any cache claims is in the heap.
  predicate CachesAgree(h: seq<View>, caches: seq<seq<DispatchCache>>, sizes: Sizes) {
    forall f, d :: 0 <= f < |caches| && 0 <= d < |caches[f]| && caches[f][d].valid ==>
      d < sizes.setCount && SetAgrees(h, SetOf(sizes, f, d), caches[f][d])
  }

  lemma {:induction false} ViewUntouched(h: seq<View>, h': seq<View>, changed: SetShape, other: SetShape, b: Binding)
    requires OnlyChangedWithin(h, h', changed) && HoldsView(h, other, b)
    requires other.setBase + other.srvCount + other.uavCount <= changed.setBase ||
             changed.setBase + changed.srvCount + changed.uavCount <= other.setBase
    ensures HoldsView(h', other, b)
  {
  }

  // Binding one dispatch leaves every other cache entry true.
  lemma {:induction false} CachesStillAgree(h: seq<View>, h': seq<View>, caches: seq<seq<DispatchCache>>, sizes: Sizes,
                                            f: nat, d: nat, cache: DispatchCache)
    requires CachesAgree(h, caches, sizes) && f < |caches| && d < |caches[f]| && d < sizes.setCount
    requires OnlyChangedWithin(h, h', SetOf(sizes, f, d)) && SetAgrees(h', SetOf(sizes, f, d), cache)
    ensures CachesAgree(h', caches[f := caches[f][d := cache]], sizes)
  {
    hide HoldsView, OnlyChangedWithin, TableBase;
    var caches': seq<seq<DispatchCache>> := caches[f := caches[f][d := cache]];
    forall f': nat, d': nat | f' < |caches'| && d' < |caches'[f']| && caches'[f'][d'].valid
      ensures d' < sizes.setCount && SetAgrees(h', SetOf(sizes, f', d'), caches'[f'][d'])
    {
      if (f', d') != (f, d) {
        assert caches'[f'][d'] == caches[f'][d'];
        SetsAreDisjoint(f, d, f', d', sizes.setCount, sizes.srvCount + sizes.uavCount);
        forall j | 0 <= j < |caches[f'][d'].bindings|
          ensures HoldsView(h', SetOf(sizes, f', d'), caches[f'][d'].bindings[j])
        {
          ViewUntouched(h, h', SetOf(sizes, f, d), SetOf(sizes, f', d'), caches[f'][d'].bindings[j]);
        }
      }
    }
  }

  // A dispatch already recorded keeps its descriptors while later ones are bound.
  lemma {:induction false} SetStaysWritten(h: seq<View>, h': seq<View>, sizes: Sizes, f: nat, j: nat, d: nat,
                                           names: Names, rs: seq<ResourceDesc>, formats: Resource -> nat)
    requires j < d < sizes.setCount && Resolved(names, rs)
    requires OnlyChangedWithin(h, h', SetOf(sizes, f, d)) && FullyWritten(h, SetOf(sizes, f, j), names, rs, formats)
    ensures FullyWritten(h', SetOf(sizes, f, j), names, rs, formats)
  {
    hide HoldsView, OnlyChangedWithin, TableBase, BindingAt;
    SetsAreDisjoint(f, d, f, j, sizes.setCount, sizes.srvCount + sizes.uavCount);
    forall k | 0 <= k < |rs|
      ensures HoldsView(h', SetOf(sizes, f, j), BindingAt(names, rs, formats, k))
    {
      ViewUntouched(h, h', SetOf(sizes, f, d), SetOf(sizes, f, j), BindingAt(names, rs, formats, k));
    }
  }

  // The constants of the first i dispatches are placed, the cursor is at the next slot, and the
  // last address points to the last slot taken.
  predicate ConstantState(mem: seq<nat>, cursor: nat, lastAddress: nat, begin: nat, gpuBase: nat, stride: nat,
        ds: seq<DispatchDesc>, i: nat)
    requires i <= |ds|
  {
    && cursor == SlotStart(begin, stride, SlotsUsed(ds, i))
    && lastAddress == (if i == 0 then 0 else gpuBase + SlotStart(begin, stride, SlotsUsed(ds, i) - 1))
    && ConstantsPlaced(mem, begin, stride, ds, i)
  }

  lemma {:induction false} ConstantStep(mem: seq<nat>, cursor: nat, lastAddress: nat, begin: nat, gpuBase: nat,
        stride: nat, ds: seq<DispatchDesc>, i: nat)
    requires i < |ds| && ConstantState(mem, cursor, lastAddress, begin, gpuBase, stride, ds, i)
    ensures TakesSlot(ds, i) && cursor + stride <= |mem| ==>
              ConstantState(WriteAt(mem, cursor, Padded(if Uploads(ds[i]) then ds[i].constants else [], stride)),
                            cursor + stride, gpuBase + cursor, begin, gpuBase, stride, ds, i + 1)
    ensures !TakesSlot(ds, i) ==> ConstantState(mem, cursor, lastAddress, begin, gpuBase, stride, ds, i + 1)
  {
    hide ConstantsPlaced, Padded, WriteAt, SlotStart, SlotsUsed;
    if TakesSlot(ds, i) {
      if cursor + stride <= |mem| {
        SlotTaken(mem, begin, stride, ds, i);
        NextSlot(begin, stride, SlotsUsed(ds, i));
      }
    } else {
      SlotShared(mem, begin, stride, ds, i);
    }
  }

  // No address yet means no dispatch yet, so the zero-fill without a bounds check can only write
  // at the start of the slice.
  lemma {:induction false} ZeroFillIsAtStart(mem: seq<nat>, cursor: nat, lastAddress: nat, begin: nat, gpuBase: nat,
        stride: nat, ds: seq<DispatchDesc>, i: nat)
    requires i <= |ds| && ConstantState(mem, cursor, lastAddress, begin, gpuBase, stride, ds, i) && gpuBase > 0
    ensures lastAddress == 0 <==> i == 0
    ensures lastAddress == 0 ==> cursor == begin
  {
    hide ConstantsPlaced;
    assert SlotStart(begin, stride, 0) == begin;
  }

  // A dispatch index within the set count still has room for its slot in the frame's slice, and
  // the slice is in the buffer.
  lemma {:induction false} SlotFitsSlice(frames: nat, frame: nat, stride: nat, frameStride: nat, setCount: nat,
        ds: seq<DispatchDesc>, i: nat)
    requires i <= |ds| && i < setCount && SlotStart(0, stride, setCount) <= frameStride && frame < frames
    ensures SlotStart(SlotStart(0, frameStride, frame), stride, SlotsUsed(ds, i)) + stride
          <= SlotStart(0, frameStride, frame) + frameStride
    ensures SlotStart(0, frameStride, frame) + frameStride <= SlotStart(0, frameStride, frames)
    ensures SlotStart(0, frameStride, frame) <= SlotStart(SlotStart(0, frameStride, frame), stride, SlotsUsed(ds, i))
  {
    SlotsOrdered(0, stride, SlotsUsed(ds, i), setCount);
    SlotsOrdered(0, frameStride, frame, frames);
  }

  lemma {:induction false} StartWalk(names: Names, s: States, rs: seq<ResourceDesc>, shape: SetShape)
    requires names.Keys <= s.Keys
    ensures Walked(names, s, rs, 0, s, Walk(0, 0, [], []), shape)
  {
  }

  // What a dispatch needs for the bridge to record it.
  predicate Recordable(names: Names, pipelines: seq<bool>, d: DispatchDesc, setCount: nat, i: nat, shape: SetShape) {
    && d.pipelineIndex < |pipelines| && pipelines[d.pipelineIndex]
    && i < setCount
    && Bindable(names, d.resources, |d.resources|, shape)
  }

  lemma {:induction false} CachedSetAgrees(h: seq<View>, caches: seq<seq<DispatchCache>>, sizes: Sizes, f: nat, d: nat)
    requires CachesAgree(h, caches, sizes) && f < |caches| && d < |caches[f]|
    ensures SetAgrees(h, SetOf(sizes, f, d), caches[f][d])
  {
  }

  lemma {:induction false} AddressOfSlot(layout: Layout, gpuBase: nat, begin: nat, ds: seq<DispatchDesc>, i: nat)
    requires i < |ds| && layout.constants == gpuBase + begin
    ensures ConstantsAddress(layout, ds, i)
          == gpuBase + SlotStart(begin, layout.constantStride, SlotsUsed(ds, i + 1) - 1)
  {
  }

  lemma {:induction false} BaseOfSet(layout: Layout, sizes: Sizes, f: nat, i: nat)
    ensures var stride := sizes.srvCount + sizes.uavCount;
            layout.tables == TableBase(f, 0, sizes.setCount, stride) && layout.setStride == stride ==>
              SetBase(layout, i) == SetOf(sizes, f, i).setBase
  {
  }

  predicate AllRecordable(names: Names, pipelines: seq<bool>, ds: seq<DispatchDesc>, k: nat, sizes: Sizes, f: nat)
    requires k <= |ds|
  {
    forall i :: 0 <= i < k ==> Recordable(names, pipelines, ds[i], sizes.setCount, i, SetOf(sizes, f, i))
  }

  // Dispatch i is the first that cannot be recorded, and the commands added are those of the
  // dispatches before it.
  predicate StoppedAt(names: Names, pipelines: seq<bool>, s: States, ds: seq<DispatchDesc>, i: nat, sizes: Sizes,
        f: nat, layout: Layout, before: seq<Command>, after: seq<Command>)
  {
    && i < |ds| && names.Keys <= s.Keys && (forall j :: 0 <= j < i ==> Resolved(names, ds[j].resources))
    && AllRecordable(names, pipelines, ds, i, sizes, f)
    && !Recordable(names, pipelines, ds[i], sizes.setCount, i, SetOf(sizes, f, i))
    && after == before + Trace(names, s, ds, i, layout, true)
  }

  // The commands left behind by an evaluation that fails at a dispatch.
  ghost predicate PartlyRecorded(names: Names, pipelines: seq<bool>, s: States, ds: seq<DispatchDesc>, sizes: Sizes,
        f: nat, layout: Layout, before: seq<Command>, after: seq<Command>)
  {
    exists i :: StoppedAt(names, pipelines, s, ds, i, sizes, f, layout, before, after)
  }

  // The sets of the first k dispatches hold exactly what unconditional writing would put there.
  predicate AllWritten(h: seq<View>, sizes: Sizes, f: nat, names: Names, ds: seq<DispatchDesc>, k: nat,
        formats: Resource -> nat)
    requires k <= |ds|
  {
    forall i :: 0 <= i < k ==>
      Resolved(names, ds[i].resources) && FullyWritten(h, SetOf(sizes, f, i), names, ds[i].resources, formats)
  }

  lemma {:induction false} AllWrittenStep(h: seq<View>, h': seq<View>, sizes: Sizes, f: nat,
        names: Names, ds: seq<DispatchDesc>, k: nat, formats: Resource -> nat)
    requires k < |ds| && k < sizes.setCount && AllWritten(h, sizes, f, names, ds, k, formats)
    requires OnlyChangedWithin(h, h', SetOf(sizes, f, k))
    requires Resolved(names, ds[k].resources) && FullyWritten(h', SetOf(sizes, f, k), names, ds[k].resources, formats)
    ensures AllWritten(h', sizes, f, names, ds, k + 1, formats)
  {
    hide OnlyChangedWithin, FullyWritten, TableBase, ResolvedUpTo;
    forall i | 0 <= i < k
      ensures FullyWritten(h', SetOf(sizes, f, i), names, ds[i].resources, formats)
    {
      SetStaysWritten(h, h', sizes, f, i, k, names, ds[i].resources, formats);
    }
  }

  lemma {:induction false} ConstantStateMeans(mem: seq<nat>, cursor: nat, lastAddress: nat, begin: nat,
        gpuBase: nat, stride: nat, ds: seq<DispatchDesc>, i: nat)
    requires i <= |ds| && ConstantState(mem, cursor, lastAddress, begin, gpuBase, stride, ds, i)
    ensures ConstantsPlaced(mem, begin, stride, ds, i) && cursor == SlotStart(begin, stride, SlotsUsed(ds, i))
    ensures i > 0 ==> lastAddress == gpuBase + SlotStart(begin, stride, SlotsUsed(ds, i) - 1)
  {
    hide ConstantsPlaced, SlotStart, SlotsUsed;
  }

  // Nothing outside the slice that starts at `begin` changed.
  predicate SliceOnly(mem: seq<nat>, mem': seq<nat>, begin: nat, size: nat) {
    |mem| == |mem'| && forall a :: 0 <= a < |mem| && !(begin <= a < begin + size) ==> mem'[a] == mem[a]
  }

  lemma {:induction false} SliceOnlyTwice(mem: seq<nat>, mem': seq<nat>, mem'': seq<nat>, begin: nat, size: nat)
    requires SliceOnly(mem, mem', begin, size) && SliceOnly(mem', mem'', begin, size)
    ensures SliceOnly(mem, mem'', begin, size)
  {
  }

  lemma {:induction false} RecordableSnoc(names: Names, pipelines: seq<bool>, ds: seq<DispatchDesc>, k: nat,
        sizes: Sizes, f: nat)
    requires k < |ds| && AllRecordable(names, pipelines, ds, k, sizes, f)
    ensures Recordable(names, pipelines, ds[k], sizes.setCount, k, SetOf(sizes, f, k)) ==>
              AllRecordable(names, pipelines, ds, k + 1, sizes, f)
    ensures !Recordable(names, pipelines, ds[k], sizes.setCount, k, SetOf(sizes, f, k)) ==>
              !AllRecordable(names, pipelines, ds, |ds|, sizes, f)
  {
    hide Recordable, SetOf;
  }

  // Before the first dispatch.
  lemma NothingRecorded(mem: seq<nat>, begin: nat, frameStride: nat, gpuBase: nat, stride: nat, h: seq<View>,
        names: Names, pipelines: seq<bool>, ds: seq<DispatchDesc>, sizes: Sizes, f: nat, formats: Resource -> nat)
    ensures ConstantState(mem, begin, 0, begin, gpuBase, stride, ds, 0) && SliceOnly(mem, mem, begin, frameStride)
    ensures AllRecordable(names, pipelines, ds, 0, sizes, f) && AllWritten(h, sizes, f, names, ds, 0, formats)
  {
  }

  lemma {:induction false} EmptyCachesAgree(h: seq<View>, caches: seq<seq<DispatchCache>>, sizes: Sizes)
    requires forall f :: 0 <= f < |caches| ==> caches[f] == []
    ensures CachesAgree(h, caches, sizes)
  {
    hide SetAgrees, SetOf;
  }
}
