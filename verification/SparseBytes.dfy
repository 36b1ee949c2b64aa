/** An opened accessor byte by byte: where each byte of an element comes from, and which accessors are
    opened (Source/GltfSceneImporter.cpp:398-476). */
module SparseBytes {
  import opened Bytes
  import opened Options
  import opened SparseAccessor

  // The distance of elements in a view that has `tight` bytes each.
  function Distance(v: View, tight: nat): nat {
    if v.byteStride == 0 then tight else v.byteStride
  }

  // Byte k of element i behind an offset into the view.
  predicate IsByte(v: View, offset: nat, tight: nat, i: nat, k: nat, byte: Byte) {
    var at := v.byteOffset + offset + i * Distance(v, tight) + k;
    at < |v.buffer| && v.buffer[at] == byte
  }

  lemma SlotByte(data: seq<Byte>, start: nat, stride: nat, i: nat, size: nat, k: nat)
    requires start + i * stride + size <= |data| && k < size
    ensures Slot(data, start, stride, i, size)[k] == data[start + i * stride + k]
  {
  }

  lemma {:induction false} BaseByte(a: Accessor, i: nat, k: nat)
    requires a.base.Base? && BaseReadable(a) && i < a.count && k < a.components * a.componentBytes
    ensures IsByte(a.base.view, a.byteOffset, a.components * a.componentBytes, i, k, BaseElement(a, i)[k])
  {
    hide Slot;
    var v := a.base.view;
    var offset, stride := v.byteOffset + a.byteOffset, Stride(v, a).value;
    assert offset + i * stride + Size(a) <= |v.buffer|;
    SlotByte(v.buffer, offset, stride, i, Size(a), k);
  }

  // The sparse values and their indices.
  lemma {:induction false} ValueByte(s: Sparse, size: nat, j: nat, k: nat)
    requires SparseReadable(s, size) && j < s.count && k < size
    ensures s.values.Some? && IsByte(s.values.value, s.valuesOffset, size, j, k, SparseValue(s, size, j)[k])
  {
    hide Slot, Fits;
    ViewInside(s.values, s.valuesOffset, s.count, size, j);
    var at := ViewStart(s.values, s.valuesOffset, s.count, size).value;
    SlotByte(s.values.value.buffer, at.0, at.1, j, size, k);
  }

  // The number whose bytes are those of index j.
  ghost predicate IsIndex(s: Sparse, j: nat, n: nat) {
    && s.indices.Some?
    && exists bytes: seq<Byte> :: |bytes| == s.indexBytes && Unsigned(bytes) == n && AreBytes(s, j, bytes)
  }

  predicate AreBytes(s: Sparse, j: nat, bytes: seq<Byte>)
    requires s.indices.Some?
  {
    forall k :: 0 <= k < |bytes| ==> IsByte(s.indices.value, s.indicesOffset, s.indexBytes, j, k, bytes[k])
  }

  lemma {:induction false} IndexIs(s: Sparse, size: nat, j: nat)
    requires SparseReadable(s, size) && j < s.count
    ensures IsIndex(s, j, SparseIndex(s, size, j))
  {
    hide Slot, Fits, Unsigned;
    ViewInside(s.indices, s.indicesOffset, s.count, s.indexBytes, j);
    var at := ViewStart(s.indices, s.indicesOffset, s.count, s.indexBytes).value;
    var bytes := Slot(s.indices.value.buffer, at.0, at.1, j, s.indexBytes);
    forall k | 0 <= k < |bytes| ensures IsByte(s.indices.value, s.indicesOffset, s.indexBytes, j, k, bytes[k]) {
      SlotByte(s.indices.value.buffer, at.0, at.1, j, s.indexBytes, k);
    }
    assert AreBytes(s, j, bytes);
  }

  // ----- what an opened accessor shows

  // Sparse value j is the last for element i.
  predicate LastFor(s: Sparse, size: nat, i: nat, j: nat)
    requires SparseReadable(s, size)
  {
    j < s.count && SparseIndex(s, size, j) == i && forall l :: j < l < s.count ==> SparseIndex(s, size, l) != i
  }

  predicate NoneFor(s: Sparse, size: nat, i: nat)
    requires SparseReadable(s, size)
  {
    forall l :: 0 <= l < s.count ==> SparseIndex(s, size, l) != i
  }

  // Byte k of element i of what was opened is that of the last sparse value for i; without one, that
  // of the base view, or zero where there is none.
  lemma {:induction false} ShownByte(data: seq<Byte>, start: nat, stride: nat, a: Accessor, i: nat, k: nat)
    requires (a.base.Base? ==> BaseReadable(a)) && (a.sparse.Some? ==> SparseReadable(a.sparse.value, Size(a)))
    requires Shows(data, start, stride, a, if a.sparse.Some? then a.sparse.value.count else 0)
    requires i < a.count && k < a.components * a.componentBytes
    ensures var at, size := start + i * stride + k, a.components * a.componentBytes;
            && at < |data|
            && (a.sparse.Some? ==> forall j: nat :: LastFor(a.sparse.value, size, i, j) ==>
                  && a.sparse.value.values.Some?
                  && IsByte(a.sparse.value.values.value, a.sparse.value.valuesOffset, size, j, k, data[at]))
            && (a.sparse.None? || NoneFor(a.sparse.value, size, i) ==>
                  if a.base.Base? then IsByte(a.base.view, a.byteOffset, size, i, k, data[at]) else data[at] == 0)
  {
    hide BaseReadable, SparseReadable, Slot, Element, SparseIndex, IsByte;
    if a.sparse.Some? { CountIsNatural(a.sparse.value, Size(a)); }
    var n: nat := if a.sparse.Some? then a.sparse.value.count else 0;
    assert Slot(data, start, stride, i, Size(a)) == Element(a, i, n);
    SlotByte(data, start, stride, i, Size(a), k);
    if a.sparse.Some? {
      forall j: nat | LastFor(a.sparse.value, Size(a), i, j)
        ensures && a.sparse.value.values.Some?
                && IsByte(a.sparse.value.values.value, a.sparse.value.valuesOffset, Size(a), j, k,
                    data[start + i * stride + k])
      {
        LastValueWins(a, i, n, j);
        ValueByte(a.sparse.value, Size(a), j, k);
      }
    }
    if a.sparse.None? || NoneFor(a.sparse.value, Size(a), i) {
      BaseAlone(a, i, n);
      BaseOrZero(a, i, k);
    }
  }

  lemma CountIsNatural(s: Sparse, size: nat)
    requires SparseReadable(s, size)
    ensures s.count >= 0
  {
  }

  lemma BaseAlone(a: Accessor, i: nat, n: nat)
    requires (a.base.Base? ==> BaseReadable(a)) && i < a.count
    requires n == 0 || (a.sparse.Some? && SparseReadable(a.sparse.value, Size(a)) && n <= a.sparse.value.count)
    requires n == 0 || NoneFor(a.sparse.value, Size(a), i)
    ensures Element(a, i, n) == BaseElement(a, i)
  {
    hide BaseReadable, SparseReadable;
    if n > 0 {
      UntouchedIsBase(a, i, n);
    }
  }

  lemma BaseOrZero(a: Accessor, i: nat, k: nat)
    requires (a.base.Base? ==> BaseReadable(a)) && i < a.count && k < Size(a)
    ensures if a.base.Base? then IsByte(a.base.view, a.byteOffset, Size(a), i, k, BaseElement(a, i)[k])
            else BaseElement(a, i)[k] == 0
  {
    hide BaseReadable;
    if a.base.Base? {
      BaseByte(a, i, k);
    }
  }

  // ----- which accessors are opened

  // The view has room for this many elements, each with its distance.
  predicate HasRoom(v: View, offset: nat, count: nat, tight: nat) {
    v.byteOffset + offset + count * Distance(v, tight) <= |v.buffer|
  }

  ghost predicate WholeComponents(v: View, componentBytes: nat) {
    exists k: nat :: IsMultiple(v.byteStride, k, componentBytes)
  }

  ghost predicate BaseFits(a: Accessor, v: View) {
    var size := a.components * a.componentBytes;
    && WholeComponents(v, a.componentBytes) && HasRoom(v, a.byteOffset, a.count, size)
    && (a.count > 0 ==>
          v.byteOffset + a.byteOffset + (a.count - 1) * Distance(v, size) + size <= |v.buffer|)
  }

  predicate SparseFits(a: Accessor, s: Sparse) {
    var size := a.components * a.componentBytes;
    && 0 <= s.count <= a.count && (s.indexBytes == 1 || s.indexBytes == 2 || s.indexBytes == 4)
    && s.indices.Some? && s.values.Some?
    && Distance(s.indices.value, s.indexBytes) >= s.indexBytes && Distance(s.values.value, size) >= size
    && HasRoom(s.indices.value, s.indicesOffset, s.count, s.indexBytes)
    && HasRoom(s.values.value, s.valuesOffset, s.count, size)
  }

  lemma {:induction false} ViewFits(v: Option<View>, extra: nat, required: nat, tight: nat)
    requires tight > 0
    ensures ViewStart(v, extra, required, tight).Some? <==>
              v.Some? && Distance(v.value, tight) >= tight && HasRoom(v.value, extra, required, tight)
  {
    hide Fits;
    if v.Some? {
      FitsMeans(|v.value.buffer|, v.value.byteOffset + extra, required, Distance(v.value, tight));
    }
  }

  lemma {:induction false} SparseFitsExactly(a: Accessor, s: Sparse)
    requires a.components * a.componentBytes > 0
    ensures SparseError(s, a.count, a.components * a.componentBytes).None? <==>
              && SparseFits(a, s)
              && SparseReadable(s, a.components * a.componentBytes)
              && forall j :: 0 <= j < s.count ==> SparseIndex(s, a.components * a.componentBytes, j) < a.count
  {
    hide ViewStart, HasRoom, SparseIndex;
    var size := a.components * a.componentBytes;
    if s.count >= 0 && s.indexBytes > 0 {
      ViewFits(s.indices, s.indicesOffset, s.count, s.indexBytes);
      ViewFits(s.values, s.valuesOffset, s.count, size);
    }
  }

  lemma {:induction false} BaseFitsExactly(a: Accessor, v: View)
    requires a.components > 0 && a.componentBytes > 0 && a.base == Base(v)
    ensures BaseError(a).None? <==> BaseFits(a, v)
  {
    hide Fits, AllInside, Stride;
    var size := a.components * a.componentBytes;
    BaseStrideIs(v, a);
    var length, offset, distance := |v.buffer|, v.byteOffset + a.byteOffset, Distance(v, size);
    if v.byteStride == 0 { Whole(v, a.componentBytes); }
    assert size > 0 && distance > 0;
    FitsMeans(length, offset, a.count, distance);
    if a.count > 0 {
      InsideExactly(length, offset, a.count, distance, size);
    } else {
      NothingInside(length, offset, distance, size);
    }
  }

  lemma Whole(v: View, m: nat)
    requires v.byteStride == 0
    ensures WholeComponents(v, m)
  {
    assert IsMultiple(v.byteStride, 0, m);
  }

  // Exactly these are opened.
  lemma {:induction false} OpensExactly(a: Accessor)
    ensures Refusal(a).None? <==>
              && a.components > 0 && a.componentBytes > 0
              && match a.base {
                   case BadView => false
                   case NoView => a.sparse.Some?
                   case Base(v) => BaseFits(a, v)
                 }
              && (a.sparse.Some? ==>
                    && SparseFits(a, a.sparse.value)
                    && SparseReadable(a.sparse.value, a.components * a.componentBytes)
                    && forall j :: 0 <= j < a.sparse.value.count ==>
                         SparseIndex(a.sparse.value, a.components * a.componentBytes, j) < a.count)
  {
    hide SparseError, BaseFits, SparseFits, SparseIndex, SparseReadable, Fits, AllInside, Stride;
    if a.components > 0 && a.componentBytes > 0 {
      assert a.components * a.componentBytes > 0;
      if a.base.Base? {
        BaseFitsExactly(a, a.base.view);
      }
      if a.sparse.Some? {
        SparseFitsExactly(a, a.sparse.value);
      }
    }
  }
}
