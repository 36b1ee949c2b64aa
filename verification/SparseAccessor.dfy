/** Reading a glTF accessor, sparse or not (AccessorView, Source/GltfSceneImporter.cpp:398-476;
    section 3.6.2.3 of the glTF 2.0 specification). Numbers are left as their bytes. */
module SparseAccessor {
  import opened Bytes
  import opened Multiples
  import opened Options

  // A buffer view with the bytes of its buffer.
  datatype View = View(buffer: seq<Byte>, byteOffset: nat, byteStride: nat)

  datatype Base = NoView | BadView | Base(view: View)

  // None stands for a view or buffer index that names nothing.
  datatype Sparse = Sparse(count: int, indexBytes: nat, indices: Option<View>, indicesOffset: nat,
      values: Option<View>, valuesOffset: nat)

  datatype Accessor = Accessor(base: Base, byteOffset: nat, count: nat, components: nat, componentBytes: nat,
      sparse: Option<Sparse>)

  datatype Error =
    | UnsupportedShape
    | InvalidView
    | InvalidStride
    | ExceedsBuffer
    | NoData
    | InvalidSparseCount
    | InvalidIndexType
    | IndexOutOfRange
    | ReadOutside  // not an error of the code: it would read past the end of a buffer

  datatype Result = Opened(data: seq<Byte>, start: nat, stride: nat) | Failed(error: Error)

  function Size(a: Accessor): nat {
    a.components * a.componentBytes
  }

  // The stride tinygltf reports: that of the view unless it is zero, and none for one that does not
  // divide into components.
  function Stride(v: View, a: Accessor): Option<nat> {
    if v.byteStride == 0 then Some(Size(a))
    else if a.componentBytes == 0 || v.byteStride % a.componentBytes != 0 then None
    else Some(v.byteStride)
  }

  // The code's test that `count` strides fit behind an offset.
  predicate Fits(length: nat, offset: nat, count: nat, stride: nat) {
    offset <= length && stride > 0 && count <= (length - offset) / stride
  }

  lemma {:induction false} FitsMeans(length: nat, offset: nat, count: nat, stride: nat)
    requires stride > 0
    ensures Fits(length, offset, count, stride) <==> offset + count * stride <= length
  {
    if offset <= length {
      var q, r := (length - offset) / stride, (length - offset) % stride;
      assert length - offset == q * stride + r;
      if count <= q {
        Below(count, q, stride);
      } else {
        Below(q + 1, count, stride);
      }
    } else {
      Below(0, count, stride);
    }
  }

  lemma Below(a: nat, b: nat, k: nat)
    requires a <= b
    ensures a * k <= b * k
    ensures a < b ==> a * k + k <= b * k
  {
    if a < b {
      assert (a + 1) * k <= b * k;
    }
  }

  // ----- whether a base view can be read

  // Every byte of every element lies inside the buffer.
  predicate AllInside(length: nat, offset: nat, count: nat, stride: nat, size: nat) {
    forall i :: 0 <= i < count ==> offset + i * stride + size <= length
  }

  // The check keeps every read inside when elements do not overlap.
  lemma {:induction false} StrideKeepsInside(length: nat, offset: nat, count: nat, stride: nat, size: nat)
    requires Fits(length, offset, count, stride) && size <= stride
    ensures AllInside(length, offset, count, stride, size)
  {
    FitsMeans(length, offset, count, stride);
    forall i | 0 <= i < count ensures offset + i * stride + size <= length {
      Below(i, count, stride);
    }
  }

  // For any stride, the reads stay inside exactly when the last one does.
  lemma {:induction false} InsideExactly(length: nat, offset: nat, count: nat, stride: nat, size: nat)
    requires count > 0
    ensures AllInside(length, offset, count, stride, size) <==> offset + (count - 1) * stride + size <= length
  {
    if offset + (count - 1) * stride + size <= length {
      forall i | 0 <= i < count ensures offset + i * stride + size <= length {
        Below(i, count - 1, stride);
      }
    }
  }

  // ----- elements

  function Slot(data: seq<Byte>, start: nat, stride: nat, i: nat, size: nat): (s: seq<Byte>)
    requires start + i * stride + size <= |data|
    ensures |s| == size
  {
    data[start + i * stride..start + i * stride + size]
  }

  // A little-endian number.
  function Unsigned(bytes: seq<Byte>): nat {
    if bytes == [] then 0 else bytes[0] + 256 * Unsigned(bytes[1..])
  }

  // ----- the sparse part

  // What the code finds behind a sparse view, or None where it gives up.
  function ViewStart(v: Option<View>, extra: nat, required: nat, tight: nat): Option<(nat, nat)> {
    match v
    case None => None
    case Some(view) =>
      var stride := if view.byteStride > 0 then view.byteStride else tight;
      var offset := view.byteOffset + extra;
      if stride < tight || offset > |view.buffer|
          || (required > 0 && !Fits(|view.buffer|, offset, required, stride)) then None
      else Some((offset, stride))
  }

  predicate SparseReadable(s: Sparse, size: nat) {
    && s.count >= 0
    && ViewStart(s.indices, s.indicesOffset, s.count, s.indexBytes).Some?
    && ViewStart(s.values, s.valuesOffset, s.count, size).Some?
  }

  lemma {:induction false} ViewInside(v: Option<View>, extra: nat, required: nat, tight: nat, k: nat)
    requires ViewStart(v, extra, required, tight).Some? && k < required
    ensures var at := ViewStart(v, extra, required, tight).value; v.Some? && at.0 + k * at.1 + tight <= |v.value.buffer|
  {
    var at := ViewStart(v, extra, required, tight).value;
    StrideKeepsInside(|v.value.buffer|, at.0, required, at.1, tight);
  }

  // The k-th sparse index and value.
  function SparseIndex(s: Sparse, size: nat, k: nat): nat
    requires SparseReadable(s, size) && k < s.count
  {
    ViewInside(s.indices, s.indicesOffset, s.count, s.indexBytes, k);
    var at := ViewStart(s.indices, s.indicesOffset, s.count, s.indexBytes).value;
    Unsigned(Slot(s.indices.value.buffer, at.0, at.1, k, s.indexBytes))
  }

  function SparseValue(s: Sparse, size: nat, k: nat): (v: seq<Byte>)
    requires SparseReadable(s, size) && k < s.count
    ensures |v| == size
  {
    ViewInside(s.values, s.valuesOffset, s.count, size, k);
    var at := ViewStart(s.values, s.valuesOffset, s.count, size).value;
    Slot(s.values.value.buffer, at.0, at.1, k, size)
  }

  // ----- what an accessor means

  predicate BaseReadable(a: Accessor) {
    && a.base.Base? && Stride(a.base.view, a).Some?
    && AllInside(|a.base.view.buffer|, a.base.view.byteOffset + a.byteOffset, a.count, Stride(a.base.view, a).value,
        Size(a))
  }

  // Element i of the base view, zeros where there is none.
  function BaseElement(a: Accessor, i: nat): (e: seq<Byte>)
    requires (a.base.Base? ==> BaseReadable(a)) && i < a.count
    ensures |e| == Size(a)
  {
    if a.base.Base? then
      Slot(a.base.view.buffer, a.base.view.byteOffset + a.byteOffset, Stride(a.base.view, a).value, i, Size(a))
    else Zeros(Size(a))
  }

  // The last of the first n sparse values with index i replaces the base element.
  function Element(a: Accessor, i: nat, n: nat): (e: seq<Byte>)
    requires (a.base.Base? ==> BaseReadable(a)) && i < a.count
    requires n == 0 || (a.sparse.Some? && SparseReadable(a.sparse.value, Size(a)) && n <= a.sparse.value.count)
    ensures |e| == Size(a)
  {
    if n == 0 then BaseElement(a, i)
    else if SparseIndex(a.sparse.value, Size(a), n - 1) == i then SparseValue(a.sparse.value, Size(a), n - 1)
    else Element(a, i, n - 1)
  }

  // The same without the order: value k stands for element i if k is the last with that index.
  lemma {:induction false} LastValueWins(a: Accessor, i: nat, n: nat, k: nat)
    requires (a.base.Base? ==> BaseReadable(a)) && i < a.count && k < n
    requires a.sparse.Some? && SparseReadable(a.sparse.value, Size(a)) && n <= a.sparse.value.count
    requires SparseIndex(a.sparse.value, Size(a), k) == i
    requires forall l :: k < l < n ==> SparseIndex(a.sparse.value, Size(a), l) != i
    ensures Element(a, i, n) == SparseValue(a.sparse.value, Size(a), k)
  {
    hide SparseReadable, BaseReadable;
    if k < n - 1 {
      LastValueWins(a, i, n - 1, k);
    }
  }

  lemma {:induction false} UntouchedIsBase(a: Accessor, i: nat, n: nat)
    requires (a.base.Base? ==> BaseReadable(a)) && i < a.count
    requires a.sparse.Some? && SparseReadable(a.sparse.value, Size(a)) && n <= a.sparse.value.count
    requires forall l :: 0 <= l < n ==> SparseIndex(a.sparse.value, Size(a), l) != i
    ensures Element(a, i, n) == BaseElement(a, i)
  {
    hide SparseReadable, BaseReadable;
    if n > 0 {
      UntouchedIsBase(a, i, n - 1);
    }
  }

  // ----- opening an accessor

  function BaseError(a: Accessor): Option<Error> {
    match a.base
    case BadView => Some(InvalidView)
    case NoView => if a.sparse.None? then Some(NoData) else None
    case Base(view) =>
      if Stride(view, a).None? then Some(InvalidStride)
      else if !Fits(|view.buffer|, view.byteOffset + a.byteOffset, a.count, Stride(view, a).value) then
          Some(ExceedsBuffer)
      else if !AllInside(|view.buffer|, view.byteOffset + a.byteOffset, a.count, Stride(view, a).value, Size(a)) then
          Some(ReadOutside)
      else None
  }

  function SparseError(s: Sparse, count: nat, size: nat): Option<Error> {
    if s.count < 0 || s.count > count then Some(InvalidSparseCount)
    else if s.indexBytes != 1 && s.indexBytes != 2 && s.indexBytes != 4 then Some(InvalidIndexType)
    else if !SparseReadable(s, size) then Some(InvalidView)
    else if exists k :: 0 <= k < s.count && SparseIndex(s, size, k) >= count then Some(IndexOutOfRange)
    else None
  }

  // Why an accessor is refused, the first reason first.
  function Refusal(a: Accessor): Option<Error> {
    if a.components == 0 || a.componentBytes == 0 then Some(UnsupportedShape)
    else if BaseError(a).Some? then BaseError(a)
    else if a.sparse.None? then None
    else SparseError(a.sparse.value, a.count, Size(a))
  }

  // The code's checks pass, and the last element ends outside the buffer.
  predicate LastReadOutside(a: Accessor) {
    && a.components > 0 && a.componentBytes > 0 && a.base.Base? && Stride(a.base.view, a).Some? && a.count > 0
    && var length, offset := |a.base.view.buffer|, a.base.view.byteOffset + a.byteOffset;
       var stride := Stride(a.base.view, a).value;
       Fits(length, offset, a.count, stride) && offset + (a.count - 1) * stride + Size(a) > length
  }

  // That is exactly when the code accepts the base view and would read past the end of its buffer,
  // and it takes a stride below the element size.
  lemma {:induction false} ReadsOutsideExactly(a: Accessor)
    ensures Refusal(a) == Some(ReadOutside) <==> LastReadOutside(a)
    ensures LastReadOutside(a) ==> Stride(a.base.view, a).value < Size(a)
  {
    hide Fits, AllInside, SparseReadable, Stride, Size;
    if a.base.Base? && Stride(a.base.view, a).Some? {
      var length, offset := |a.base.view.buffer|, a.base.view.byteOffset + a.byteOffset;
      var stride := Stride(a.base.view, a).value;
      if a.count > 0 {
        InsideExactly(length, offset, a.count, stride, Size(a));
      } else {
        NothingInside(length, offset, stride, Size(a));
      }
      if Fits(length, offset, a.count, stride) && Size(a) <= stride {
        StrideKeepsInside(length, offset, a.count, stride, Size(a));
      }
    }
  }

  lemma NothingInside(length: nat, offset: nat, stride: nat, size: nat)
    ensures AllInside(length, offset, 0, stride, size)
  {
  }

  // One vector of three floats at a stride of four in a buffer of four bytes is such an accessor.
  lemma {:induction false} OverlapReadsOutside()
    ensures Refusal(Accessor(Base(View(Zeros(4), 0, 4)), 0, 1, 3, 4, None)) == Some(ReadOutside)
  {
    var a := Accessor(Base(View(Zeros(4), 0, 4)), 0, 1, 3, 4, None);
    assert Stride(a.base.view, a) == Some(4);
    ReadsOutsideExactly(a);
  }

  // The elements of an accessor that is not refused.
  predicate Shows(data: seq<Byte>, start: nat, stride: nat, a: Accessor, n: nat)
    requires a.base.Base? ==> BaseReadable(a)
    requires n == 0 || (a.sparse.Some? && SparseReadable(a.sparse.value, Size(a)) && n <= a.sparse.value.count)
  {
    forall i :: 0 <= i < a.count ==>
      start + i * stride + Size(a) <= |data| && Slot(data, start, stride, i, Size(a)) == Element(a, i, n)
  }

  lemma Replaced(was: seq<Byte>, now: seq<Byte>, at: nat, bytes: seq<Byte>, from: nat)
    requires at + |bytes| <= |was| && now == was[..at] + bytes + was[at + |bytes|..]
    requires from + |bytes| <= |was|
    ensures from == at ==> now[from..from + |bytes|] == bytes
    ensures from + |bytes| <= at || at + |bytes| <= from ==>
              now[from..from + |bytes|] == was[from..from + |bytes|]
  {
  }

  lemma SlotsReplaced(was: seq<Byte>, now: seq<Byte>, i: nat, count: nat, bytes: seq<Byte>, j: nat)
    requires |was| == count * |bytes| && i < count && j < count && i * |bytes| + |bytes| <= |was|
    requires now == was[..i * |bytes|] + bytes + was[i * |bytes| + |bytes|..]
    ensures && |now| == |was| && 0 + j * |bytes| + |bytes| <= |was|
            && Slot(now, 0, |bytes|, j, |bytes|) == if j == i then bytes else Slot(was, 0, |bytes|, j, |bytes|)
  {
    Below(j, count, |bytes|);
    if j < i { Below(j, i, |bytes|); } else if i < j { Below(i, j, |bytes|); }
    Replaced(was, now, i * |bytes|, bytes, j * |bytes|);
  }

  method CopyBytes(owned: array<Byte>, at: nat, bytes: seq<Byte>)
    requires at + |bytes| <= owned.Length
    modifies owned
    ensures owned[..] == old(owned[..at]) + bytes + old(owned[at + |bytes|..])
  {
    forall k | 0 <= k < |bytes| {
      owned[at + k] := bytes[k];
    }
  }

  // Copies one element into its place; the others stay.
  method CopyElement(owned: array<Byte>, i: nat, count: nat, bytes: seq<Byte>)
    requires owned.Length == count * |bytes| && i < count
    modifies owned
    ensures forall j :: 0 <= j < count ==>
              && 0 + j * |bytes| + |bytes| <= owned.Length
              && Slot(owned[..], 0, |bytes|, j, |bytes|) == if j == i then bytes
                  else Slot(old(owned[..]), 0, |bytes|, j, |bytes|)
  {
    hide Slot;
    ghost var was := owned[..];
    Below(i, count, |bytes|);
    CopyBytes(owned, i * |bytes|, bytes);
    forall j | 0 <= j < count
      ensures 0 + j * |bytes| + |bytes| <= owned.Length
            && Slot(owned[..], 0, |bytes|, j, |bytes|) == if j == i then bytes
                else Slot(was, 0, |bytes|, j, |bytes|)
    {
      SlotsReplaced(was, owned[..], i, count, bytes, j);
    }
  }

  method CopyBase(a: Accessor, owned: array<Byte>)
    requires BaseReadable(a) && owned.Length == a.count * Size(a)
    modifies owned
    ensures Shows(owned[..], 0, Size(a), a, 0)
  {
    hide BaseReadable, Slot;
    for i := 0 to a.count
      invariant forall j :: 0 <= j < i ==>
        0 + j * Size(a) + Size(a) <= owned.Length && Slot(owned[..], 0, Size(a), j, Size(a)) == BaseElement(a, j)
    {
      CopyElement(owned, i, a.count, BaseElement(a, i));
    }
  }

  method ApplySparse(a: Accessor, owned: array<Byte>) returns (ok: bool)
    requires a.base.Base? ==> BaseReadable(a)
    requires a.sparse.Some? && SparseReadable(a.sparse.value, Size(a))
    requires owned.Length == a.count * Size(a) && Shows(owned[..], 0, Size(a), a, 0)
    modifies owned
    ensures ok <==> forall k :: 0 <= k < a.sparse.value.count ==> SparseIndex(a.sparse.value, Size(a), k) < a.count
    ensures ok ==> Shows(owned[..], 0, Size(a), a, a.sparse.value.count)
  {
    hide BaseReadable, Slot, ViewStart;
    var s := a.sparse.value;
    for k := 0 to s.count
      invariant forall l :: 0 <= l < k ==> SparseIndex(s, Size(a), l) < a.count
      invariant Shows(owned[..], 0, Size(a), a, k)
    {
      var i := SparseIndex(s, Size(a), k);
      if i >= a.count {
        return false;
      }
      CopyElement(owned, i, a.count, SparseValue(s, Size(a), k));
    }
    ok := true;
  }

  // Opens an accessor: refused for the first thing wrong with it, or every element is what the
  // accessor means, with the last of several sparse values for it winning.
  method Open(a: Accessor) returns (r: Result)
    ensures Refusal(a).Some? ==> r == Failed(Refusal(a).value)
    ensures Refusal(a).None? ==>
              && r.Opened? && (a.base.Base? ==> BaseReadable(a))
              && (a.sparse.Some? ==> SparseReadable(a.sparse.value, Size(a)))
              && Shows(r.data, r.start, r.stride, a, if a.sparse.Some? then a.sparse.value.count else 0)
  {
    hide AllInside, Fits, Stride, SparseReadable, Slot;
    if a.components == 0 || a.componentBytes == 0 {
      return Failed(UnsupportedShape);
    }
    var error := BaseError(a);
    if error.Some? {
      return Failed(error.value);
    }
    if a.sparse.None? {
      BaseShows(a);
      return Opened(a.base.view.buffer, a.base.view.byteOffset + a.byteOffset, Stride(a.base.view, a).value);
    }
    r := OpenSparse(a);
  }

  lemma BaseShows(a: Accessor)
    requires BaseReadable(a)
    ensures Shows(a.base.view.buffer, a.base.view.byteOffset + a.byteOffset, Stride(a.base.view, a).value, a, 0)
  {
  }

  method OpenSparse(a: Accessor) returns (r: Result)
    requires (a.base.Base? ==> BaseReadable(a)) && a.sparse.Some?
    ensures SparseError(a.sparse.value, a.count, Size(a)).Some? ==>
          r == Failed(SparseError(a.sparse.value, a.count, Size(a)).value)
    ensures SparseError(a.sparse.value, a.count, Size(a)).None? ==>
              && r.Opened? && SparseReadable(a.sparse.value, Size(a))
              && Shows(r.data, r.start, r.stride, a, a.sparse.value.count)
  {
    hide BaseReadable, SparseReadable, Slot;
    var s := a.sparse.value;
    if s.count < 0 || s.count > a.count {
      return Failed(InvalidSparseCount);
    }
    var owned := new Byte[a.count * Size(a)](_ => 0);
    ZerosShow(owned[..], a);
    if a.base.Base? {
      CopyBase(a, owned);
    }
    if s.indexBytes != 1 && s.indexBytes != 2 && s.indexBytes != 4 {
      return Failed(InvalidIndexType);
    }
    if !SparseReadable(s, Size(a)) {
      return Failed(InvalidView);
    }
    var ok := ApplySparse(a, owned);
    r := if ok then Opened(owned[..], 0, Size(a)) else Failed(IndexOutOfRange);
  }

  lemma ZerosShow(data: seq<Byte>, a: Accessor)
    requires |data| == a.count * Size(a) && forall k :: 0 <= k < |data| ==> data[k] == 0
    ensures a.base.Base? || Shows(data, 0, Size(a), a, 0)
  {
    if !a.base.Base? {
      forall i | 0 <= i < a.count
        ensures 0 + i * Size(a) + Size(a) <= |data| && Slot(data, 0, Size(a), i, Size(a)) == Element(a, i, 0)
      {
        Below(i, a.count, Size(a));
      }
    }
  }

  // Component c of element i, or None when there is no such component.
  method At(data: seq<Byte>, start: nat, stride: nat, a: Accessor, ghost n: nat, i: nat, c: nat)
        returns (bytes: Option<seq<Byte>>)
    requires (a.base.Base? ==> BaseReadable(a))
          && (n == 0 || (a.sparse.Some? && SparseReadable(a.sparse.value, Size(a)) && n <= a.sparse.value.count))
    requires Shows(data, start, stride, a, n)
    ensures bytes.Some? <==> i < a.count && c < a.components
    ensures bytes.Some? ==>
              && c * a.componentBytes + a.componentBytes <= Size(a)
              && bytes.value == Element(a, i, n)[c * a.componentBytes..c * a.componentBytes + a.componentBytes]
  {
    hide BaseReadable, SparseReadable, Element;
    if i >= a.count || c >= a.components {
      return None;
    }
    Below(c, a.components, a.componentBytes);
    assert Slot(data, start, stride, i, Size(a)) == Element(a, i, n);
    PartOfSlot(data, start + i * stride, Size(a), c * a.componentBytes, a.componentBytes);
    var at := start + i * stride + c * a.componentBytes;
    bytes := Some(data[at..at + a.componentBytes]);
  }

  lemma PartOfSlot(data: seq<Byte>, p: nat, size: nat, q: nat, length: nat)
    requires p + size <= |data| && q + length <= size
    ensures data[p..p + size][q..q + length] == data[p + q..p + q + length]
  {
    var slot := data[p..p + size];
    var part, same := slot[q..q + length], data[p + q..p + q + length];
    forall k | 0 <= k < length ensures part[k] == same[k] {
      assert slot[q + k] == data[p + (q + k)];
    }
  }

  // ----- numbers and views by their bytes

  lemma ByteFirst(b: Byte, others: seq<Byte>)
    ensures Unsigned([b] + others) == b + 256 * Unsigned(others)
  {
    assert ([b] + others)[1..] == others;
  }

  // Indices are unsigned numbers of one, two or four bytes, the least significant first.
  lemma {:induction false} IndexBytes(b0: Byte, b1: Byte, b2: Byte, b3: Byte)
    ensures Unsigned([b0]) == b0 && Unsigned([b0, b1]) == b0 + 256 * b1
    ensures Unsigned([b0, b1, b2, b3]) == b0 + 256 * b1 + 65536 * b2 + 16777216 * b3
  {
    hide Unsigned;
    NoBytes();
    ByteFirst(b0, []);
    ByteFirst(b1, []);
    ByteFirst(b3, []);
    ByteFirst(b0, [b1]);
    ByteFirst(b2, [b3]);
    ByteFirst(b1, [b2] + [b3]);
    ByteFirst(b0, [b1] + ([b2] + [b3]));
    assert [b0] + [] == [b0] && [b1] + [] == [b1] && [b3] + [] == [b3];
    assert [b0] + [b1] == [b0, b1] && [b0] + ([b1] + ([b2] + [b3])) == [b0, b1, b2, b3];
  }

  lemma NoBytes()
    ensures Unsigned([]) == 0
  {
  }

  // Where a sparse view is read: behind both offsets, tightly unless it has a stride, which may not be
  // less; and only if all of it lies inside its buffer.
  lemma {:induction false} SparseViewIs(v: View, extra: nat, required: nat, tight: nat)
    requires required > 0 && tight > 0
    ensures var stride, offset := if v.byteStride == 0 then tight else v.byteStride, v.byteOffset + extra;
            ViewStart(Some(v), extra, required, tight) ==
              if stride >= tight && offset + required * stride <= |v.buffer| then Some((offset, stride)) else None
    ensures ViewStart(None, extra, required, tight) == None
  {
    var stride, offset := if v.byteStride == 0 then tight else v.byteStride, v.byteOffset + extra;
    FitsMeans(|v.buffer|, offset, required, stride);
  }

  // The stride of the base view: its own if it is a whole number of components, tight if it has none.
  lemma {:induction false} BaseStrideIs(v: View, a: Accessor)
    requires a.componentBytes > 0
    ensures v.byteStride == 0 ==> Stride(v, a) == Some(a.components * a.componentBytes)
    ensures v.byteStride > 0 ==>
              (Stride(v, a).Some? <==> exists k: nat :: IsMultiple(v.byteStride, k, a.componentBytes))
    ensures v.byteStride > 0 && Stride(v, a).Some? ==> Stride(v, a) == Some(v.byteStride)
  {
    var k := v.byteStride / a.componentBytes;
    assert v.byteStride == k * a.componentBytes + v.byteStride % a.componentBytes;
    assert v.byteStride % a.componentBytes == 0 ==> IsMultiple(v.byteStride, k, a.componentBytes);
    if j: nat :| IsMultiple(v.byteStride, j, a.componentBytes) {
      MultipleLeavesNothing(j, a.componentBytes);
    }
  }

  predicate IsMultiple(n: nat, k: nat, m: nat) {
    n == k * m
  }

}
