/** Where an instance ends up: the transform of an instance takes a point where the transforms along
    its path take it one after the other (Source/PbrtSceneImporter.cpp:1806-1834). */
module PbrtPlacement {
  import opened Options
  import opened PbrtInstancing

  // ----- the algebra of transforms

  function Plus(u: Row, v: Row): Row {
    Row(u.x + v.x, u.y + v.y, u.z + v.z, u.w + v.w)
  }

  function Scale(k: real, v: Row): Row {
    Row(k * v.x, k * v.y, k * v.z, k * v.w)
  }

  // The rows weighted by the coordinates of v.
  function Combine(v: Row, x: Row, y: Row, z: Row, w: Row): Row {
    Plus(Plus(Plus(Scale(v.x, x), Scale(v.y, y)), Scale(v.z, z)), Scale(v.w, w))
  }

  // One coordinate of a transformed row.
  function Along(v: Row, a: real, b: real, c: real, d: real): real {
    v.x * a + v.y * b + v.z * c + v.w * d
  }

  lemma {:induction false} Columns(v: Row, m: Matrix)
    ensures Apply(v, m) ==
              Row(Along(v, m.x.x, m.y.x, m.z.x, m.w.x), Along(v, m.x.y, m.y.y, m.z.y, m.w.y),
                  Along(v, m.x.z, m.y.z, m.z.z, m.w.z), Along(v, m.x.w, m.y.w, m.z.w, m.w.w))
  {
  }

  lemma {:induction false} AlongIsLinear(u: Row, v: Row, a: real, b: real, c: real, d: real, k: real)
    ensures Along(Plus(u, v), a, b, c, d) == Along(u, a, b, c, d) + Along(v, a, b, c, d)
    ensures Along(Scale(k, v), a, b, c, d) == k * Along(v, a, b, c, d)
  {
    assert k * v.x * a == k * (v.x * a) && k * v.y * b == k * (v.y * b);
    assert k * v.z * c == k * (v.z * c) && k * v.w * d == k * (v.w * d);
  }

  // A transform is linear, and takes the four unit rows to its rows; that determines it.
  lemma {:induction false} ApplyIsLinear(u: Row, v: Row, k: real, m: Matrix)
    ensures Apply(Plus(u, v), m) == Plus(Apply(u, m), Apply(v, m))
    ensures Apply(Scale(k, v), m) == Scale(k, Apply(v, m))
  {
    hide Along, Apply;
    Columns(u, m);
    Columns(v, m);
    Columns(Plus(u, v), m);
    Columns(Scale(k, v), m);
    AlongIsLinear(u, v, m.x.x, m.y.x, m.z.x, m.w.x, k);
    AlongIsLinear(u, v, m.x.y, m.y.y, m.z.y, m.w.y, k);
    AlongIsLinear(u, v, m.x.z, m.y.z, m.z.z, m.w.z, k);
    AlongIsLinear(u, v, m.x.w, m.y.w, m.z.w, m.w.w, k);
  }

  lemma {:induction false} UnitRows(m: Matrix)
    ensures Apply(Row(1.0, 0.0, 0.0, 0.0), m) == m.x && Apply(Row(0.0, 1.0, 0.0, 0.0), m) == m.y
    ensures Apply(Row(0.0, 0.0, 1.0, 0.0), m) == m.z && Apply(Row(0.0, 0.0, 0.0, 1.0), m) == m.w
  {
  }

  lemma {:induction false} ApplyCombines(v: Row, m: Matrix)
    ensures Apply(v, m) == Combine(v, m.x, m.y, m.z, m.w)
  {
  }

  // Transforms of combined rows are combined transforms.
  lemma {:induction false} CombinedApply(v: Row, x: Row, y: Row, z: Row, w: Row, m: Matrix)
    ensures Apply(Combine(v, x, y, z, w), m) == Combine(v, Apply(x, m), Apply(y, m), Apply(z, m), Apply(w, m))
  {
    hide Apply, Plus, Scale;
    var a, b, c, d := Scale(v.x, x), Scale(v.y, y), Scale(v.z, z), Scale(v.w, w);
    ApplyIsLinear(Plus(Plus(a, b), c), d, 0.0, m);
    ApplyIsLinear(Plus(a, b), c, 0.0, m);
    ApplyIsLinear(a, b, 0.0, m);
    ApplyIsLinear(x, x, v.x, m);
    ApplyIsLinear(y, y, v.y, m);
    ApplyIsLinear(z, z, v.z, m);
    ApplyIsLinear(w, w, v.w, m);
  }

  // The product of two transforms is the first followed by the second.
  lemma {:induction false} MulIsBoth(v: Row, a: Matrix, b: Matrix)
    ensures Apply(v, Mul(a, b)) == Apply(Apply(v, a), b)
  {
    hide Apply, Combine;
    ApplyCombines(v, a);
    CombinedApply(v, a.x, a.y, a.z, a.w, b);
    ApplyCombines(v, Mul(a, b));
  }

  lemma {:induction false} IdentityKeeps(v: Row)
    ensures Apply(v, IDENTITY) == v
  {
  }

  // ----- points along a path

  // A point of the mesh at the end of a path, taken through the transforms along it, the mesh's own
  // first.
  function Carried(objects: Objects, elements: seq<Element>, p: seq<nat>, v: Row): Row
    requires At(objects, elements, p).Some?
    decreases |p|
  {
    var e := elements[p[0]];
    if |p| == 1 then Apply(v, e.transform)
    else Apply(Carried(objects, objects[e.name], p[1..], v), e.transform)
  }

  lemma {:induction false} WorldCarries(objects: Objects, elements: seq<Element>, parent: Matrix, p: seq<nat>, v: Row)
    requires At(objects, elements, p).Some?
    ensures Apply(v, World(objects, elements, parent, p)) == Apply(Carried(objects, elements, p, v), parent)
    decreases |p|
  {
    hide Apply, Mul;
    var e := elements[p[0]];
    if |p| == 1 {
      MulIsBoth(v, e.transform, parent);
    } else {
      var world := Mul(e.transform, parent);
      WorldCarries(objects, objects[e.name], world, p[1..], v);
      MulIsBoth(Carried(objects, objects[e.name], p[1..], v), e.transform, parent);
    }
  }

  // Every instance of an import places its mesh's points where the transforms along its path carry
  // them one after the other.
  lemma {:induction false} InstancesCarry(objects: Objects, roots: seq<Element>, j: nat, v: Row)
    requires ResolveRoots(objects, roots).Resolved? && j < |ResolveRoots(objects, roots).instances|
    ensures var paths, instances := Paths(objects, roots, |roots|, {}), ResolveRoots(objects, roots).instances;
            && |paths| == |instances| && ToMesh(objects, roots, paths[j])
            && instances[j].meshIndex == At(objects, roots, paths[j]).value.meshIndex
            && Apply(v, instances[j].transform) == Carried(objects, roots, paths[j], v)
  {
    hide Apply, World, Carried, Paths, ResolveRoots;
    InstancesArePaths(objects, roots);
    var p := Paths(objects, roots, |roots|, {})[j];
    WorldCarries(objects, roots, IDENTITY, p, v);
    IdentityKeeps(Carried(objects, roots, p, v));
  }

  // ----- the determinant

  // The determinant along the first row, with the minors of the others.
  function Signed(x: Row, a: real, b: real, c: real, d: real): real {
    x.x * a - x.y * b + x.z * c - x.w * d
  }

  lemma {:induction false} SignedIsLinear(x: Row, y: Row, k: real, a: real, b: real, c: real, d: real)
    ensures Signed(Plus(x, y), a, b, c, d) == Signed(x, a, b, c, d) + Signed(y, a, b, c, d)
    ensures Signed(Scale(k, x), a, b, c, d) == k * Signed(x, a, b, c, d)
  {
    assert k * x.x * a == k * (x.x * a) && k * x.y * b == k * (x.y * b);
    assert k * x.z * c == k * (x.z * c) && k * x.w * d == k * (x.w * d);
  }

  // It is linear in its first row, changes its sign with every exchange of neighbouring rows, and is
  // one for the identity; no other function is.
  lemma {:induction false} DeterminantIsLinear(m: Matrix, x: Row, k: real)
    ensures Determinant(m.(x := Plus(m.x, x))) == Determinant(m) + Determinant(m.(x := x))
    ensures Determinant(m.(x := Scale(k, x))) == k * Determinant(m.(x := x))
  {
    hide Minor, Signed, Plus, Scale;
    var a := Minor(m.y.y, m.y.z, m.y.w, m.z.y, m.z.z, m.z.w, m.w.y, m.w.z, m.w.w);
    var b := Minor(m.y.x, m.y.z, m.y.w, m.z.x, m.z.z, m.z.w, m.w.x, m.w.z, m.w.w);
    var c := Minor(m.y.x, m.y.y, m.y.w, m.z.x, m.z.y, m.z.w, m.w.x, m.w.y, m.w.w);
    var d := Minor(m.y.x, m.y.y, m.y.z, m.z.x, m.z.y, m.z.z, m.w.x, m.w.y, m.w.z);
    forall r: Row ensures Determinant(m.(x := r)) == Signed(r, a, b, c, d) {
      SignedIs(r, a, b, c, d);
    }
    assert m.(x := m.x) == m;
    SignedIsLinear(m.x, x, k, a, b, c, d);
    SignedIsLinear(x, x, k, a, b, c, d);
  }

  lemma SignedIs(x: Row, a: real, b: real, c: real, d: real)
    ensures Signed(x, a, b, c, d) == x.x * a - x.y * b + x.z * c - x.w * d
  {
  }

  lemma {:induction false} MinorAlternates(a: real, b: real, c: real, d: real, e: real, f: real, g: real, h: real,
        i: real)
    ensures Minor(d, e, f, a, b, c, g, h, i) == -Minor(a, b, c, d, e, f, g, h, i)
    ensures Minor(a, b, c, g, h, i, d, e, f) == -Minor(a, b, c, d, e, f, g, h, i)
  {
  }

  lemma {:induction false} LaterRowsAlternate(m: Matrix)
    ensures Determinant(Matrix(m.x, m.z, m.y, m.w)) == -Determinant(m)
    ensures Determinant(Matrix(m.x, m.y, m.w, m.z)) == -Determinant(m)
  {
    hide Minor;
    MinorAlternates(m.y.y, m.y.z, m.y.w, m.z.y, m.z.z, m.z.w, m.w.y, m.w.z, m.w.w);
    MinorAlternates(m.y.x, m.y.z, m.y.w, m.z.x, m.z.z, m.z.w, m.w.x, m.w.z, m.w.w);
    MinorAlternates(m.y.x, m.y.y, m.y.w, m.z.x, m.z.y, m.z.w, m.w.x, m.w.y, m.w.w);
    MinorAlternates(m.y.x, m.y.y, m.y.z, m.z.x, m.z.y, m.z.z, m.w.x, m.w.y, m.w.z);
  }

  // The minor of two rows in two columns.
  function Two(e: real, f: real, h: real, i: real): real {
    e * i - f * h
  }

  lemma {:induction false} MinorByTwo(a: real, b: real, c: real, d: real, e: real, f: real, g: real, h: real, i: real)
    ensures Minor(a, b, c, d, e, f, g, h, i) == a * Two(e, f, h, i) - b * Two(d, f, g, i) + c * Two(d, e, g, h)
  {
  }

  // The first two rows, with the minors of the others in each pair of columns.
  function Pairs(x: Row, y: Row, zw: real, yw: real, yz: real, xw: real, xz: real, xy: real): real {
    x.x * (y.y * zw - y.z * yw + y.w * yz) - x.y * (y.x * zw - y.z * xw + y.w * xz)
    + x.z * (y.x * yw - y.y * xw + y.w * xy) - x.w * (y.x * yz - y.y * xz + y.z * xy)
  }

  lemma {:induction false} PairsAlternate(x: Row, y: Row, zw: real, yw: real, yz: real, xw: real, xz: real, xy: real)
    ensures Pairs(y, x, zw, yw, yz, xw, xz, xy) == -Pairs(x, y, zw, yw, yz, xw, xz, xy)
  {
  }

  lemma {:induction false} DeterminantByPairs(m: Matrix)
    ensures Determinant(m) ==
              Pairs(m.x, m.y, Two(m.z.z, m.z.w, m.w.z, m.w.w), Two(m.z.y, m.z.w, m.w.y, m.w.w),
                  Two(m.z.y, m.z.z, m.w.y, m.w.z), Two(m.z.x, m.z.w, m.w.x, m.w.w), Two(m.z.x, m.z.z, m.w.x, m.w.z),
                  Two(m.z.x, m.z.y, m.w.x, m.w.y))
  {
    hide Minor, Two;
    MinorByTwo(m.y.y, m.y.z, m.y.w, m.z.y, m.z.z, m.z.w, m.w.y, m.w.z, m.w.w);
    MinorByTwo(m.y.x, m.y.z, m.y.w, m.z.x, m.z.z, m.z.w, m.w.x, m.w.z, m.w.w);
    MinorByTwo(m.y.x, m.y.y, m.y.w, m.z.x, m.z.y, m.z.w, m.w.x, m.w.y, m.w.w);
    MinorByTwo(m.y.x, m.y.y, m.y.z, m.z.x, m.z.y, m.z.z, m.w.x, m.w.y, m.w.z);
  }

  lemma {:induction false} DeterminantAlternates(m: Matrix)
    ensures Determinant(Matrix(m.y, m.x, m.z, m.w)) == -Determinant(m)
    ensures Determinant(Matrix(m.x, m.z, m.y, m.w)) == -Determinant(m)
    ensures Determinant(Matrix(m.x, m.y, m.w, m.z)) == -Determinant(m)
  {
    hide Determinant, Two, Pairs;
    LaterRowsAlternate(m);
    DeterminantByPairs(m);
    DeterminantByPairs(Matrix(m.y, m.x, m.z, m.w));
    PairsAlternate(m.x, m.y, Two(m.z.z, m.z.w, m.w.z, m.w.w), Two(m.z.y, m.z.w, m.w.y, m.w.w),
        Two(m.z.y, m.z.z, m.w.y, m.w.z), Two(m.z.x, m.z.w, m.w.x, m.w.w), Two(m.z.x, m.z.z, m.w.x, m.w.z),
        Two(m.z.x, m.z.y, m.w.x, m.w.y));
  }

  lemma {:induction false} DeterminantOfIdentity()
    ensures Determinant(IDENTITY) == 1.0
  {
  }

  // A mesh is refused for a uniform scale exactly when the cube of the scale is below 1e-10.
  lemma {:induction false} ScaleIsSingular(s: real)
    ensures var scale := Matrix(Row(s, 0.0, 0.0, 0.0), Row(0.0, s, 0.0, 0.0), Row(0.0, 0.0, s, 0.0),
          Row(0.0, 0.0, 0.0, 1.0));
            && Determinant(scale) == s * (s * s)
            && (Singular(scale) <==> -1.0 < s * (s * s) * 10000000000.0 < 1.0)
  {
    var scale := Matrix(Row(s, 0.0, 0.0, 0.0), Row(0.0, s, 0.0, 0.0), Row(0.0, 0.0, s, 0.0), Row(0.0, 0.0, 0.0, 1.0));
    assert Minor(s, 0.0, 0.0, 0.0, s, 0.0, 0.0, 0.0, 1.0) == s * s;
    assert Determinant(scale) == s * (s * s);
  }
}
