/** Unfolding object definitions into scene instances (ResolveElement and ResolveRootObjects,
    Source/PbrtSceneImporter.cpp:1806-1848). */
module PbrtInstancing {
  import opened Options

  // ----- transforms, over the reals; a row vector is multiplied from the left

  datatype Row = Row(x: real, y: real, z: real, w: real)

  datatype Matrix = Matrix(x: Row, y: Row, z: Row, w: Row)

  const IDENTITY := Matrix(Row(1.0, 0.0, 0.0, 0.0), Row(0.0, 1.0, 0.0, 0.0), Row(0.0, 0.0, 1.0, 0.0),
      Row(0.0, 0.0, 0.0, 1.0))

  function Apply(v: Row, m: Matrix): Row {
    Row(v.x * m.x.x + v.y * m.y.x + v.z * m.z.x + v.w * m.w.x,
        v.x * m.x.y + v.y * m.y.y + v.z * m.z.y + v.w * m.w.y,
        v.x * m.x.z + v.y * m.y.z + v.z * m.z.z + v.w * m.w.z,
        v.x * m.x.w + v.y * m.y.w + v.z * m.z.w + v.w * m.w.w)
  }

  function Mul(a: Matrix, b: Matrix): Matrix {
    Matrix(Apply(a.x, b), Apply(a.y, b), Apply(a.z, b), Apply(a.w, b))
  }

  // The determinant of three rows without one column.
  function Minor(a: real, b: real, c: real, d: real, e: real, f: real, g: real, h: real, i: real): real {
    a * (e * i - f * h) - b * (d * i - f * g) + c * (d * h - e * g)
  }

  function Determinant(m: Matrix): real {
    m.x.x * Minor(m.y.y, m.y.z, m.y.w, m.z.y, m.z.z, m.z.w, m.w.y, m.w.z, m.w.w)
    - m.x.y * Minor(m.y.x, m.y.z, m.y.w, m.z.x, m.z.z, m.z.w, m.w.x, m.w.z, m.w.w)
    + m.x.z * Minor(m.y.x, m.y.y, m.y.w, m.z.x, m.z.y, m.z.w, m.w.x, m.w.y, m.w.w)
    - m.x.w * Minor(m.y.x, m.y.y, m.y.z, m.z.x, m.z.y, m.z.z, m.w.x, m.w.y, m.w.z)
  }

  predicate Singular(m: Matrix) {
    -0.0000000001 < Determinant(m) < 0.0000000001
  }

  // ----- the object table

  datatype Element =
    | Mesh(meshIndex: nat, transform: Matrix)
    | Object(name: string, transform: Matrix)

  type Objects = map<string, seq<Element>>

  datatype SceneInstance = SceneInstance(meshIndex: nat, transform: Matrix)

  datatype Error = SingularTransform | UndefinedObject(name: string) | ObjectCycle(name: string) | TooManyInstances

  datatype Outcome = Resolved(instances: seq<SceneInstance>) | Failed(error: Error)

  // ----- the depth-first walk

  function Resolve(objects: Objects, e: Element, parent: Matrix, stack: set<string>): Outcome
    decreases objects.Keys - stack, 1, 0
  {
    match e
    case Mesh(meshIndex, transform) =>
      var world := Mul(transform, parent);
      if Singular(world) then Failed(SingularTransform) else Resolved([SceneInstance(meshIndex, world)])
    case Object(name, transform) =>
      if name !in objects then Failed(UndefinedObject(name))
      else if name in stack then Failed(ObjectCycle(name))
      else
        assert name in objects.Keys - stack && name !in objects.Keys - (stack + {name});
        ResolveFirst(objects, objects[name], |objects[name]|, Mul(transform, parent), stack + {name})
  }

  // The first k of some elements, one after the other.
  function ResolveFirst(objects: Objects, elements: seq<Element>, k: nat, parent: Matrix, stack: set<string>): Outcome
    requires k <= |elements|
    decreases objects.Keys - stack, 2, k
  {
    if k == 0 then Resolved([])
    else
      match ResolveFirst(objects, elements, k - 1, parent, stack)
      case Failed(error) => Failed(error)
      case Resolved(before) =>
        match Resolve(objects, elements[k - 1], parent, stack)
        case Failed(error) => Failed(error)
        case Resolved(more) => Resolved(before + more)
  }

  const INSTANCE_LIMIT := 0x100_0000

  function ResolveRoots(objects: Objects, roots: seq<Element>): Outcome {
    match ResolveFirst(objects, roots, |roots|, IDENTITY, {})
    case Failed(error) => Failed(error)
    case Resolved(instances) => if |instances| >= INSTANCE_LIMIT then Failed(TooManyInstances) else Resolved(instances)
  }

  class Importer {
    const objects: Objects
    const rootElements: seq<Element>
    var instances: seq<SceneInstance>
    var objectStack: set<string>

    constructor (objects: Objects, rootElements: seq<Element>)
      ensures this.objects == objects && this.rootElements == rootElements
      ensures instances == [] && objectStack == {}
    {
      this.objects := objects;
      this.rootElements := rootElements;
      instances, objectStack := [], {};
    }

    // On success the instances are appended and the stack is as it was.
    method ResolveElement(element: Element, parent: Matrix) returns (error: Option<Error>)
      modifies `instances, `objectStack
      ensures match Resolve(objects, element, parent, old(objectStack))
              case Resolved(more) => error == None && instances == old(instances) + more
                  && objectStack == old(objectStack)
              case Failed(e) => error == Some(e)
      decreases objects.Keys - objectStack
    {
      hide Mul, Singular;
      if element.Mesh? {
        var world := Mul(element.transform, parent);
        if Singular(world) {
          return Some(SingularTransform);
        }
        instances := instances + [SceneInstance(element.meshIndex, world)];
        return None;
      }
      var name := element.name;
      if name !in objects {
        return Some(UndefinedObject(name));
      }
      if name in objectStack {
        return Some(ObjectCycle(name));
      }
      assert name in objects.Keys - objectStack && name !in objects.Keys - (objectStack + {name});
      ghost var stack := objectStack + {name};
      objectStack := objectStack + {name};
      var world := Mul(element.transform, parent);
      var children := objects[name];
      error := None;
      var k := 0;
      while k < |children| && error.None?
        invariant k <= |children|
        invariant error.None? ==> objectStack == stack && ResolveFirst(objects, children, k, world, stack).Resolved?
        invariant error.None? ==>
              instances == old(instances) + ResolveFirst(objects, children, k, world, stack).instances
        invariant error.Some? ==> ResolveFirst(objects, children, k, world, stack) == Failed(error.value)
      {
        error := ResolveElement(children[k], world);
        k := k + 1;
      }
      if error.Some? {
        FailureStays(objects, children, k, |children|, world, stack);
      } else {
        objectStack := objectStack - {name};
      }
    }

    method ResolveRootObjects() returns (error: Option<Error>)
      requires instances == [] && objectStack == {}
      modifies `instances, `objectStack
      ensures match ResolveRoots(objects, rootElements)
              case Resolved(all) => error == None && instances == all && objectStack == {}
              case Failed(e) => error == Some(e)
    {
      error := None;
      var k := 0;
      while k < |rootElements| && error.None?
        invariant k <= |rootElements|
        invariant error.None? ==>
              objectStack == {} && ResolveFirst(objects, rootElements, k, IDENTITY, {}) == Resolved(instances)
        invariant error.Some? ==> ResolveFirst(objects, rootElements, k, IDENTITY, {}) == Failed(error.value)
      {
        error := ResolveElement(rootElements[k], IDENTITY);
        k := k + 1;
      }
      if error.Some? {
        FailureStays(objects, rootElements, k, |rootElements|, IDENTITY, {});
      } else if |instances| >= INSTANCE_LIMIT {
        error := Some(TooManyInstances);
      }
    }
  }

  lemma {:induction false} FailureStays(objects: Objects, elements: seq<Element>, k: nat, n: nat, parent: Matrix,
        stack: set<string>)
    requires k <= n <= |elements| && ResolveFirst(objects, elements, k, parent, stack).Failed?
    ensures ResolveFirst(objects, elements, n, parent, stack) == ResolveFirst(objects, elements, k, parent, stack)
  {
    hide Resolve;
    if k < n {
      FailureStays(objects, elements, k, n - 1, parent, stack);
    }
  }

  // ----- what it means: the paths of the definition graph

  // A path is a list of positions: one among some elements, the next among the children of the
  // object there, and so on.
  function At(objects: Objects, elements: seq<Element>, p: seq<nat>): Option<Element>
    decreases |p|
  {
    if p == [] || p[0] >= |elements| then None
    else
      var e := elements[p[0]];
      if |p| == 1 then Some(e)
      else if e.Object? && e.name in objects then At(objects, objects[e.name], p[1..])
      else None
  }

  // The product of the transforms along a path, the last one first.
  function World(objects: Objects, elements: seq<Element>, parent: Matrix, p: seq<nat>): Matrix
    requires At(objects, elements, p).Some?
    decreases |p|
  {
    var world := Mul(elements[p[0]].transform, parent);
    if |p| == 1 then world else World(objects, objects[elements[p[0]].name], world, p[1..])
  }

  // The objects entered on the way.
  function Entered(objects: Objects, elements: seq<Element>, p: seq<nat>): set<string>
    requires At(objects, elements, p).Some?
    decreases |p|
  {
    if |p| == 1 then {} else {elements[p[0]].name} + Entered(objects, objects[elements[p[0]].name], p[1..])
  }

  predicate ToMesh(objects: Objects, elements: seq<Element>, p: seq<nat>) {
    At(objects, elements, p).Some? && At(objects, elements, p).value.Mesh?
  }

  // The path ends at a mesh that is squashed flat, or at an object that does not exist or is
  // already entered.
  predicate Faulty(objects: Objects, elements: seq<Element>, parent: Matrix, stack: set<string>, p: seq<nat>) {
    && At(objects, elements, p).Some?
    && match At(objects, elements, p).value
       case Mesh(_, _) => Singular(World(objects, elements, parent, p))
       case Object(name, _) => name !in objects || name in stack + Entered(objects, elements, p)
  }

  // ----- the walk and the paths

  function Below(i: nat, paths: seq<seq<nat>>): (r: seq<seq<nat>>)
    ensures |r| == |paths| && forall j :: 0 <= j < |r| ==> r[j] == [i] + paths[j]
  {
    seq(|paths|, j requires 0 <= j < |paths| => [i] + paths[j])
  }

  // The paths to meshes in the order in which the walk comes to them.
  function Paths(objects: Objects, elements: seq<Element>, k: nat, stack: set<string>): seq<seq<nat>>
    requires k <= |elements|
    decreases objects.Keys - stack, k
  {
    if k == 0 then []
    else Paths(objects, elements, k - 1, stack) + PathsUnder(objects, elements, k - 1, stack)
  }

  function PathsUnder(objects: Objects, elements: seq<Element>, i: nat, stack: set<string>): seq<seq<nat>>
    requires i < |elements|
    decreases objects.Keys - stack, i
  {
    match elements[i]
    case Mesh(_, _) => [[i]]
    case Object(name, _) =>
      if name !in objects || name in stack then []
      else
        assert name in objects.Keys - stack && name !in objects.Keys - (stack + {name});
        Below(i, Paths(objects, objects[name], |objects[name]|, stack + {name}))
  }

  // The j-th instance is the mesh at the end of the j-th path, placed by the transforms along it.
  predicate Unfolds(objects: Objects, elements: seq<Element>, parent: Matrix, paths: seq<seq<nat>>,
        instances: seq<SceneInstance>) {
    |paths| == |instances| && forall j :: 0 <= j < |paths| ==>
      && ToMesh(objects, elements, paths[j])
      && instances[j]
          == SceneInstance(At(objects, elements, paths[j]).value.meshIndex, World(objects, elements, parent, paths[j]))
  }

  lemma {:induction false} WalkUnfolds(objects: Objects, elements: seq<Element>, k: nat, parent: Matrix,
        stack: set<string>)
    requires k <= |elements| && ResolveFirst(objects, elements, k, parent, stack).Resolved?
    ensures Unfolds(objects, elements, parent, Paths(objects, elements, k, stack),
          ResolveFirst(objects, elements, k, parent, stack).instances)
    decreases objects.Keys - stack, k
  {
    hide Mul, Singular;
    if k > 0 {
      WalkUnfolds(objects, elements, k - 1, parent, stack);
      var e := elements[k - 1];
      if e.Object? {
        var world := Mul(e.transform, parent);
        assert e.name in objects.Keys - stack && e.name !in objects.Keys - (stack + {e.name});
        var children := objects[e.name];
        WalkUnfolds(objects, children, |children|, world, stack + {e.name});
        UnfoldsBelow(objects, elements, k - 1, parent, Paths(objects, children, |children|, stack + {e.name}),
                     ResolveFirst(objects, children, |children|, world, stack + {e.name}).instances);
      }
    }
  }

  lemma {:induction false} UnfoldsBelow(objects: Objects, elements: seq<Element>, i: nat, parent: Matrix,
        paths: seq<seq<nat>>, instances: seq<SceneInstance>)
    requires i < |elements| && elements[i].Object? && elements[i].name in objects
    requires Unfolds(objects, objects[elements[i].name], Mul(elements[i].transform, parent), paths, instances)
    ensures Unfolds(objects, elements, parent, Below(i, paths), instances)
  {
    hide Mul;
    var below := Below(i, paths);
    forall j | 0 <= j < |paths|
      ensures ToMesh(objects, elements, below[j])
      ensures instances[j]
            == SceneInstance(At(objects, elements, below[j]).value.meshIndex,
            World(objects, elements, parent, below[j]))
    {
      assert below[j][1..] == paths[j];
    }
  }

  // Every path to a mesh is among them.
  lemma {:induction false} EveryPathIsWalked(objects: Objects, elements: seq<Element>, k: nat, parent: Matrix,
        stack: set<string>, p: seq<nat>)
    requires k <= |elements| && ResolveFirst(objects, elements, k, parent, stack).Resolved?
    requires ToMesh(objects, elements, p) && p[0] < k
    ensures p in Paths(objects, elements, k, stack)
    decreases objects.Keys - stack, k
  {
    hide Mul, Singular;
    var e := elements[k - 1];
    if p[0] < k - 1 {
      EveryPathIsWalked(objects, elements, k - 1, parent, stack, p);
    } else if |p| == 1 {
      assert p == [k - 1];
      assert [k - 1] in PathsUnder(objects, elements, k - 1, stack);
    } else {
      assert e.name in objects.Keys - stack && e.name !in objects.Keys - (stack + {e.name});
      var children := objects[e.name];
      EveryPathIsWalked(objects, children, |children|, Mul(e.transform, parent), stack + {e.name}, p[1..]);
      var paths := Paths(objects, children, |children|, stack + {e.name});
      var j :| 0 <= j < |paths| && paths[j] == p[1..];
      assert Below(k - 1, paths)[j] == p;
    }
  }

  // ----- each once, in order

  // The order in which the elements stand in the file.
  predicate Earlier(p: seq<nat>, q: seq<nat>) {
    p != [] && q != [] && (p[0] < q[0] || (p[0] == q[0] && Earlier(p[1..], q[1..])))
  }

  predicate InOrder(paths: seq<seq<nat>>) {
    forall i, j :: 0 <= i < j < |paths| ==> Earlier(paths[i], paths[j])
  }

  predicate StartBelow(paths: seq<seq<nat>>, k: nat) {
    forall j :: 0 <= j < |paths| ==> paths[j] != [] && paths[j][0] < k
  }

  lemma {:induction false} WalkIsInOrder(objects: Objects, elements: seq<Element>, k: nat, stack: set<string>)
    requires k <= |elements|
    ensures InOrder(Paths(objects, elements, k, stack)) && StartBelow(Paths(objects, elements, k, stack), k)
    decreases objects.Keys - stack, k
  {
    if k > 0 {
      WalkIsInOrder(objects, elements, k - 1, stack);
      var e, under := elements[k - 1], PathsUnder(objects, elements, k - 1, stack);
      assert InOrder(under) && forall j :: 0 <= j < |under| ==> under[j] != [] && under[j][0] == k - 1 by {
        if e.Object? && e.name in objects && e.name !in stack {
          assert e.name in objects.Keys - stack && e.name !in objects.Keys - (stack + {e.name});
          var children := objects[e.name];
          WalkIsInOrder(objects, children, |children|, stack + {e.name});
          BelowInOrder(k - 1, Paths(objects, children, |children|, stack + {e.name}));
        }
      }
    }
  }

  lemma {:induction false} BelowInOrder(i: nat, paths: seq<seq<nat>>)
    requires InOrder(paths)
    ensures InOrder(Below(i, paths))
  {
    var r := Below(i, paths);
    forall a, b | 0 <= a < b < |r| ensures Earlier(r[a], r[b]) {
      assert r[a][1..] == paths[a] && r[b][1..] == paths[b];
    }
  }

  // ----- when it succeeds

  lemma {:induction false} SuccessHasNoFault(objects: Objects, elements: seq<Element>, k: nat, parent: Matrix,
        stack: set<string>, p: seq<nat>)
    requires k <= |elements| && ResolveFirst(objects, elements, k, parent, stack).Resolved? && p != [] && p[0] < k
    ensures !Faulty(objects, elements, parent, stack, p)
    decreases objects.Keys - stack, k
  {
    hide Mul, Singular;
    var e := elements[k - 1];
    if p[0] < k - 1 {
      SuccessHasNoFault(objects, elements, k - 1, parent, stack, p);
    } else if |p| > 1 && At(objects, elements, p).Some? {
      assert e.name in objects.Keys - stack && e.name !in objects.Keys - (stack + {e.name});
      var children := objects[e.name];
      assert At(objects, children, p[1..]).Some?;
      SuccessHasNoFault(objects, children, |children|, Mul(e.transform, parent), stack + {e.name}, p[1..]);
      assert stack + {e.name} + Entered(objects, children, p[1..]) == stack + Entered(objects, elements, p);
    }
  }

  lemma {:induction false} FailureHasFault(objects: Objects, elements: seq<Element>, k: nat, parent: Matrix,
        stack: set<string>) returns (p: seq<nat>)
    requires k <= |elements| && ResolveFirst(objects, elements, k, parent, stack).Failed?
    ensures Faulty(objects, elements, parent, stack, p)
    decreases objects.Keys - stack, k
  {
    hide Mul, Singular;
    var e := elements[k - 1];
    if ResolveFirst(objects, elements, k - 1, parent, stack).Failed? {
      p := FailureHasFault(objects, elements, k - 1, parent, stack);
    } else if e.Mesh? || e.name !in objects || e.name in stack {
      p := [k - 1];
    } else {
      assert e.name in objects.Keys - stack && e.name !in objects.Keys - (stack + {e.name});
      var children := objects[e.name];
      var q := FailureHasFault(objects, children, |children|, Mul(e.transform, parent), stack + {e.name});
      p := [k - 1] + q;
      assert p[1..] == q;
      assert stack + {e.name} + Entered(objects, children, q) == stack + Entered(objects, elements, p);
    }
  }

  // On any object table, cyclic ones included: the import succeeds exactly when no path from a root
  // is faulty and there are not too many instances, and then the instances are the paths from roots
  // to meshes, each once and in order.
  lemma {:induction false} InstancesArePaths(objects: Objects, roots: seq<Element>)
    ensures var paths := Paths(objects, roots, |roots|, {});
            && (ResolveRoots(objects, roots).Resolved? <==>
                (forall p :: !Faulty(objects, roots, IDENTITY, {}, p)) && |paths| < 16777216)
            && (ResolveRoots(objects, roots).Resolved? ==>
                  && Unfolds(objects, roots, IDENTITY, paths, ResolveRoots(objects, roots).instances)
                  && (forall p :: p in paths <==> ToMesh(objects, roots, p))
                  && InOrder(paths))
  {
    hide *;
    RootsResolve(objects, roots);
    var paths, outcome := Paths(objects, roots, |roots|, {}), ResolveFirst(objects, roots, |roots|, IDENTITY, {});
    if outcome.Failed? {
      var p := FailureHasFault(objects, roots, |roots|, IDENTITY, {});
    } else {
      forall p ensures !Faulty(objects, roots, IDENTITY, {}, p) {
        if p != [] && p[0] < |roots| {
          SuccessHasNoFault(objects, roots, |roots|, IDENTITY, {}, p);
        } else {
          NowhereIsFine(objects, roots, p);
        }
      }
      WalkUnfolds(objects, roots, |roots|, IDENTITY, {});
      WalkIsInOrder(objects, roots, |roots|, {});
      forall p ensures p in paths <==> ToMesh(objects, roots, p) {
        if ToMesh(objects, roots, p) {
          NowhereIsFine(objects, roots, p);
          EveryPathIsWalked(objects, roots, |roots|, IDENTITY, {}, p);
        }
        if p in paths { UnfoldedReachesMesh(objects, roots, paths, outcome.instances, p); }
      }
      SameCount(objects, roots, paths, outcome.instances);
    }
  }

  lemma RootsResolve(objects: Objects, roots: seq<Element>)
    ensures INSTANCE_LIMIT == 16777216
    ensures ResolveRoots(objects, roots) ==
              match ResolveFirst(objects, roots, |roots|, IDENTITY, {})
              case Failed(error) => Failed(error)
              case Resolved(instances) =>
                if |instances| >= INSTANCE_LIMIT then Failed(TooManyInstances) else Resolved(instances)
  {
  }

  lemma NowhereIsFine(objects: Objects, roots: seq<Element>, p: seq<nat>)
    ensures p == [] || p[0] >= |roots| ==> !Faulty(objects, roots, IDENTITY, {}, p) && !ToMesh(objects, roots, p)
  {
  }

  lemma UnfoldedReachesMesh(objects: Objects, roots: seq<Element>, paths: seq<seq<nat>>, instances: seq<SceneInstance>,
        p: seq<nat>)
    requires Unfolds(objects, roots, IDENTITY, paths, instances) && p in paths
    ensures ToMesh(objects, roots, p)
  {
  }

  lemma SameCount(objects: Objects, roots: seq<Element>, paths: seq<seq<nat>>, instances: seq<SceneInstance>)
    requires Unfolds(objects, roots, IDENTITY, paths, instances)
    ensures |paths| == |instances|
  {
  }
}
