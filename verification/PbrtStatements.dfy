/** What PBRT statements do to the importer's state (the stack directives of ParseStatement,
    Source/PbrtSceneImporter.cpp:1178-1389), and what well-nested blocks of them keep. */
module PbrtStatements {
  import opened Options
  import opened PbrtInstancing

  type Path = string

  // ----- the state

  datatype Graphics = Graphics(transform: Matrix, materialIndex: nat, reverseOrientation: bool, areaLight: Option<real>)

  const DEFAULT := Graphics(IDENTITY, 0, false, None)

  // A mesh remembers the graphics state it was made under.
  datatype SceneMesh = SceneMesh(geometry: string, materialIndex: nat, reverseOrientation: bool,
      areaLight: Option<real>)

  datatype Texture = Texture(file: string, sourceDirectory: Path)

  datatype Scene = Scene(
    graphics: Graphics,
    attributes: seq<Graphics>,
    transforms: seq<Matrix>,
    coordinateSystems: map<string, Matrix>,
    textures: map<string, Texture>,
    namedMaterials: map<string, nat>,
    meshes: seq<SceneMesh>,
    activeObject: Option<string>,
    objects: Objects,
    rootElements: seq<Element>)

  // ----- the statements

  // Operands are what their own readers make of them: a matrix for every kind of transform, an
  // index for a material, None for a shape that is skipped with a warning.
  datatype Statement =
    | Include(file: string)
    | WorldBegin
    | AttributeBegin
    | AttributeEnd
    | TransformBegin
    | TransformEnd
    | ObjectBegin(name: string)
    | ObjectEnd
    | ObjectInstance(name: string)
    | SetTransform(matrix: Matrix)
    | ConcatTransform(matrix: Matrix)
    | CoordinateSystem(name: string)
    | CoordSysTransform(name: string)
    | ReverseOrientation
    | MakeTexture(name: string, file: string)
    | Material(index: nat)
    | MakeNamedMaterial(name: string, index: nat)
    | NamedMaterial(name: string)
    | AreaLight(radiance: Option<real>)
    | Shape(geometry: Option<string>)
    | Ignored
    | Malformed

  datatype ParseError =
    | UnmatchedAttributeEnd
    | UnmatchedTransformEnd
    | UnmatchedObjectEnd
    | CorruptStack
    | NestedObject
    | UnknownCoordinateSystem
    | BadDirective
    | IncludeTooDeep
    | FileNotFound
    | IncludeCycle
    | Unreadable

  datatype Result = Parsed(scene: Scene) | ParseFailed(error: ParseError)

  function Append(s: Scene, e: Element): Scene {
    match s.activeObject
    case None => s.(rootElements := s.rootElements + [e])
    case Some(name) => s.(objects := s.objects[name := (if name in s.objects then s.objects[name] else []) + [e]])
  }

  function Exec(s: Scene, statement: Statement, directory: Path): Result {
    var g := s.graphics;
    match statement
    case Include(_) => Parsed(s)
    case WorldBegin => Parsed(s.(graphics := DEFAULT, coordinateSystems := s.coordinateSystems["world" := IDENTITY]))
    case AttributeBegin => Parsed(s.(attributes := s.attributes + [g]))
    case AttributeEnd =>
      if s.attributes == [] then ParseFailed(UnmatchedAttributeEnd)
      else Parsed(s.(graphics := s.attributes[|s.attributes| - 1], attributes := s.attributes[..|s.attributes| - 1]))
    case TransformBegin => Parsed(s.(transforms := s.transforms + [g.transform]))
    case TransformEnd =>
      if s.transforms == [] then ParseFailed(UnmatchedTransformEnd)
      else Parsed(s.(graphics := g.(transform := s.transforms[|s.transforms| - 1]),
          transforms := s.transforms[..|s.transforms| - 1]))
    case ObjectBegin(name) =>
      if s.activeObject.Some? then ParseFailed(NestedObject)
      else Parsed(s.(activeObject := Some(name), objects := s.objects[name := []], attributes := s.attributes + [g]))
    case ObjectEnd =>
      if s.activeObject.None? then ParseFailed(UnmatchedObjectEnd)
      else if s.attributes == [] then ParseFailed(CorruptStack)
      else Parsed(s.(activeObject := None, graphics := s.attributes[|s.attributes| - 1],
          attributes := s.attributes[..|s.attributes| - 1]))
    case ObjectInstance(name) => Parsed(Append(s, Object(name, g.transform)))
    case SetTransform(m) => Parsed(s.(graphics := g.(transform := m)))
    case ConcatTransform(m) => Parsed(s.(graphics := g.(transform := Mul(m, g.transform))))
    case CoordinateSystem(name) => Parsed(s.(coordinateSystems := s.coordinateSystems[name := g.transform]))
    case CoordSysTransform(name) =>
      if name !in s.coordinateSystems then ParseFailed(UnknownCoordinateSystem)
      else Parsed(s.(graphics := g.(transform := s.coordinateSystems[name])))
    case ReverseOrientation => Parsed(s.(graphics := g.(reverseOrientation := !g.reverseOrientation)))
    case MakeTexture(name, file) => Parsed(s.(textures := s.textures[name := Texture(file, directory)]))
    case Material(index) => Parsed(s.(graphics := g.(materialIndex := index)))
    case MakeNamedMaterial(name, index) => Parsed(s.(namedMaterials := s.namedMaterials[name := index]))
    case NamedMaterial(name) =>
      Parsed(s.(graphics := g.(materialIndex := if name in s.namedMaterials then s.namedMaterials[name] else 0)))
    case AreaLight(radiance) => Parsed(s.(graphics := g.(areaLight := radiance)))
    case Shape(None) => Parsed(s)
    case Shape(Some(geometry)) =>
      var mesh := SceneMesh(geometry, g.materialIndex, g.reverseOrientation, g.areaLight);
      Parsed(Append(s.(meshes := s.meshes + [mesh]), Mesh(|s.meshes|, g.transform)))
    case Ignored => Parsed(s)
    case Malformed => ParseFailed(BadDirective)
  }

  // ----- running a list of them

  // A statement with the directory of the file it stands in, or the failure of an include.
  datatype Item = Do(statement: Statement, directory: Path) | Fail(error: ParseError)

  function Step(s: Scene, item: Item): Result {
    match item
    case Do(statement, directory) => Exec(s, statement, directory)
    case Fail(error) => ParseFailed(error)
  }

  function Run(s: Scene, items: seq<Item>): Result {
    if items == [] then Parsed(s)
    else
      match Run(s, items[..|items| - 1])
      case ParseFailed(error) => ParseFailed(error)
      case Parsed(t) => Step(t, items[|items| - 1])
  }

  lemma {:induction false} RunConcat(s: Scene, a: seq<Item>, b: seq<Item>)
    ensures Run(s, a + b) ==
              match Run(s, a)
              case ParseFailed(error) => ParseFailed(error)
              case Parsed(t) => Run(t, b)
  {
    hide Step;
    if b == [] {
      assert a + b == a;
    } else {
      assert (a + b)[..|a + b| - 1] == a + b[..|b| - 1];
      RunConcat(s, a, b[..|b| - 1]);
    }
  }

  // ----- well-nested statements

  // A block's begin and end need not stand in the same file.
  datatype Tree =
    | Leaf(statement: Statement, directory: Path)
    | Attribute(begin: Path, body: seq<Tree>, end: Path)
    | Transformed(begin: Path, body: seq<Tree>, end: Path)
    | Definition(begin: Path, name: string, body: seq<Tree>, end: Path)

  predicate IsStackDirective(s: Statement) {
    s.AttributeBegin? || s.AttributeEnd? || s.TransformBegin? || s.TransformEnd? || s.ObjectBegin? || s.ObjectEnd?
  }

  predicate WellNested(t: Tree) {
    match t
    case Leaf(s, _) => !IsStackDirective(s)
    case _ => forall i :: 0 <= i < |t.body| ==> WellNested(t.body[i])
  }

  function Opening(t: Tree): Statement
    requires !t.Leaf?
  {
    match t
    case Attribute(_, _, _) => AttributeBegin
    case Transformed(_, _, _) => TransformBegin
    case Definition(_, name, _, _) => ObjectBegin(name)
  }

  function Closing(t: Tree): Statement
    requires !t.Leaf?
  {
    match t
    case Attribute(_, _, _) => AttributeEnd
    case Transformed(_, _, _) => TransformEnd
    case Definition(_, _, _, _) => ObjectEnd
  }

  // The statements as they stand in the files.
  function Items(t: Tree): seq<Item>
    decreases t, 1, 0
  {
    if t.Leaf? then [Do(t.statement, t.directory)]
    else [Do(Opening(t), t.begin)] + BodyItems(t, |t.body|) + [Do(Closing(t), t.end)]
  }

  function BodyItems(t: Tree, k: nat): seq<Item>
    requires !t.Leaf? && k <= |t.body|
    decreases t, 0, k
  {
    if k == 0 then [] else BodyItems(t, k - 1) + Items(t.body[k - 1])
  }

  lemma {:induction false} RunThree(s: Scene, first: Item, body: seq<Item>, last: Item)
    ensures Run(s, [first] + body + [last]) ==
              match Step(s, first)
              case ParseFailed(error) => ParseFailed(error)
              case Parsed(t) =>
                match Run(t, body)
                case ParseFailed(error) => ParseFailed(error)
                case Parsed(u) => Step(u, last)
  {
    hide Step;
    RunConcat(s, [first] + body, [last]);
    RunConcat(s, [first], body);
    RunSingle(s, first);
    if Run(s, [first] + body).Parsed? {
      RunSingle(Run(s, [first] + body).scene, last);
    }
  }

  lemma RunNothing(s: Scene)
    ensures Run(s, []) == Parsed(s)
  {
  }

  lemma RunSingle(s: Scene, item: Item)
    ensures Run(s, [item]) == Step(s, item)
  {
    hide Step;
    assert [item][..0] == [];
    assert Run(s, []) == Parsed(s);
  }

  // ----- blocks without stacks

  // What a well-nested block means, said without any stack: a block runs its body and puts back
  // what its kind puts back.
  function Meaning(s: Scene, tree: Tree): Result
    decreases tree, 1, 0
  {
    match tree
    case Leaf(statement, directory) => Exec(s, statement, directory)
    case Attribute(_, body, _) =>
      (match BodyMeaning(s, tree, |body|)
       case ParseFailed(error) => ParseFailed(error)
       case Parsed(u) => Parsed(u.(graphics := s.graphics)))
    case Transformed(_, body, _) =>
      (match BodyMeaning(s, tree, |body|)
       case ParseFailed(error) => ParseFailed(error)
       case Parsed(u) => Parsed(u.(graphics := u.graphics.(transform := s.graphics.transform))))
    case Definition(_, name, body, _) =>
      if s.activeObject.Some? then ParseFailed(NestedObject)
      else
        match BodyMeaning(s.(activeObject := Some(name), objects := s.objects[name := []]), tree, |body|)
        case ParseFailed(error) => ParseFailed(error)
        case Parsed(u) => Parsed(u.(activeObject := None, graphics := s.graphics))
  }

  function BodyMeaning(s: Scene, tree: Tree, k: nat): Result
    requires !tree.Leaf? && k <= |tree.body|
    decreases tree, 0, k
  {
    if k == 0 then Parsed(s)
    else
      match BodyMeaning(s, tree, k - 1)
      case ParseFailed(error) => ParseFailed(error)
      case Parsed(t) => Meaning(t, tree.body[k - 1])
  }

  function WithStacks(s: Scene, attributes: seq<Graphics>, transforms: seq<Matrix>): Scene {
    s.(attributes := attributes, transforms := transforms)
  }

  function ResultWith(r: Result, attributes: seq<Graphics>, transforms: seq<Matrix>): Result {
    match r
    case ParseFailed(_) => r
    case Parsed(s) => Parsed(WithStacks(s, attributes, transforms))
  }

  lemma {:induction false} LeafIgnoresStacks(s: Scene, statement: Statement, directory: Path, a: seq<Graphics>,
        t: seq<Matrix>)
    requires !IsStackDirective(statement)
    ensures Exec(WithStacks(s, a, t), statement, directory) == ResultWith(Exec(s, statement, directory), a, t)
  {
    hide Mul, Append;
    if statement.ObjectInstance? {
      AppendIgnoresStacks(s, Object(statement.name, s.graphics.transform), a, t);
    } else if statement.Shape? && statement.geometry.Some? {
      var g := s.graphics;
      var mesh := SceneMesh(statement.geometry.value, g.materialIndex, g.reverseOrientation, g.areaLight);
      AppendIgnoresStacks(s.(meshes := s.meshes + [mesh]), Mesh(|s.meshes|, g.transform), a, t);
    }
  }

  lemma AppendIgnoresStacks(s: Scene, e: Element, a: seq<Graphics>, t: seq<Matrix>)
    ensures Append(WithStacks(s, a, t), e) == WithStacks(Append(s, e), a, t)
  {
  }

  lemma {:induction false} MeaningIgnoresStacks(s: Scene, tree: Tree, a: seq<Graphics>, t: seq<Matrix>)
    requires WellNested(tree)
    ensures Meaning(WithStacks(s, a, t), tree) == ResultWith(Meaning(s, tree), a, t)
    decreases tree, 1, 0
  {
    hide Exec;
    match tree
    case Leaf(statement, directory) => LeafIgnoresStacks(s, statement, directory, a, t);
    case Definition(_, name, body, _) =>
      var inside := s.(activeObject := Some(name), objects := s.objects[name := []]);
      assert WithStacks(inside, a, t)
          == WithStacks(s, a, t).(activeObject := Some(name), objects := s.objects[name := []]);
      BodyIgnoresStacks(inside, tree, |body|, a, t);
    case _ => BodyIgnoresStacks(s, tree, |tree.body|, a, t);
  }

  lemma {:induction false} BodyIgnoresStacks(s: Scene, tree: Tree, k: nat, a: seq<Graphics>, t: seq<Matrix>)
    requires !tree.Leaf? && WellNested(tree) && k <= |tree.body|
    ensures BodyMeaning(WithStacks(s, a, t), tree, k) == ResultWith(BodyMeaning(s, tree, k), a, t)
    decreases tree, 0, k
  {
    hide Meaning;
    if k > 0 {
      BodyIgnoresStacks(s, tree, k - 1, a, t);
      if BodyMeaning(s, tree, k - 1).Parsed? {
        MeaningIgnoresStacks(BodyMeaning(s, tree, k - 1).scene, tree.body[k - 1], a, t);
      }
    }
  }

  // So the body hands the stacks back.
  lemma BodyKeepsStacks(s: Scene, tree: Tree, k: nat)
    requires !tree.Leaf? && WellNested(tree) && k <= |tree.body| && BodyMeaning(s, tree, k).Parsed?
    ensures BodyMeaning(s, tree, k).scene.attributes == s.attributes
    ensures BodyMeaning(s, tree, k).scene.transforms == s.transforms
  {
    hide BodyMeaning;
    BodyIgnoresStacks(s, tree, k, s.attributes, s.transforms);
    assert WithStacks(s, s.attributes, s.transforms) == s;
  }

  predicate IsMismatch(e: ParseError) {
    e.UnmatchedAttributeEnd? || e.UnmatchedTransformEnd? || e.UnmatchedObjectEnd? || e.CorruptStack?
  }

  lemma {:induction false} LeafKeepsObject(s: Scene, statement: Statement, directory: Path)
    requires !IsStackDirective(statement)
    ensures match Exec(s, statement, directory)
            case Parsed(t) => t.activeObject == s.activeObject
            case ParseFailed(error) => !IsMismatch(error)
  {
    hide Mul;
  }

  lemma {:induction false} MeaningKeepsObject(s: Scene, tree: Tree)
    requires WellNested(tree)
    ensures match Meaning(s, tree)
            case Parsed(t) => t.activeObject == s.activeObject
            case ParseFailed(error) => !IsMismatch(error)
    decreases tree, 1, 0
  {
    hide Exec;
    match tree
    case Leaf(statement, directory) => LeafKeepsObject(s, statement, directory);
    case Definition(_, name, body, _) =>
      if s.activeObject.None? {
        BodyKeepsObject(s.(activeObject := Some(name), objects := s.objects[name := []]), tree, |body|);
      }
    case _ => BodyKeepsObject(s, tree, |tree.body|);
  }

  lemma {:induction false} BodyKeepsObject(s: Scene, tree: Tree, k: nat)
    requires !tree.Leaf? && WellNested(tree) && k <= |tree.body|
    ensures match BodyMeaning(s, tree, k)
            case Parsed(t) => t.activeObject == s.activeObject
            case ParseFailed(error) => !IsMismatch(error)
    decreases tree, 0, k
  {
    hide Meaning;
    if k > 0 {
      BodyKeepsObject(s, tree, k - 1);
      if BodyMeaning(s, tree, k - 1).Parsed? {
        MeaningKeepsObject(BodyMeaning(s, tree, k - 1).scene, tree.body[k - 1]);
      }
    }
  }

  // The stack machine computes the meaning, whatever is on its stacks.
  lemma {:induction false} StacksImplementBlocks(s: Scene, tree: Tree)
    requires WellNested(tree)
    ensures Run(s, Items(tree)) == Meaning(s, tree)
    decreases tree, 1, 0
  {
    hide Run, WellNested, BodyMeaning, BodyItems, Append, Mul;
    match tree
    case Leaf(statement, directory) => RunSingle(s, Do(statement, directory));
    case Attribute(begin, body, end) =>
      var begun := s.(attributes := s.attributes + [s.graphics]);
      RunThree(s, Do(AttributeBegin, begin), BodyItems(tree, |body|), Do(AttributeEnd, end));
      StacksImplementBody(begun, tree, |body|);
      BodyIgnoresStacks(s, tree, |body|, begun.attributes, begun.transforms);
      assert begun == WithStacks(s, begun.attributes, begun.transforms);
      if BodyMeaning(s, tree, |body|).Parsed? { BodyKeepsStacks(s, tree, |body|); }
    case Transformed(begin, body, end) =>
      var begun := s.(transforms := s.transforms + [s.graphics.transform]);
      RunThree(s, Do(TransformBegin, begin), BodyItems(tree, |body|), Do(TransformEnd, end));
      StacksImplementBody(begun, tree, |body|);
      BodyIgnoresStacks(s, tree, |body|, begun.attributes, begun.transforms);
      assert begun == WithStacks(s, begun.attributes, begun.transforms);
      if BodyMeaning(s, tree, |body|).Parsed? { BodyKeepsStacks(s, tree, |body|); }
    case Definition(begin, name, body, end) =>
      RunThree(s, Do(ObjectBegin(name), begin), BodyItems(tree, |body|), Do(ObjectEnd, end));
      if s.activeObject.None? {
        var inside := s.(activeObject := Some(name), objects := s.objects[name := []]);
        var begun := inside.(attributes := s.attributes + [s.graphics]);
        StacksImplementBody(begun, tree, |body|);
        BodyIgnoresStacks(inside, tree, |body|, begun.attributes, begun.transforms);
        assert begun == WithStacks(inside, begun.attributes, begun.transforms);
        if BodyMeaning(inside, tree, |body|).Parsed? {
          BodyKeepsStacks(inside, tree, |body|);
        }
        BodyKeepsObject(inside, tree, |body|);
      }
  }

  lemma {:induction false} StacksImplementBody(s: Scene, tree: Tree, k: nat)
    requires !tree.Leaf? && WellNested(tree) && k <= |tree.body|
    ensures Run(s, BodyItems(tree, k)) == BodyMeaning(s, tree, k)
    decreases tree, 0, k
  {
    hide Step, Items, Meaning;
    if k > 0 {
      StacksImplementBody(s, tree, k - 1);
      RunConcat(s, BodyItems(tree, k - 1), Items(tree.body[k - 1]));
      if BodyMeaning(s, tree, k - 1).Parsed? {
        StacksImplementBlocks(BodyMeaning(s, tree, k - 1).scene, tree.body[k - 1]);
      }
    }
  }

  // What a block puts back when it ends.
  predicate Restored(tree: Tree, s: Scene, t: Scene) {
    match tree
    case Leaf(_, _) => true
    case Attribute(_, _, _) => t.graphics == s.graphics
    case Transformed(_, _, _) => t.graphics.transform == s.graphics.transform
    case Definition(_, _, _, _) => t.graphics == s.graphics
  }

  // A well-nested block leaves both stacks and the object being defined as they were and restores
  // what its kind restores, and it never fails for a mismatch.
  lemma {:induction false} BlocksRestore(s: Scene, tree: Tree)
    requires WellNested(tree)
    ensures match Run(s, Items(tree))
            case Parsed(t) =>
              && t.attributes == s.attributes && t.transforms == s.transforms && t.activeObject == s.activeObject
              && Restored(tree, s, t)
            case ParseFailed(error) => !IsMismatch(error)
  {
    hide Exec, BodyMeaning, Run, Items;
    StacksImplementBlocks(s, tree);
    MeaningKeepsObject(s, tree);
    MeaningIgnoresStacks(s, tree, s.attributes, s.transforms);
    assert WithStacks(s, s.attributes, s.transforms) == s;
  }

  // ----- object definitions

  // The scene as it is while an object is defined that so far has these elements.
  function Inside(s: Scene, name: string, elements: seq<Element>, roots: seq<Element>): Scene {
    s.(activeObject := Some(name), objects := s.objects[name := elements], rootElements := roots)
  }

  // What t has put at the root since s.
  function NewRoots(s: Scene, t: Scene): seq<Element> {
    if |s.rootElements| <= |t.rootElements| then t.rootElements[|s.rootElements|..] else []
  }

  // The same elements, at the root or in the object, and nothing else different.
  predicate Collects(s: Scene, name: string, elements: seq<Element>, roots: seq<Element>, r: Result, inside: Result) {
    match r
    case ParseFailed(_) => inside == r
    case Parsed(t) =>
      && t.rootElements == s.rootElements + NewRoots(s, t) && t.objects == s.objects && t.activeObject == s.activeObject
      && inside == Parsed(Inside(t, name, elements + NewRoots(s, t), roots))
  }

  predicate NoDefinition(tree: Tree) {
    match tree
    case Leaf(_, _) => true
    case Definition(_, _, _, _) => false
    case _ => forall i :: 0 <= i < |tree.body| ==> NoDefinition(tree.body[i])
  }

  lemma {:induction false} AppendCollects(s: Scene, name: string, elements: seq<Element>, roots: seq<Element>,
        e: Element)
    requires s.activeObject.None?
    ensures Append(s, e).rootElements == s.rootElements + [e] && NewRoots(s, Append(s, e)) == [e]
    ensures Append(Inside(s, name, elements, roots), e) == Inside(Append(s, e), name, elements + [e], roots)
  {
  }

  lemma {:induction false} LeafCollects(s: Scene, name: string, elements: seq<Element>, roots: seq<Element>,
        statement: Statement, directory: Path)
    requires s.activeObject.None? && !IsStackDirective(statement)
    ensures Collects(s, name, elements, roots, Exec(s, statement, directory),
          Exec(Inside(s, name, elements, roots), statement, directory))
  {
    hide Mul, Append;
    if statement.ObjectInstance? {
      AppendCollects(s, name, elements, roots, Object(statement.name, s.graphics.transform));
      AppendKeeps(s, Object(statement.name, s.graphics.transform));
    } else if statement.Shape? && statement.geometry.Some? {
      var g := s.graphics;
      var t := s.(meshes := s.meshes
          + [SceneMesh(statement.geometry.value, g.materialIndex, g.reverseOrientation, g.areaLight)]);
      AppendCollects(t, name, elements, roots, Mesh(|s.meshes|, g.transform));
      AppendKeeps(t, Mesh(|s.meshes|, g.transform));
    } else {
      assert elements + [] == elements && s.rootElements + [] == s.rootElements;
    }
  }

  lemma AppendKeeps(s: Scene, e: Element)
    requires s.activeObject.None?
    ensures Append(s, e).objects == s.objects && Append(s, e).activeObject == s.activeObject
  {
  }

  lemma {:induction false} TreeCollects(s: Scene, name: string, elements: seq<Element>, roots: seq<Element>, tree: Tree)
    requires s.activeObject.None? && WellNested(tree) && NoDefinition(tree)
    ensures Collects(s, name, elements, roots, Meaning(s, tree), Meaning(Inside(s, name, elements, roots), tree))
    decreases tree, 1, 0
  {
    hide Exec;
    if tree.Leaf? {
      LeafCollects(s, name, elements, roots, tree.statement, tree.directory);
    } else {
      BodyCollects(s, name, elements, roots, tree, |tree.body|);
    }
  }

  lemma {:induction false} BodyCollects(s: Scene, name: string, elements: seq<Element>, roots: seq<Element>,
        tree: Tree, k: nat)
    requires s.activeObject.None? && !tree.Leaf? && k <= |tree.body|
    requires WellNested(tree) && forall i :: 0 <= i < k ==> NoDefinition(tree.body[i])
    ensures Collects(s, name, elements, roots, BodyMeaning(s, tree, k),
          BodyMeaning(Inside(s, name, elements, roots), tree, k))
    decreases tree, 0, k
  {
    hide Meaning;
    if k == 0 {
      assert elements + [] == elements && s.rootElements + [] == s.rootElements;
    } else {
      BodyCollects(s, name, elements, roots, tree, k - 1);
      var before := BodyMeaning(s, tree, k - 1);
      if before.Parsed? {
        var t := before.scene;
        TreeCollects(t, name, elements + NewRoots(s, t), roots, tree.body[k - 1]);
        CollectsAppend(s, t, name, elements, roots, Meaning(t, tree.body[k - 1]),
            BodyMeaning(Inside(s, name, elements, roots), tree, k));
      }
    }
  }

  lemma {:induction false} CollectsAppend(s: Scene, t: Scene, name: string, elements: seq<Element>,
        roots: seq<Element>, r: Result, inside: Result)
    requires t.rootElements == s.rootElements + NewRoots(s, t) && t.objects == s.objects
          && t.activeObject == s.activeObject
    requires Collects(t, name, elements + NewRoots(s, t), roots, r, inside)
    ensures Collects(s, name, elements, roots, r, inside)
  {
    if r.Parsed? {
      var u := r.scene;
      assert u.rootElements == s.rootElements + (NewRoots(s, t) + NewRoots(t, u));
      assert elements + NewRoots(s, t) + NewRoots(t, u) == elements + NewRoots(s, u);
    }
  }

  lemma {:induction false} SameBodySameMeaning(s: Scene, a: Tree, b: Tree, k: nat)
    requires !a.Leaf? && !b.Leaf? && a.body == b.body && k <= |a.body|
    ensures BodyMeaning(s, a, k) == BodyMeaning(s, b, k)
  {
    hide Meaning;
    if k > 0 {
      SameBodySameMeaning(s, a, b, k - 1);
    }
  }

  // Defining an object does what the same statements do in an Attribute block, except that what
  // they put at the root becomes the definition, in place of any earlier one of that name.
  lemma {:induction false} DefinitionCollects(s: Scene, d: Tree, a: Tree)
    requires d.Definition? && a.Attribute? && a.body == d.body
    requires s.activeObject.None? && WellNested(a) && NoDefinition(a)
    ensures Meaning(s, d) ==
              match Meaning(s, a)
              case ParseFailed(error) => ParseFailed(error)
              case Parsed(t) =>
                Parsed(t.(objects := t.objects[d.name := NewRoots(s, t)], rootElements := s.rootElements))
  {
    hide BodyMeaning;
    var name, body := d.name, d.body;
    BodyCollects(s, name, [], s.rootElements, a, |body|);
    SameBodySameMeaning(Inside(s, name, [], s.rootElements), a, d, |body|);
    assert Inside(s, name, [], s.rootElements) == s.(activeObject := Some(name), objects := s.objects[name := []]);
    if BodyMeaning(s, a, |body|).Parsed? {
      var u := BodyMeaning(s, a, |body|).scene;
      assert [] + NewRoots(s, u) == NewRoots(s, u);
    }
  }
}
