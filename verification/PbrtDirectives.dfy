/** What single PBRT statements mean for what follows them (the branches of ParseStatement outside the
    stack directives, Source/PbrtSceneImporter.cpp:1183-1389): where points go, what a mesh remembers, and
    what a name brings back. */
module PbrtDirectives {
  import opened Options
  import opened PbrtInstancing
  import opened PbrtStatements
  import opened PbrtPlacement

  // Only the graphics state differs.
  predicate OnlyGraphics(s: Scene, t: Scene) {
    t == s.(graphics := t.graphics)
  }

  // The transform that is set replaces the current one; one that is concatenated takes a point first.
  lemma {:induction false} TransformsApply(s: Scene, m: Matrix, d: Path, v: Row)
    ensures Exec(s, SetTransform(m), d).Parsed? && Exec(s, ConcatTransform(m), d).Parsed?
    ensures var t, u := Exec(s, SetTransform(m), d).scene, Exec(s, ConcatTransform(m), d).scene;
            && OnlyGraphics(s, t) && OnlyGraphics(s, u)
            && t.graphics == s.graphics.(transform := m) && u.graphics == s.graphics.(transform := u.graphics.transform)
            && Apply(v, t.graphics.transform) == Apply(v, m)
            && Apply(v, u.graphics.transform) == Apply(Apply(v, m), s.graphics.transform)
  {
    hide Apply, Mul;
    Both(v, m, s.graphics.transform);
  }

  lemma Both(v: Row, a: Matrix, b: Matrix)
    ensures Apply(v, Mul(a, b)) == Apply(Apply(v, a), b)
  {
    hide *;
    MulIsBoth(v, a, b);
  }

  // A named coordinate system brings back the transform it was given under, whatever was set since;
  // an unknown name fails.
  lemma {:induction false} SystemsReturn(s: Scene, name: string, m: Matrix, d: Path)
    ensures var saved := Exec(s, CoordinateSystem(name), d);
            && saved.Parsed? && saved.scene.graphics == s.graphics
            && var moved := Exec(saved.scene, SetTransform(m), d);
               && moved.Parsed? && Exec(moved.scene, CoordSysTransform(name), d) == saved
    ensures Exec(s, CoordSysTransform(name), d) == ParseFailed(UnknownCoordinateSystem) <==>
            name !in s.coordinateSystems
  {
  }

  // The world begins with the identity, the first material, no reversal and no light, and its name.
  lemma {:induction false} WorldStartsAfresh(s: Scene, d: Path, v: Row)
    ensures var r := Exec(s, WorldBegin, d);
            && r.Parsed? && Apply(v, r.scene.graphics.transform) == v
            && r.scene.graphics.materialIndex == 0 && !r.scene.graphics.reverseOrientation
            && r.scene.graphics.areaLight == None
            && Exec(r.scene, CoordSysTransform("world"), d) == r
            && r.scene == s.(graphics := r.scene.graphics, coordinateSystems := r.scene.coordinateSystems)
            && (forall name :: name != "world" ==>
                  (name in r.scene.coordinateSystems <==> name in s.coordinateSystems))
            && (forall name :: name != "world" && name in s.coordinateSystems ==>
                  r.scene.coordinateSystems[name] == s.coordinateSystems[name])
  {
    hide Apply;
    IdentityKeeps(v);
  }

  // Orientation turns with each statement, and back with the second.
  lemma {:induction false} OrientationTurns(s: Scene, d: Path)
    ensures var r := Exec(s, ReverseOrientation, d);
            && r.Parsed? && OnlyGraphics(s, r.scene)
            && r.scene.graphics.reverseOrientation != s.graphics.reverseOrientation
            && Exec(r.scene, ReverseOrientation, d) == Parsed(s)
  {
  }

  // A named material brings back the index it was made with; an unknown name the first material.
  lemma {:induction false} MaterialsReturn(s: Scene, name: string, index: nat, other: nat, d: Path)
    ensures var made := Exec(s, MakeNamedMaterial(name, index), d);
            && made.Parsed? && made.scene.graphics == s.graphics
            && var changed := Exec(made.scene, Material(other), d);
               && changed.Parsed? && changed.scene.graphics == s.graphics.(materialIndex := other)
               && Exec(changed.scene, NamedMaterial(name), d)
                   == Parsed(made.scene.(graphics := s.graphics.(materialIndex := index)))
    ensures name !in s.namedMaterials ==>
              Exec(s, NamedMaterial(name), d) == Parsed(s.(graphics := s.graphics.(materialIndex := 0)))
  {
  }

  lemma {:induction false} LightsStay(s: Scene, radiance: Option<real>, d: Path)
    ensures Exec(s, AreaLight(radiance), d) == Parsed(s.(graphics := s.graphics.(areaLight := radiance)))
  {
  }

  // A texture remembers the directory of the file it was made in.
  lemma {:induction false} TexturesRemember(s: Scene, name: string, file: string, d: Path, other: string)
    ensures var r := Exec(s, MakeTexture(name, file), d);
            && r.Parsed? && name in r.scene.textures && r.scene.textures[name].file == file
            && r.scene.textures[name].sourceDirectory == d
            && r.scene == s.(textures := r.scene.textures)
            && (other != name ==> (other in r.scene.textures <==> other in s.textures))
            && (other != name && other in s.textures ==> r.scene.textures[other] == s.textures[other])
  {
  }

  // What the scene's elements are being added to.
  function Destination(s: Scene): seq<Element> {
    match s.activeObject
    case None => s.rootElements
    case Some(name) => if name in s.objects then s.objects[name] else []
  }

  // The element is added at the end of its destination, and nothing else there changes.
  ghost predicate Added(s: Scene, t: Scene, e: Element) {
    && Destination(t) == Destination(s) + [e] && t.activeObject == s.activeObject
    && (s.activeObject.Some? ==> t.rootElements == s.rootElements)
    && (forall name :: Some(name) != s.activeObject ==> (name in t.objects <==> name in s.objects))
    && (forall name :: Some(name) != s.activeObject && name in s.objects ==>
          name in t.objects && t.objects[name] == s.objects[name])
  }

  // A shape becomes the next mesh, under the material, orientation and light of its place, and an
  // element with the current transform; a shape that is skipped changes nothing.
  lemma {:induction false} ShapesRemember(s: Scene, geometry: string, d: Path)
    ensures var r := Exec(s, Shape(Some(geometry)), d);
            && r.Parsed? && |r.scene.meshes| == |s.meshes| + 1 && r.scene.meshes[..|s.meshes|] == s.meshes
            && var mesh := r.scene.meshes[|s.meshes|];
               && mesh.geometry == geometry && mesh.materialIndex == s.graphics.materialIndex
               && mesh.reverseOrientation == s.graphics.reverseOrientation && mesh.areaLight == s.graphics.areaLight
  {
  }

  lemma {:induction false} ShapesAreAdded(s: Scene, geometry: string, d: Path)
    ensures var r := Exec(s, Shape(Some(geometry)), d);
            && r.Parsed? && Added(s, r.scene, Mesh(|s.meshes|, s.graphics.transform)) && r.scene.graphics == s.graphics
  {
  }

  lemma SkippedShapes(s: Scene, d: Path)
    ensures Exec(s, Shape(None), d) == Parsed(s) && Exec(s, Ignored, d) == Parsed(s)
    ensures Exec(s, Malformed, d) == ParseFailed(BadDirective)
  {
  }

  lemma {:induction false} InstancesAdd(s: Scene, name: string, d: Path)
    ensures var r := Exec(s, ObjectInstance(name), d);
            && r.Parsed? && Added(s, r.scene, Object(name, s.graphics.transform)) && r.scene.graphics == s.graphics
            && r.scene.meshes == s.meshes
  {
  }
}
