/** Reading a PBRT file and the files it includes (ParseFile and ParseStatement,
    Source/PbrtSceneImporter.cpp:1132-1148, 1172-1389): the recursive parser does what the flat list
    of statements does that has every include expanded in place. */
module PbrtParsing {
  import opened Options
  import opened PbrtInstancing
  import opened PbrtStatements
  import opened PbrtBlocks

  const MAX_INCLUDE_DEPTH := 64

  // What the file system holds and how paths are made; `Broken` is a file the lexer rejects.
  datatype File = Statements(list: seq<Statement>) | Broken

  datatype FileSystem = FileSystem(
    files: map<Path, File>,
    canonical: Path -> Path,
    directory: Path -> Path,
    asset: (Path, string) -> Path,
    key: Path -> string)

  // The statements of a file with includes expanded, each with the directory of its own file. An
  // include that cannot be followed ends the list.
  function Flatten(fs: FileSystem, authored: Path, depth: nat, open: set<string>): seq<Item>
    requires depth <= MAX_INCLUDE_DEPTH
    decreases MAX_INCLUDE_DEPTH - depth, 1, 0
  {
    var path := fs.canonical(authored);
    if depth == MAX_INCLUDE_DEPTH then [Fail(IncludeTooDeep)]
    else if path !in fs.files then [Fail(FileNotFound)]
    else if fs.key(path) in open then [Fail(IncludeCycle)]
    else
      match fs.files[path]
      case Broken => [Fail(Unreadable)]
      case Statements(list) => FlattenFirst(fs, list, |list|, fs.directory(path), depth, open + {fs.key(path)})
  }

  function FlattenFirst(fs: FileSystem, list: seq<Statement>, k: nat, directory: Path, depth: nat,
        open: set<string>): seq<Item>
    requires k <= |list| && depth < MAX_INCLUDE_DEPTH
    decreases MAX_INCLUDE_DEPTH - depth, 0, k
  {
    if k == 0 then []
    else FlattenFirst(fs, list, k - 1, directory, depth, open) + Expand(fs, list[k - 1], directory, depth, open)
  }

  function Expand(fs: FileSystem, statement: Statement, directory: Path, depth: nat, open: set<string>): seq<Item>
    requires depth < MAX_INCLUDE_DEPTH
    decreases MAX_INCLUDE_DEPTH - depth, 0, 0
  {
    if statement.Include? then Flatten(fs, fs.asset(directory, statement.file), depth + 1, open)
    else [Do(statement, directory)]
  }

  predicate IsTransformDirective(s: Statement) {
    s.WorldBegin? || s.SetTransform? || s.ConcatTransform? || s.CoordinateSystem? || s.CoordSysTransform?
  }

  class PbrtImporter {
    const fs: FileSystem
    var state: Graphics
    var attributeStack: seq<Graphics>
    var transformStack: seq<Matrix>
    var coordinateSystems: map<string, Matrix>
    var textures: map<string, Texture>
    var namedMaterials: map<string, nat>
    var meshes: seq<SceneMesh>
    var activeObject: Option<string>
    var objects: Objects
    var rootElements: seq<Element>
    var includeStack: set<string>

    // All that parsing builds up.
    function Current(): Scene
      reads this
    {
      Scene(state, attributeStack, transformStack, coordinateSystems, textures, namedMaterials, meshes, activeObject,
          objects, rootElements)
    }

    constructor (fs: FileSystem)
      ensures this.fs == fs && includeStack == {}
      ensures Current()
            == Scene(DEFAULT, [], [], map["world" := IDENTITY], map[], map["__default" := 0], [], None, map[], [])
    {
      this.fs := fs;
      state, attributeStack, transformStack := DEFAULT, [], [];
      coordinateSystems, textures, namedMaterials := map["world" := IDENTITY], map[], map["__default" := 0];
      meshes, activeObject, objects, rootElements, includeStack := [], None, map[], [], {};
    }

    method AppendElement(e: Element)
      modifies `objects, `rootElements
      ensures Current() == Append(old(Current()), e)
    {
      if activeObject.Some? {
        var name := activeObject.value;
        objects := objects[name := (if name in objects then objects[name] else []) + [e]];
      } else {
        rootElements := rootElements + [e];
      }
    }

    // A block's begin or end.
    method StackDirective(statement: Statement) returns (error: Option<ParseError>)
      requires IsStackDirective(statement)
      modifies this
      ensures includeStack == old(includeStack)
      ensures match Exec(old(Current()), statement, "")
              case Parsed(t) => error == None && Current() == t
              case ParseFailed(e) => error == Some(e)
    {
      hide Append, Mul;
      error := None;
      match statement
      case AttributeBegin => attributeStack := attributeStack + [state];
      case AttributeEnd =>
        if attributeStack == [] {
          error := Some(UnmatchedAttributeEnd);
        } else {
          state := attributeStack[|attributeStack| - 1];
          attributeStack := attributeStack[..|attributeStack| - 1];
        }
      case TransformBegin => transformStack := transformStack + [state.transform];
      case TransformEnd =>
        if transformStack == [] {
          error := Some(UnmatchedTransformEnd);
        } else {
          state := state.(transform := transformStack[|transformStack| - 1]);
          transformStack := transformStack[..|transformStack| - 1];
        }
      case ObjectBegin(name) =>
        if activeObject.Some? {
          error := Some(NestedObject);
        } else {
          activeObject := Some(name);
          objects := objects[name := []];
          attributeStack := attributeStack + [state];
        }
      case ObjectEnd =>
        if activeObject.None? {
          error := Some(UnmatchedObjectEnd);
        } else if attributeStack == [] {
          error := Some(CorruptStack);
        } else {
          activeObject := None;
          state := attributeStack[|attributeStack| - 1];
          attributeStack := attributeStack[..|attributeStack| - 1];
        }
    }

    // A mesh or an object instance, placed by the current transform.
    method ElementDirective(statement: Statement)
      requires statement.ObjectInstance? || statement.Shape?
      modifies this
      ensures includeStack == old(includeStack)
      ensures Exec(old(Current()), statement, "") == Parsed(Current())
    {
      hide Append, Mul;
      if statement.ObjectInstance? {
        AppendElement(Object(statement.name, state.transform));
      } else if statement.geometry.Some? {
        var meshIndex := |meshes|;
        meshes := meshes
            + [SceneMesh(statement.geometry.value, state.materialIndex, state.reverseOrientation, state.areaLight)];
        AppendElement(Mesh(meshIndex, state.transform));
      }
    }

    method TransformDirective(statement: Statement) returns (error: Option<ParseError>)
      requires IsTransformDirective(statement)
      modifies this
      ensures includeStack == old(includeStack)
      ensures match Exec(old(Current()), statement, "")
              case Parsed(t) => error == None && Current() == t
              case ParseFailed(e) => error == Some(e)
    {
      hide Mul, Append;
      error := None;
      match statement
      case WorldBegin =>
        state := DEFAULT;
        coordinateSystems := coordinateSystems["world" := IDENTITY];
      case SetTransform(m) => state := state.(transform := m);
      case ConcatTransform(m) => state := state.(transform := Mul(m, state.transform));
      case CoordinateSystem(name) => coordinateSystems := coordinateSystems[name := state.transform];
      case CoordSysTransform(name) =>
        if name in coordinateSystems {
          state := state.(transform := coordinateSystems[name]);
        } else {
          error := Some(UnknownCoordinateSystem);
        }
    }

    // Any other statement but an include.
    method AttributeDirective(statement: Statement, directory: Path) returns (error: Option<ParseError>)
      requires !IsStackDirective(statement) && !IsTransformDirective(statement)
      requires !statement.Include? && !statement.ObjectInstance? && !statement.Shape?
      modifies this
      ensures includeStack == old(includeStack)
      ensures match Exec(old(Current()), statement, directory)
              case Parsed(t) => error == None && Current() == t
              case ParseFailed(e) => error == Some(e)
    {
      hide Mul, Append;
      error := None;
      match statement
      case ReverseOrientation => state := state.(reverseOrientation := !state.reverseOrientation);
      case MakeTexture(name, file) => textures := textures[name := Texture(file, directory)];
      case Material(index) => state := state.(materialIndex := index);
      case MakeNamedMaterial(name, index) => namedMaterials := namedMaterials[name := index];
      case NamedMaterial(name) =>
        state := state.(materialIndex := if name in namedMaterials then namedMaterials[name] else 0);
      case AreaLight(radiance) => state := state.(areaLight := radiance);
      case Ignored =>
      case Malformed => error := Some(BadDirective);
    }

    method ParseStatement(statement: Statement, directory: Path, depth: nat) returns (error: Option<ParseError>)
      requires depth < MAX_INCLUDE_DEPTH
      modifies this
      ensures match Run(old(Current()), Expand(fs, statement, directory, depth, old(includeStack)))
              case Parsed(t) => error == None && Current() == t && includeStack == old(includeStack)
              case ParseFailed(e) => error == Some(e)
      decreases MAX_INCLUDE_DEPTH - depth, 0
    {
      hide Exec, IsStackDirective, IsTransformDirective, Flatten, Run;
      if statement.Include? {
        error := ParseFile(fs.asset(directory, statement.file), depth + 1);
      } else {
        RunSingle(Current(), Do(statement, directory));
        DirectoryIsUnused(Current(), statement, directory);
        if IsStackDirective(statement) {
          error := StackDirective(statement);
        } else if statement.ObjectInstance? || statement.Shape? {
          ElementDirective(statement);
          error := None;
        } else if IsTransformDirective(statement) {
          error := TransformDirective(statement);
        } else {
          error := AttributeDirective(statement, directory);
        }
      }
    }

    // Parsing a file is running its flattened statements, and leaves the set of open files as it was.
    // Well-nested statements leave the stacks as they were, and every block restores what it restores.
    method ParseFile(authored: Path, depth: nat) returns (error: Option<ParseError>)
      requires depth <= MAX_INCLUDE_DEPTH
      modifies this
      ensures match Run(old(Current()), Flatten(fs, authored, depth, old(includeStack)))
              case Parsed(t) => error == None && Current() == t && includeStack == old(includeStack)
              case ParseFailed(e) => error == Some(e)
      ensures Nested(Flatten(fs, authored, depth, old(includeStack))) ==>
                match error
                case None =>
                  && attributeStack == old(attributeStack) && transformStack == old(transformStack)
                  && activeObject == old(activeObject)
                case Some(e) => !IsMismatch(e)
      ensures error.None? ==>
                EveryBlockRestores(old(Current()), Flatten(fs, authored, depth, old(includeStack)), Current())
      decreases MAX_INCLUDE_DEPTH - depth, 2
    {
      hide Run, Exec, FlattenFirst, Expand, Nested, EveryBlockRestores, IsMismatch;
      ghost var s0 := Current();
      WhatBlocksKeep(s0, Flatten(fs, authored, depth, includeStack));
      var path := fs.canonical(authored);
      if depth >= MAX_INCLUDE_DEPTH {
        RunSingle(s0, Fail(IncludeTooDeep));
        error := Some(IncludeTooDeep);
      } else if path !in fs.files {
        RunSingle(s0, Fail(FileNotFound));
        error := Some(FileNotFound);
      } else if fs.key(path) in includeStack {
        RunSingle(s0, Fail(IncludeCycle));
        error := Some(IncludeCycle);
      } else if fs.files[path].Broken? {
        RunSingle(s0, Fail(Unreadable));
        error := Some(Unreadable);
      } else {
        includeStack := includeStack + {fs.key(path)};
        error := ParseStatements(fs.files[path].list, fs.directory(path), depth);
        if error.None? {
          includeStack := includeStack - {fs.key(path)};
        }
      }
    }

    method ParseStatements(list: seq<Statement>, directory: Path, depth: nat) returns (error: Option<ParseError>)
      requires depth < MAX_INCLUDE_DEPTH
      modifies this
      ensures match Run(old(Current()), FlattenFirst(fs, list, |list|, directory, depth, old(includeStack)))
              case Parsed(t) => error == None && Current() == t && includeStack == old(includeStack)
              case ParseFailed(e) => error == Some(e)
      decreases MAX_INCLUDE_DEPTH - depth, 1
    {
      hide Run, Expand;
      ghost var s0, open := Current(), includeStack;
      RunNothing(s0);
      var cursor := 0;
      error := None;
      while cursor < |list| && error.None?
        invariant cursor <= |list|
        invariant match Run(s0, FlattenFirst(fs, list, cursor, directory, depth, open))
                  case Parsed(t) => error == None && Current() == t && includeStack == open
                  case ParseFailed(e) => error == Some(e)
      {
        RunConcat(s0, FlattenFirst(fs, list, cursor, directory, depth, open),
            Expand(fs, list[cursor], directory, depth, open));
        error := ParseStatement(list[cursor], directory, depth);
        cursor := cursor + 1;
      }
      if error.Some? {
        StaysFailed(fs, s0, list, cursor, |list|, directory, depth, open);
      }
    }
  }

  // ----- which files are well nested

  // The statements of one file without its includes.
  function OwnItems(list: seq<Statement>, k: nat, directory: Path): seq<Item>
    requires k <= |list|
  {
    if k == 0 then []
    else OwnItems(list, k - 1, directory) + if list[k - 1].Include? then [] else [Do(list[k - 1], directory)]
  }

  // Every file included directly flattens to a well-nested list.
  predicate IncludesNest(fs: FileSystem, list: seq<Statement>, directory: Path, depth: nat, open: set<string>)
    requires depth < MAX_INCLUDE_DEPTH
  {
    forall i :: 0 <= i < |list| && list[i].Include? ==>
      Nested(Flatten(fs, fs.asset(directory, list[i].file), depth + 1, open))
  }

  lemma {:induction false} IncludesAreTransparent(fs: FileSystem, list: seq<Statement>, k: nat, directory: Path,
        depth: nat, open: set<string>)
    requires k <= |list| && depth < MAX_INCLUDE_DEPTH && IncludesNest(fs, list, directory, depth, open)
    ensures Scan(FlattenFirst(fs, list, k, directory, depth, open), []) == Scan(OwnItems(list, k, directory), [])
  {
    hide Flatten, Nested, Scan;
    if k > 0 {
      IncludesAreTransparent(fs, list, k - 1, directory, depth, open);
      var own := if list[k - 1].Include? then [] else [Do(list[k - 1], directory)];
      var expanded := Expand(fs, list[k - 1], directory, depth, open);
      ScanConcat(FlattenFirst(fs, list, k - 1, directory, depth, open), expanded, []);
      ScanConcat(OwnItems(list, k - 1, directory), own, []);
      if list[k - 1].Include? {
        NestedScans(expanded);
        ScanNothing();
      }
    }
  }

  lemma ScanNothing()
    ensures forall open :: Scan([], open) == Some(open)
  {
  }

  // Around well-nested includes a file is well nested exactly when its own statements are.
  lemma {:induction false} NestedFile(fs: FileSystem, authored: Path, depth: nat, open: set<string>)
    requires depth < MAX_INCLUDE_DEPTH
    requires var path := fs.canonical(authored);
             && path in fs.files && fs.key(path) !in open && fs.files[path].Statements?
             && IncludesNest(fs, fs.files[path].list, fs.directory(path), depth, open + {fs.key(path)})
    ensures var path := fs.canonical(authored);
            var list := fs.files[path].list;
            Nested(Flatten(fs, authored, depth, open)) <==> Nested(OwnItems(list, |list|, fs.directory(path)))
  {
    hide Nested, Scan, OwnItems, FlattenFirst, IncludesNest;
    var path := fs.canonical(authored);
    var list := fs.files[path].list;
    IncludesAreTransparent(fs, list, |list|, fs.directory(path), depth, open + {fs.key(path)});
    NestedScans(Flatten(fs, authored, depth, open));
    NestedScans(OwnItems(list, |list|, fs.directory(path)));
  }

  // ----- what parsing keeps

  lemma WhatBlocksKeep(s: Scene, items: seq<Item>)
    ensures Nested(items) ==>
              match Run(s, items)
              case Parsed(t) =>
                t.attributes == s.attributes && t.transforms == s.transforms && t.activeObject == s.activeObject
              case ParseFailed(error) => !IsMismatch(error)
    ensures Run(s, items).Parsed? ==> EveryBlockRestores(s, items, Run(s, items).scene)
  {
    hide *;
    if Nested(items) {
      NestedKeepsStacks(s, items);
    }
    if Run(s, items).Parsed? {
      EveryBlock(s, items);
    }
  }

  lemma DirectoryIsUnused(s: Scene, statement: Statement, directory: Path)
    ensures !statement.MakeTexture? ==> Exec(s, statement, directory) == Exec(s, statement, "")
    ensures IsStackDirective(statement) || IsTransformDirective(statement) ==> !statement.MakeTexture?
  {
  }

  lemma {:induction false} StaysFailed(fs: FileSystem, s: Scene, list: seq<Statement>, k: nat, n: nat, directory: Path,
        depth: nat, open: set<string>)
    requires k <= n <= |list| && depth < MAX_INCLUDE_DEPTH
    requires Run(s, FlattenFirst(fs, list, k, directory, depth, open)).ParseFailed?
    ensures Run(s, FlattenFirst(fs, list, n, directory, depth, open))
          == Run(s, FlattenFirst(fs, list, k, directory, depth, open))
  {
    hide Run, Expand;
    if k < n {
      StaysFailed(fs, s, list, k, n - 1, directory, depth, open);
      RunConcat(s, FlattenFirst(fs, list, n - 1, directory, depth, open),
          Expand(fs, list[n - 1], directory, depth, open));
    }
  }

  // ----- includes that cannot be followed

  // An include fails at the 64th level, for a file that is not there, that is open already, or that the
  // lexer rejects, in this order.
  lemma {:induction false} IncludesFail(fs: FileSystem, s: Scene, authored: Path, depth: nat, open: set<string>)
    requires depth <= 64
    ensures var path, r := fs.canonical(authored), Run(s, Flatten(fs, authored, depth, open));
            && (depth == 64 ==> r == ParseFailed(IncludeTooDeep))
            && (depth < 64 && path !in fs.files ==> r == ParseFailed(FileNotFound))
            && (depth < 64 && path in fs.files && fs.key(path) in open ==> r == ParseFailed(IncludeCycle))
            && (depth < 64 && path in fs.files && fs.key(path) !in open && fs.files[path].Broken? ==>
                  r == ParseFailed(Unreadable))
  {
    hide Run, FlattenFirst;
    RunSingle(s, Fail(IncludeTooDeep));
    RunSingle(s, Fail(FileNotFound));
    RunSingle(s, Fail(IncludeCycle));
    RunSingle(s, Fail(Unreadable));
  }
}
