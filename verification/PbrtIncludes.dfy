/** Included files stand in the place of their includes (ParseFile and the Include directive,
    Source/PbrtSceneImporter.cpp:1132-1148 and 1172-1182), stated by the pieces of the list that is run. */
module PbrtIncludes {
  import opened Options
  import opened PbrtInstancing
  import opened PbrtStatements
  import opened PbrtParsing

  // The file can be opened and read here.
  predicate Readable(fs: FileSystem, authored: Path, depth: nat, open: set<string>) {
    var path := fs.canonical(authored);
    depth < 64 && path in fs.files && fs.key(path) !in open && fs.files[path].Statements?
  }

  function Joined(pieces: seq<seq<Item>>): seq<Item> {
    if pieces == [] then [] else Joined(pieces[..|pieces| - 1]) + pieces[|pieces| - 1]
  }

  // Piece i is the statement itself with its file's directory, or the whole included file, found from that
  // directory, with the including file open around it.
  predicate IsPiece(fs: FileSystem, path: Path, statement: Statement, depth: nat, open: set<string>, piece: seq<Item>)
    requires depth < 64
  {
    if statement.Include? then
      piece == Flatten(fs, fs.asset(fs.directory(path), statement.file), depth + 1, open + {fs.key(path)})
    else piece == [Do(statement, fs.directory(path))]
  }

  lemma {:induction false} ListInPieces(fs: FileSystem, path: Path, list: seq<Statement>, k: nat, depth: nat,
        open: set<string>)
      returns (pieces: seq<seq<Item>>)
    requires k <= |list| && depth < 64
    ensures FlattenFirst(fs, list, k, fs.directory(path), depth, open + {fs.key(path)}) == Joined(pieces)
    ensures |pieces| == k && forall i :: 0 <= i < k ==> IsPiece(fs, path, list[i], depth, open, pieces[i])
  {
    hide Flatten;
    if k == 0 {
      pieces := [];
    } else {
      var earlier := ListInPieces(fs, path, list, k - 1, depth, open);
      pieces := earlier + [Expand(fs, list[k - 1], fs.directory(path), depth, open + {fs.key(path)})];
      assert pieces[..k - 1] == earlier;
    }
  }

  // A file that can be read is the pieces of its statements in order.
  lemma {:induction false} FileInPieces(fs: FileSystem, authored: Path, depth: nat, open: set<string>)
      returns (pieces: seq<seq<Item>>)
    requires Readable(fs, authored, depth, open)
    ensures Flatten(fs, authored, depth, open) == Joined(pieces)
    ensures var path := fs.canonical(authored);
            var list := fs.files[path].list;
            && |pieces| == |list|
            && forall i :: 0 <= i < |list| ==> IsPiece(fs, path, list[i], depth, open, pieces[i])
  {
    hide IsPiece, FlattenFirst;
    var path := fs.canonical(authored);
    pieces := ListInPieces(fs, path, fs.files[path].list, |fs.files[path].list|, depth, open);
  }

  lemma {:induction false} FirstJoined(pieces: seq<seq<Item>>)
    requires pieces != []
    ensures Joined(pieces) == pieces[0] + Joined(pieces[1..])
  {
    var n := |pieces| - 1;
    if n == 0 {
      assert Joined(pieces[..0]) == [];
    } else {
      var front, rest := pieces[..n], pieces[1..];
      FirstJoined(front);
      assert front[1..] == rest[..n - 1] && front[0] == pieces[0] && rest[n - 1] == pieces[n];
      var middle := Joined(rest[..n - 1]);
      assert (pieces[0] + middle) + pieces[n] == pieces[0] + (middle + pieces[n]);
    }
  }

  // So a file that includes itself fails as a cycle at that statement, if nothing failed before it.
  lemma {:induction false} SelfIncludeIsCycle(fs: FileSystem, s: Scene, authored: Path, depth: nat, open: set<string>)
    requires Readable(fs, authored, depth, open) && depth < 63
    requires var path := fs.canonical(authored);
             && fs.files[path].list != [] && fs.files[path].list[0].Include?
             && fs.canonical(fs.asset(fs.directory(path), fs.files[path].list[0].file)) == path
    ensures Run(s, Flatten(fs, authored, depth, open)) == ParseFailed(IncludeCycle)
  {
    hide Run, Flatten;
    var path := fs.canonical(authored);
    var pieces := FileInPieces(fs, authored, depth, open);
    FirstJoined(pieces);
    var again := fs.asset(fs.directory(path), fs.files[path].list[0].file);
    assert IsPiece(fs, path, fs.files[path].list[0], depth, open, pieces[0]);
    IncludesFail(fs, s, again, depth + 1, open + {fs.key(path)});
    RunConcat(s, pieces[0], Joined(pieces[1..]));
  }

  // ----- ends without begins

  lemma {:induction false} EndsNeedBegins(s: Scene, name: string, d: Path)
    ensures s.attributes == [] ==> Exec(s, AttributeEnd, d) == ParseFailed(UnmatchedAttributeEnd)
    ensures s.transforms == [] ==> Exec(s, TransformEnd, d) == ParseFailed(UnmatchedTransformEnd)
    ensures s.activeObject == None ==> Exec(s, ObjectEnd, d) == ParseFailed(UnmatchedObjectEnd)
    ensures s.activeObject != None ==> Exec(s, ObjectBegin(name), d) == ParseFailed(NestedObject)
    ensures s.activeObject != None && s.attributes == [] ==> Exec(s, ObjectEnd, d) == ParseFailed(CorruptStack)
  {
  }
}
