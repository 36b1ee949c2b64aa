/** Blocks in what a PBRT file says: which statement lists are well nested, and what every block in
    any list restores (the stack directives, Source/PbrtSceneImporter.cpp:1189-1208 and 1363-1379). */
module PbrtBlocks {
  import opened Options
  import opened PbrtStatements

  // ----- lists of blocks

  predicate AllNested(ts: seq<Tree>) {
    forall i :: 0 <= i < |ts| ==> WellNested(ts[i])
  }

  // The statements of several trees: what a block around them has between its begin and its end.
  function Around(ts: seq<Tree>): Tree {
    Attribute("", ts, "")
  }

  function ForestItems(ts: seq<Tree>): seq<Item> {
    BodyItems(Around(ts), |ts|)
  }

  lemma {:induction false} SameBodySameItems(a: Tree, b: Tree, k: nat)
    requires !a.Leaf? && !b.Leaf? && k <= |a.body| && k <= |b.body| && a.body[..k] == b.body[..k]
    ensures BodyItems(a, k) == BodyItems(b, k)
  {
    hide Items;
    if k > 0 {
      assert a.body[..k - 1] == a.body[..k][..k - 1] && b.body[..k - 1] == b.body[..k][..k - 1];
      assert a.body[k - 1] == a.body[..k][k - 1] && b.body[k - 1] == b.body[..k][k - 1];
      SameBodySameItems(a, b, k - 1);
    }
  }

  lemma LastItems(t: Tree, k: nat)
    requires !t.Leaf? && 0 < k <= |t.body|
    ensures BodyItems(t, k) == BodyItems(t, k - 1) + Items(t.body[k - 1])
  {
    hide Items;
  }

  lemma NoItems(t: Tree)
    requires !t.Leaf?
    ensures BodyItems(t, 0) == []
  {
  }

  lemma {:induction false} ForestCons(first: Tree, ts: seq<Tree>, k: nat)
    requires k <= |ts|
    ensures BodyItems(Around([first] + ts), k + 1) == Items(first) + BodyItems(Around(ts), k)
  {
    hide Items, BodyItems;
    var all, rest := Around([first] + ts), Around(ts);
    LastItems(all, k + 1);
    if k > 0 {
      LastItems(rest, k);
      ForestCons(first, ts, k - 1);
    } else {
      NoItems(all);
      NoItems(rest);
    }
  }

  // ----- recognising them

  predicate IsEnd(s: Statement) {
    s.AttributeEnd? || s.TransformEnd? || s.ObjectEnd?
  }

  // The block that a begin and an end make, if they belong together.
  function Block(first: Statement, begin: Path, body: seq<Tree>, last: Item): Option<Tree>
    requires IsStackDirective(first) && !IsEnd(first)
  {
    if last.Fail? then None
    else if first.AttributeBegin? && last.statement.AttributeEnd? then Some(Attribute(begin, body, last.directory))
    else if first.TransformBegin? && last.statement.TransformEnd? then Some(Transformed(begin, body, last.directory))
    else if first.ObjectBegin? && last.statement.ObjectEnd? then
      Some(Definition(begin, first.name, body, last.directory))
    else None
  }

  // Takes trees off the front of a list, up to an end that belongs to an enclosing block or to none.
  function Nest(items: seq<Item>): (r: Option<(seq<Tree>, seq<Item>)>)
    ensures r.Some? ==> |r.value.1| <= |items|
    ensures r.Some? && r.value.1 != [] ==> r.value.1[0].Do? && IsEnd(r.value.1[0].statement)
    decreases |items|
  {
    if items == [] then Some(([], []))
    else if items[0].Fail? then None
    else if IsEnd(items[0].statement) then Some(([], items))
    else
      match Nest(items[1..])
      case None => None
      case Some((ts, rest)) =>
        if !IsStackDirective(items[0].statement) then
          Some(([Leaf(items[0].statement, items[0].directory)] + ts, rest))
        else if rest == [] then None
        else
          match Block(items[0].statement, items[0].directory, ts, rest[0])
          case None => None
          case Some(block) => Prepend([block], Nest(rest[1..]))
  }

  function Prepend(ts: seq<Tree>, r: Option<(seq<Tree>, seq<Item>)>): Option<(seq<Tree>, seq<Item>)> {
    match r
    case None => None
    case Some((more, rest)) => Some((ts + more, rest))
  }

  // What is taken off are well-nested trees, and their statements.
  lemma {:induction false} NestIsSound(items: seq<Item>)
    requires Nest(items).Some?
    ensures AllNested(Nest(items).value.0)
    ensures items == ForestItems(Nest(items).value.0) + Nest(items).value.1
    decreases |items|
  {
    hide BodyItems, Block, AllNested, ForestItems;
    if items == [] || IsEnd(items[0].statement) {
      ForestNothing();
    } else {
      NestIsSound(items[1..]);
      var (ts, rest) := Nest(items[1..]).value;
      if !IsStackDirective(items[0].statement) {
        LeafFirst(items, ts, rest);
      } else {
        NestIsSound(rest[1..]);
        var (more, after) := Nest(rest[1..]).value;
        BlockFirst(items, ts, rest, more, after);
      }
    }
  }

  lemma ForestNothing()
    ensures ForestItems([]) == [] && AllNested([])
  {
  }

  lemma {:induction false} LeafFirst(items: seq<Item>, ts: seq<Tree>, rest: seq<Item>)
    requires items != [] && items[0].Do? && !IsStackDirective(items[0].statement)
    requires AllNested(ts) && items[1..] == ForestItems(ts) + rest
    ensures var leaf := Leaf(items[0].statement, items[0].directory);
            AllNested([leaf] + ts) && items == ForestItems([leaf] + ts) + rest
  {
    hide BodyItems;
    var leaf := Leaf(items[0].statement, items[0].directory);
    ForestCons(leaf, ts, |ts|);
    assert WellNested(leaf) && Items(leaf) == [items[0]];
    assert items == [items[0]] + items[1..];
  }

  lemma {:induction false} BlockFirst(items: seq<Item>, ts: seq<Tree>, rest: seq<Item>, more: seq<Tree>,
        after: seq<Item>)
    requires items != [] && items[0].Do? && IsStackDirective(items[0].statement) && !IsEnd(items[0].statement)
    requires AllNested(ts) && rest != [] && items[1..] == ForestItems(ts) + rest
    requires AllNested(more) && rest[1..] == ForestItems(more) + after
    requires Block(items[0].statement, items[0].directory, ts, rest[0]).Some?
    ensures var block := Block(items[0].statement, items[0].directory, ts, rest[0]).value;
            AllNested([block] + more) && items == ForestItems([block] + more) + after
  {
    hide BodyItems, Block, Items, WellNested;
    var block := Block(items[0].statement, items[0].directory, ts, rest[0]).value;
    BlockItems(items[0], ts, rest[0]);
    ForestCons(block, more, |more|);
    assert items == [items[0]] + items[1..] && rest == [rest[0]] + rest[1..];
  }

  lemma {:induction false} BlockItems(first: Item, ts: seq<Tree>, last: Item)
    requires first.Do? && IsStackDirective(first.statement) && !IsEnd(first.statement)
    requires Block(first.statement, first.directory, ts, last).Some? && AllNested(ts)
    ensures var block := Block(first.statement, first.directory, ts, last).value;
            WellNested(block) && Items(block) == [first] + ForestItems(ts) + [last]
  {
    hide BodyItems;
    var block := Block(first.statement, first.directory, ts, last).value;
    SameBodySameItems(block, Around(ts), |ts|);
  }

  // And every well-nested tree is taken off, whatever comes after it.
  lemma {:induction false} NestIsComplete(t: Tree, rest: seq<Item>)
    requires WellNested(t)
    ensures Nest(Items(t) + rest) == Prepend([t], Nest(rest))
    decreases t, 1, 0
  {
    hide BodyItems, Nest;
    var items := Items(t) + rest;
    if t.Leaf? {
      assert items[1..] == rest;
      NestLeaf(items);
    } else {
      var last := Do(Closing(t), t.end);
      var inside := BodyItems(t, |t.body|) + ([last] + rest);
      assert items == [Do(Opening(t), t.begin)] + inside;
      assert items[1..] == inside;
      NestBody(t, |t.body|, [last] + rest);
      NestEnd([last] + rest);
      assert t.body[..|t.body|] + [] == t.body;
      assert ([last] + rest)[1..] == rest;
      NestBlock(items);
    }
  }

  lemma {:induction false} NestLeaf(items: seq<Item>)
    requires items != [] && items[0].Do? && !IsStackDirective(items[0].statement)
    ensures Nest(items) == Prepend([Leaf(items[0].statement, items[0].directory)], Nest(items[1..]))
  {
  }

  lemma {:induction false} NestEnd(items: seq<Item>)
    requires items != [] && items[0].Do? && IsEnd(items[0].statement)
    ensures Nest(items) == Some(([], items))
  {
  }

  lemma {:induction false} NestBlock(items: seq<Item>)
    requires items != [] && items[0].Do? && IsStackDirective(items[0].statement) && !IsEnd(items[0].statement)
    requires Nest(items[1..]).Some? && Nest(items[1..]).value.1 != []
    ensures var (ts, rest) := Nest(items[1..]).value;
            var block := Block(items[0].statement, items[0].directory, ts, rest[0]);
            block.Some? ==> Nest(items) == Prepend([block.value], Nest(rest[1..]))
  {
  }

  lemma {:induction false} NestBody(t: Tree, k: nat, rest: seq<Item>)
    requires !t.Leaf? && WellNested(t) && k <= |t.body|
    ensures Nest(BodyItems(t, k) + rest) == Prepend(t.body[..k], Nest(rest))
    decreases t, 0, k
  {
    hide Items, Nest;
    if k == 0 {
      assert BodyItems(t, k) + rest == rest && t.body[..k] == [];
      if Nest(rest).Some? {
        assert t.body[..k] + Nest(rest).value.0 == Nest(rest).value.0;
      }
    } else {
      var x := t.body[k - 1];
      assert BodyItems(t, k) + rest == BodyItems(t, k - 1) + (Items(x) + rest);
      NestBody(t, k - 1, Items(x) + rest);
      NestIsComplete(x, rest);
      assert t.body[..k] == t.body[..k - 1] + [x];
      if Nest(rest).Some? {
        assert t.body[..k - 1] + ([x] + Nest(rest).value.0) == t.body[..k] + Nest(rest).value.0;
      }
    }
  }

  // The blocks of the list are well nested.
  predicate Nested(items: seq<Item>) {
    Nest(items).Some? && Nest(items).value.1 == []
  }

  // This decides whether the list is that of some well-nested trees.
  lemma {:induction false} NestedExactly(items: seq<Item>)
    ensures Nested(items) <==> exists ts :: AllNested(ts) && items == ForestItems(ts)
  {
    hide Nest, BodyItems;
    if Nested(items) {
      NestIsSound(items);
      var ts := Nest(items).value.0;
      assert AllNested(ts) && items == ForestItems(ts);
    }
    if ts :| AllNested(ts) && items == ForestItems(ts) {
      assert WellNested(Around(ts));
      NestBody(Around(ts), |ts|, []);
      assert items + [] == items;
      NestNothing();
    }
  }

  lemma NestNothing()
    ensures Nest([]) == Some(([], []))
  {
  }

  // ----- the same with a stack of open blocks

  predicate Closes(first: Statement, last: Statement) {
    || (first.AttributeBegin? && last.AttributeEnd?)
    || (first.TransformBegin? && last.TransformEnd?)
    || (first.ObjectBegin? && last.ObjectEnd?)
  }

  // The blocks open after an item, or None for an end that closes none and for a failure.
  function ScanOne(item: Item, open: seq<Statement>): Option<seq<Statement>> {
    if item.Fail? then None
    else if IsEnd(item.statement) then
      if open != [] && Closes(open[|open| - 1], item.statement) then Some(open[..|open| - 1]) else None
    else if IsStackDirective(item.statement) then Some(open + [item.statement])
    else Some(open)
  }

  function Scan(items: seq<Item>, open: seq<Statement>): Option<seq<Statement>>
    decreases |items|
  {
    if items == [] then Some(open)
    else
      match ScanOne(items[0], open)
      case None => None
      case Some(now) => Scan(items[1..], now)
  }

  lemma {:induction false} ScanConcat(a: seq<Item>, b: seq<Item>, open: seq<Statement>)
    ensures Scan(a + b, open) ==
              match Scan(a, open)
              case None => None
              case Some(now) => Scan(b, now)
    decreases |a|
  {
    hide ScanOne;
    if a == [] {
      assert a + b == b;
    } else {
      assert (a + b)[1..] == a[1..] + b;
      if ScanOne(a[0], open).Some? {
        ScanConcat(a[1..], b, ScanOne(a[0], open).value);
      }
    }
  }

  // A well-nested block leaves open what was open before.
  lemma {:induction false} TreeScans(t: Tree, open: seq<Statement>)
    requires WellNested(t)
    ensures Scan(Items(t), open) == Some(open)
    decreases t, 1, 0
  {
    hide BodyItems, Scan, WellNested;
    if t.Leaf? {
      assert !IsStackDirective(t.statement) by { LeafIsNone(t); }
      ScanSingle(Do(t.statement, t.directory), open);
    } else {
      var now := open + [Opening(t)];
      var first, body, last := Do(Opening(t), t.begin), BodyItems(t, |t.body|), Do(Closing(t), t.end);
      assert now[..|now| - 1] == open;
      ScanSingle(first, open);
      BodyScans(t, |t.body|, now);
      ScanSingle(last, now);
      ScanConcat([first] + body, [last], open);
      ScanConcat([first], body, open);
    }
  }

  lemma LeafIsNone(t: Tree)
    requires t.Leaf? && WellNested(t)
    ensures !IsStackDirective(t.statement)
  {
  }

  lemma ScanSingle(item: Item, open: seq<Statement>)
    ensures Scan([item], open) == ScanOne(item, open)
  {
    hide ScanOne;
    assert [item][1..] == [];
  }

  lemma {:induction false} BodyScans(t: Tree, k: nat, open: seq<Statement>)
    requires !t.Leaf? && WellNested(t) && k <= |t.body|
    ensures Scan(BodyItems(t, k), open) == Some(open)
    decreases t, 0, k
  {
    hide Items, ScanOne, BodyItems;
    if k == 0 {
      NoItems(t);
    } else {
      LastItems(t, k);
      BodyScans(t, k - 1, open);
      TreeScans(t.body[k - 1], open);
      ScanConcat(BodyItems(t, k - 1), Items(t.body[k - 1]), open);
    }
  }

  // Where a list closes all that is open, trees are taken off up to the end of the innermost block.
  lemma {:induction false} ScannedNests(items: seq<Item>, open: seq<Statement>)
    requires Scan(items, open) == Some([])
    ensures Nest(items).Some?
    ensures var rest := Nest(items).value.1;
            if open == [] then rest == []
            else rest != [] && Closes(open[|open| - 1], rest[0].statement) && Scan(rest, open) == Some([])
    decreases |items|
  {
    if items != [] && !IsEnd(items[0].statement) {
      var s := items[0].statement;
      if IsStackDirective(s) {
        var now := open + [s];
        ScannedNests(items[1..], now);
        var rest := Nest(items[1..]).value.1;
        assert now[|now| - 1] == s && now[..|now| - 1] == open;
        ScannedNests(rest[1..], open);
      } else {
        ScannedNests(items[1..], open);
      }
    }
  }

  // A list is well nested exactly when every end closes the innermost open block and none stays open.
  lemma {:induction false} NestedScans(items: seq<Item>)
    ensures Nested(items) <==> Scan(items, []) == Some([])
    ensures Nested(items) ==> forall open :: Scan(items, open) == Some(open)
  {
    hide Nest, Scan, BodyItems;
    if Nested(items) {
      NestIsSound(items);
      var ts := Nest(items).value.0;
      assert items == ForestItems(ts) && WellNested(Around(ts));
      forall open ensures Scan(items, open) == Some(open) {
        BodyScans(Around(ts), |ts|, open);
      }
    }
    if Scan(items, []) == Some([]) {
      ScannedNests(items, []);
    }
  }

  // ----- what the blocks keep

  // Well-nested statements leave the stacks and the object being defined as they were, and never
  // fail for a mismatch.
  lemma {:induction false} NestedKeepsStacks(s: Scene, items: seq<Item>)
    requires Nested(items)
    ensures match Run(s, items)
            case Parsed(t) =>
              t.attributes == s.attributes && t.transforms == s.transforms && t.activeObject == s.activeObject
            case ParseFailed(error) => !IsMismatch(error)
  {
    hide Run, BodyItems, BodyMeaning, Nest, IsMismatch;
    NestIsSound(items);
    var ts := Nest(items).value.0;
    assert items == ForestItems(ts);
    var t := Around(ts);
    assert WellNested(t);
    StacksImplementBody(s, t, |ts|);
    BodyKeepsObject(s, t, |ts|);
    if BodyMeaning(s, t, |ts|).Parsed? {
      BodyKeepsStacks(s, t, |ts|);
    }
  }

  // The block `tree` stands after `before`; running it there leaves the stacks as they were and
  // restores what its kind restores, and `after` then gives the end of the run.
  ghost predicate BlockRestores(s: Scene, before: seq<Item>, tree: Tree, after: seq<Item>, end: Scene) {
    && Run(s, before).Parsed?
    && var a := Run(s, before).scene;
       && Run(a, Items(tree)).Parsed?
       && var b := Run(a, Items(tree)).scene;
          && b.attributes == a.attributes && b.transforms == a.transforms && b.activeObject == a.activeObject
          && Restored(tree, a, b) && Run(b, after) == Parsed(end)
  }

  // This for every block in the list, at any depth and whatever the rest of the list is.
  ghost predicate EveryBlockRestores(s: Scene, items: seq<Item>, end: Scene) {
    forall before, tree, after :: WellNested(tree) && items == before + Items(tree) + after ==>
      BlockRestores(s, before, tree, after, end)
  }

  lemma {:induction false} EveryBlock(s: Scene, items: seq<Item>)
    requires Run(s, items).Parsed?
    ensures EveryBlockRestores(s, items, Run(s, items).scene)
  {
    hide Run, Items, Restored, WellNested;
    forall before, tree, after | WellNested(tree) && items == before + Items(tree) + after
      ensures BlockRestores(s, before, tree, after, Run(s, items).scene)
    {
      RunConcat(s, before + Items(tree), after);
      RunConcat(s, before, Items(tree));
      BlocksRestore(Run(s, before).scene, tree);
    }
  }
}
