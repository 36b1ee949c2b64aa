/** Byte-wise order on keys and sorting by it, as std::sort does on string views
    (Source/McpServer.cpp:207-214). */
module KeyOrder {

  predicate Less(a: string, b: string) {
    b != "" && (a == "" || a[0] < b[0] || (a[0] == b[0] && Less(a[1..], b[1..])))
  }

  // The texts agree up to some place where one ends or has the smaller byte.
  predicate DiffersAt(a: string, b: string, i: nat) {
    i <= |a| && i < |b| && a[..i] == b[..i] && (i == |a| || a[i] < b[i])
  }

  lemma Prefix(a: string, i: nat)
    requires 0 < i <= |a|
    ensures a[..i] == [a[0]] + a[1..][..i - 1]
  {
  }

  lemma SameCons(c: char, d: char, s: string, t: string)
    ensures [c] + s == [d] + t <==> c == d && s == t
  {
    assert ([c] + s)[0] == c && ([d] + t)[0] == d && ([c] + s)[1..] == s && ([d] + t)[1..] == t;
  }

  lemma {:induction false} DiffersLater(a: string, b: string, i: nat)
    requires a != "" && b != ""
    ensures i > 0 && DiffersAt(a, b, i) ==> a[0] == b[0] && DiffersAt(a[1..], b[1..], i - 1)
    ensures a[0] == b[0] && DiffersAt(a[1..], b[1..], i) ==> DiffersAt(a, b, i + 1)
  {
    if 0 < i <= |a| && i <= |b| {
      Prefix(a, i);
      Prefix(b, i);
      SameCons(a[0], b[0], a[1..][..i - 1], b[1..][..i - 1]);
    }
    if i < |a| && i < |b| {
      Prefix(a, i + 1);
      Prefix(b, i + 1);
    }
  }

  lemma {:induction false} LessExactly(a: string, b: string)
    ensures Less(a, b) <==> exists i: nat :: DiffersAt(a, b, i)
  {
    if a == "" || b == "" {
      assert b != "" ==> DiffersAt(a, b, 0);
    } else {
      hide DiffersAt;
      FirstDiffers(a, b);
      LessExactly(a[1..], b[1..]);
      if i: nat :| DiffersAt(a, b, i) {
        DiffersLater(a, b, i);
      }
      if i: nat :| DiffersAt(a[1..], b[1..], i) {
        DiffersLater(a, b, i);
      }
    }
  }

  lemma FirstDiffers(a: string, b: string)
    requires a != "" && b != ""
    ensures DiffersAt(a, b, 0) <==> a[0] < b[0]
  {
  }

  lemma {:induction false} LessTotal(a: string, b: string)
    ensures Less(a, b) || Less(b, a) || a == b
  {
    if a != "" && b != "" && a[0] == b[0] {
      LessTotal(a[1..], b[1..]);
      assert a == [a[0]] + a[1..] && b == [b[0]] + b[1..];
    }
  }

  lemma {:induction false} LessTransitive(a: string, b: string, c: string)
    requires Less(a, b) && Less(b, c)
    ensures Less(a, c)
  {
    if a != "" && a[0] == b[0] == c[0] {
      LessTransitive(a[1..], b[1..], c[1..]);
    }
  }

  lemma {:induction false} LessIrreflexive(a: string)
    ensures !Less(a, a)
  {
    if a != "" {
      LessIrreflexive(a[1..]);
    }
  }

  predicate Sorted(keys: seq<string>) {
    forall i, j :: 0 <= i < j < |keys| ==> Less(keys[i], keys[j])
  }

  function Insert(key: string, keys: seq<string>): (r: seq<string>)
    ensures multiset(r) == multiset(keys) + multiset{key}
  {
    if keys == [] || Less(key, keys[0]) then [key] + keys
    else
      assert keys == [keys[0]] + keys[1..];
      [keys[0]] + Insert(key, keys[1..])
  }

  function Sort(keys: seq<string>): (r: seq<string>)
    ensures multiset(r) == multiset(keys)
  {
    if keys == [] then []
    else
      assert keys == [keys[0]] + keys[1..];
      Insert(keys[0], Sort(keys[1..]))
  }

  lemma {:induction false} InsertSorts(key: string, keys: seq<string>)
    requires Sorted(keys) && key !in keys
    ensures Sorted(Insert(key, keys))
  {
    hide Less;
    if keys != [] && Less(key, keys[0]) {
      forall j | 0 <= j < |keys| ensures Less(key, keys[j]) {
        if j > 0 { LessTransitive(key, keys[0], keys[j]); }
      }
    } else if keys != [] {
      LessTotal(key, keys[0]);
      InsertSorts(key, keys[1..]);
      var r := Insert(key, keys[1..]);
      forall j | 0 <= j < |r| ensures Less(keys[0], r[j]) {
        assert r[j] in multiset(r);
        assert r[j] == key || r[j] in keys[1..];
      }
    }
  }

  predicate Distinct(keys: seq<string>) {
    forall i, j :: 0 <= i < j < |keys| ==> keys[i] != keys[j]
  }

  lemma {:induction false} SameMembers(keys: seq<string>)
    ensures forall k :: k in Sort(keys) <==> k in keys
  {
    forall k ensures k in Sort(keys) <==> k in keys {
      assert k in Sort(keys) <==> k in multiset(Sort(keys));
    }
  }

  lemma {:induction false} SortSorts(keys: seq<string>)
    requires Distinct(keys)
    ensures Sorted(Sort(keys))
  {
    hide Less;
    if keys != [] {
      SortSorts(keys[1..]);
      SameMembers(keys[1..]);
      InsertSorts(keys[0], Sort(keys[1..]));
    }
  }

  lemma NotEmpty(a: seq<string>, b: seq<string>)
    requires a != [] && forall k :: k in a <==> k in b
    ensures b != [] && a[0] in b
  {
    assert a[0] in a;
  }

  // A set of keys has one sorted list.
  lemma {:induction false} SortedIsUnique(a: seq<string>, b: seq<string>)
    requires Sorted(a) && Sorted(b) && forall k :: k in a <==> k in b
    ensures a == b
  {
    hide Less;
    if b != [] { NotEmpty(b, a); }
    if a != [] {
      NotEmpty(a, b);
      FirstAgrees(a, b);
      forall k ensures k in a[1..] <==> k in b[1..] {
        FirstOnce(a);
        FirstOnce(b);
        assert k in a <==> k == a[0] || k in a[1..];
        assert k in b <==> k == b[0] || k in b[1..];
      }
      SortedIsUnique(a[1..], b[1..]);
      assert a == [a[0]] + a[1..] && b == [b[0]] + b[1..];
    }
  }

  lemma {:induction false} FirstOnce(a: seq<string>)
    requires Sorted(a) && a != []
    ensures a[0] !in a[1..]
  {
    hide Less;
    LessIrreflexive(a[0]);
    forall i | 0 < i < |a| ensures a[i] != a[0] {
      assert Less(a[0], a[i]);
    }
  }

  lemma {:induction false} FirstAgrees(a: seq<string>, b: seq<string>)
    requires Sorted(a) && Sorted(b) && a != [] && b != [] && a[0] in b && b[0] in a
    ensures a[0] == b[0]
  {
    hide Less;
    if a[0] != b[0] {
      var i :| 0 <= i < |b| && b[i] == a[0];
      var j :| 0 <= j < |a| && a[j] == b[0];
      LessTransitive(a[0], b[0], a[0]);
      LessIrreflexive(a[0]);
    }
  }
}
