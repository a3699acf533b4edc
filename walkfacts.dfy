/** Properties of the walk the program performs: `Visit` instantiated with the
    walker's own classifier `Walker(s)`. */
module WalkFacts {
  import opened Wrappers
  import opened Bytes
  import opened NameOrder
  import opened Walk
  import opened PreOrder

  // ---------------------------------------------------------------------------
  // The walker terminates: its depth is bounded by the file system's
  // ---------------------------------------------------------------------------

  /** The length of the longest path in `paths`. */
  ghost function MaxLength(paths: set<Path>): (m: nat)
    ensures forall p :: p in paths ==> |p| <= m
    decreases paths
  {
    if paths == {} then 0
    else
      var p :| p in paths;
      var m := MaxLength(paths - {p});
      if |p| > m then |p| else m
  }

  /** One more than the longest path of the file system: nothing deeper can
      be stat'ed, so nothing deeper yields an item. */
  ghost function Depth(s: Settings): nat
  {
    MaxLength(s.fs.Keys) + 1
  }

  lemma WalkerBounded(s: Settings)
    ensures Bounded(Walker(s), Depth(s))
  {
    forall p | Walker(s)(p).Emit?
      ensures |p| < Depth(s)
    {
      assert Walker(s)(p) == Classify(s, p);
    }
  }

  /** The items of the walk of the tree at `p`. */
  ghost function Walked(s: Settings, p: Path): Trace
  {
    WalkerBounded(s);
    Visit(Walker(s), Depth(s), p)
  }

  /** Calling `next` on the iterator `main` creates, with `[root]` as its
      stack, yields the items of `Walked(s, root)` in order and then returns
      `None`, or panics with the walk's error. */
  lemma IteratorYieldsWalk(s: Settings, root: Path)
    ensures var t := Walked(s, root);
            var r := Pull(Walker(s), [root], |t.items| + 1);
            r.items == t.items && r.end == Some(if t.error.Some? then Abort(t.error.value) else Exhausted)
  {
    WalkerBounded(s);
    WalkIsVisit(Walker(s), Depth(s), root);
  }

  // ---------------------------------------------------------------------------
  // What every yielded item satisfies
  // ---------------------------------------------------------------------------

  /** `item` was yielded from the tree at `p`: its path is at or below `p` and
      was stat'ed, `relpath` is the path without the base directory, every
      component below `p` is an allowed name, its kind matches its node, and
      a directory item, when empty directories are ignored, has an allowed
      entry. */
  ghost predicate ItemWithin(s: Settings, p: Path, item: DirWalkItem)
  {
    && p <= item.abspath
    && item.abspath in s.fs
    && s.basedir <= item.abspath
    && item.relpath == item.abspath[|s.basedir|..]
    && (forall k :: |p| <= k < |item.abspath| ==> !s.excluded(item.abspath[k]))
    && MatchesNode(s, item)
    && (item.typ.Directory? && s.emptyDirsIgnored ==> Filter(s.excluded, s.fs[item.abspath].listing) != [])
  }

  /** The item's kind and size are those of its node: a file's own size, no
      size for a directory, and for a symbolic link (met only when links do
      not abort the walk) the resolved target and that target's size. */
  ghost predicate MatchesNode(s: Settings, item: DirWalkItem)
    requires item.abspath in s.fs
  {
    var node := s.fs[item.abspath];
    match item.typ
    case Directory => node.DirNode? && item.size == None
    case File => node.FileNode? && item.size == Some(node.size)
    case SymlinkToFile(t) =>
      && !s.symlinksShouldAbort && node == SymlinkNode(t) && t in s.fs
      && s.fs[t].FileNode? && item.size == Some(s.fs[t].size)
    case SymlinkToDirectory(t) =>
      && !s.symlinksShouldAbort && node == SymlinkNode(t) && t in s.fs
      && s.fs[t].DirNode? && item.size == Some(s.fs[t].statSize)
  }

  ghost predicate AllWithin(s: Settings, p: Path, items: seq<DirWalkItem>)
  {
    forall i :: 0 <= i < |items| ==> ItemWithin(s, p, items[i])
  }

  /** What the walker's classifier guarantees about the item it yields for
      `p` and the entries it descends into. */
  ghost predicate EmitFacts(s: Settings, p: Path, o: Outcome)
  {
    o.Emit? ==>
      && o.item.abspath == p
      && p in s.fs
      && s.basedir <= p
      && o.item.relpath == p[|s.basedir|..]
      && MatchesNode(s, o.item)
      && (o.item.typ.Directory? ==>
            && s.fs[p].DirNode?
            && o.children == Filter(s.excluded, s.fs[p].listing)
            && (s.emptyDirsIgnored ==> o.children != []))
      && (!o.item.typ.Directory? ==> o.children == [])
  }

  ghost predicate Sound(s: Settings, w: Classifier)
  {
    forall p :: EmitFacts(s, p, w(p))
  }

  lemma WalkerSound(s: Settings)
    ensures Sound(s, Walker(s))
  {
    forall p
      ensures EmitFacts(s, p, Walker(s)(p))
    {
      assert Walker(s)(p) == Classify(s, p);
    }
  }

  /** The names the walk descends into from a directory entry list. */
  lemma SortedChildren(s: Settings, children: seq<Name>)
    requires forall n :: n in children ==> !s.excluded(n)
    ensures forall n :: n in SortAscending(children) ==> !s.excluded(n)
  {
    SortAscendingSorted(children);
    forall n | n in SortAscending(children)
      ensures !s.excluded(n)
    {
      assert n in multiset(SortAscending(children));
    }
  }

  lemma {:induction false} VisitWithin(s: Settings, w: Classifier, depth: nat, p: Path)
    requires Bounded(w, depth) && Sound(s, w)
    ensures var items := Visit(w, depth, p).items;
            AllWithin(s, p, items) && (items != [] ==> items[0].abspath == p)
    decreases depth - |p|, 0
  {
    assert EmitFacts(s, p, w(p));
    match w(p)
    case Fail(e) =>
    case Skip =>
    case Emit(item, children) =>
      var names := SortAscending(children);
      var tail := VisitList(w, depth, p, names);
      assert Visit(w, depth, p).items == [item] + tail.items;
      SortedChildren(s, children);
      VisitListWithin(s, w, depth, p, names);
      assert ItemWithin(s, p, item);
  }

  lemma {:induction false} VisitListWithin(s: Settings, w: Classifier, depth: nat, p: Path, names: seq<Name>)
    requires Bounded(w, depth) && Sound(s, w)
    requires forall n :: n in names ==> !s.excluded(n)
    ensures var items := VisitList(w, depth, p, names).items;
            AllWithin(s, p, items)
            && forall i :: 0 <= i < |items| ==> |items[i].abspath| > |p| && items[i].abspath[|p|] in names
    decreases depth - |p| - 1, |names|
  {
    if names != [] {
      var c := p + [names[0]];
      var first := Visit(w, depth, c);
      var rest := VisitList(w, depth, p, names[1..]);
      VisitWithin(s, w, depth, c);
      VisitListWithin(s, w, depth, p, names[1..]);
      var items := VisitList(w, depth, p, names).items;
      assert items == first.items || items == first.items + rest.items;
      forall i | 0 <= i < |first.items|
        ensures ItemWithin(s, p, first.items[i])
        ensures |first.items[i].abspath| > |p| && first.items[i].abspath[|p|] == names[0]
      {
        var a := first.items[i].abspath;
        assert a[..|c|] == c;
        assert a[|p|] == c[|p|];
      }
    }
  }

  /** The walk of `root` yields `root` first, and every item it yields is at
      or below `root`, was stat'ed, has the right relative path, has only
      allowed names below `root`, and, if a directory, is one with an allowed
      entry when empty directories are ignored. */
  lemma WalkWithin(s: Settings, root: Path)
    ensures var items := Walked(s, root).items;
            AllWithin(s, root, items) && (items != [] ==> items[0].abspath == root)
  {
    WalkerBounded(s);
    WalkerSound(s);
    VisitWithin(s, Walker(s), Depth(s), root);
  }

  // ---------------------------------------------------------------------------
  // Order: the walk is sorted by path
  // ---------------------------------------------------------------------------

  /** Rust's `Ord` on paths: component by component, each compared as bytes;
      a path sorts before the paths below it. */
  predicate PathLess(a: Path, b: Path)
  {
    if a == [] then b != []
    else if b == [] then false
    else LexLess(a[0], b[0]) || (a[0] == b[0] && PathLess(a[1..], b[1..]))
  }

  /** A directory sorts before everything below it. */
  lemma {:induction false} PathLessBelow(a: Path, b: Path)
    requires a < b
    ensures PathLess(a, b)
  {
    if a != [] {
      assert b[0] == a[0];
      assert a[1..] < b[1..];
      PathLessBelow(a[1..], b[1..]);
    }
  }

  /** Paths that first differ at component `k` are ordered by that component. */
  lemma {:induction false} PathLessFork(a: Path, b: Path, k: nat)
    requires k < |a| && k < |b| && a[..k] == b[..k] && LexLess(a[k], b[k])
    ensures PathLess(a, b)
  {
    if k > 0 {
      assert a[0] == a[..k][0] == b[..k][0] == b[0];
      assert a[1..][..k - 1] == a[..k][1..] == b[..k][1..] == b[1..][..k - 1];
      PathLessFork(a[1..], b[1..], k - 1);
    }
  }

  /** No path sorts before itself, so paths in strictly ascending order are
      distinct. */
  lemma {:induction false} PathLessIrreflexive(a: Path)
    ensures !PathLess(a, a)
  {
    if a != [] {
      LexLessIrreflexive(a[0]);
      PathLessIrreflexive(a[1..]);
    }
  }

  /** The items are in strictly ascending path order. */
  ghost predicate InPathOrder(items: seq<DirWalkItem>)
  {
    forall i, j :: 0 <= i < j < |items| ==> PathLess(items[i].abspath, items[j].abspath)
  }

  /** Nothing is yielded below an item that is not a directory: in
      particular, a symbolic link to a directory is not descended into. */
  ghost predicate OnlyDirectoriesHaveDescendants(items: seq<DirWalkItem>)
  {
    forall i, j :: 0 <= i < |items| && 0 <= j < |items| && items[i].abspath < items[j].abspath ==> items[i].typ.Directory?
  }

  /** Every directory lists each name at most once. */
  ghost predicate WellFormed(fs: FileSystem)
  {
    forall p :: p in fs && fs[p].DirNode? ==> Distinct(fs[p].listing)
  }

  lemma {:induction false} FilterDistinct(excluded: Name -> bool, names: seq<Name>)
    requires Distinct(names)
    ensures Distinct(Filter(excluded, names))
  {
    if names != [] {
      assert Distinct(names[1..]) by {
        forall i, j | 0 <= i < j < |names| - 1
          ensures names[1..][i] != names[1..][j]
        {
          assert names[1..][i] == names[i + 1] && names[1..][j] == names[j + 1];
        }
      }
      FilterDistinct(excluded, names[1..]);
      if !excluded(names[0]) {
        var rest := Filter(excluded, names[1..]);
        var l: seq<Name> := [names[0]] + rest;
        assert names[0] !in names[1..];
        assert names[0] !in rest;
        forall i, j | 0 <= i < j < |l|
          ensures l[i] != l[j]
        {
          if i == 0 {
            assert l[j] == rest[j - 1];
          } else {
            assert l[i] == rest[i - 1] && l[j] == rest[j - 1];
          }
        }
        assert Filter(excluded, names) == l;
      }
    }
  }

  /** Two blocks of items whose paths are ordered across the blocks and
      neither contains the other. */
  lemma AppendOrdered(a: seq<DirWalkItem>, b: seq<DirWalkItem>)
    requires InPathOrder(a) && InPathOrder(b)
    requires OnlyDirectoriesHaveDescendants(a) && OnlyDirectoriesHaveDescendants(b)
    requires forall i, j :: 0 <= i < |a| && 0 <= j < |b| ==> PathLess(a[i].abspath, b[j].abspath)
    requires forall i, j :: 0 <= i < |a| && 0 <= j < |b| ==> !(a[i].abspath < b[j].abspath) && !(b[j].abspath < a[i].abspath)
    ensures InPathOrder(a + b) && OnlyDirectoriesHaveDescendants(a + b)
  {
    var c := a + b;
    forall i, j | 0 <= i < j < |c|
      ensures PathLess(c[i].abspath, c[j].abspath)
    {
      if j < |a| {
        assert c[i] == a[i] && c[j] == a[j];
      } else if i >= |a| {
        assert c[i] == b[i - |a|] && c[j] == b[j - |a|];
      } else {
        assert c[i] == a[i] && c[j] == b[j - |a|];
      }
    }
    forall i, j | 0 <= i < |c| && 0 <= j < |c| && c[i].abspath < c[j].abspath
      ensures c[i].typ.Directory?
    {
      if i < |a| && j < |a| {
        assert c[i] == a[i] && c[j] == a[j];
      } else if i >= |a| && j >= |a| {
        assert c[i] == b[i - |a|] && c[j] == b[j - |a|];
      } else {
        assert false;
      }
    }
  }

  /** A directory's item followed by the items below it. */
  lemma ConsOrdered(x: DirWalkItem, rest: seq<DirWalkItem>)
    requires InPathOrder(rest) && OnlyDirectoriesHaveDescendants(rest)
    requires forall j :: 0 <= j < |rest| ==> x.abspath < rest[j].abspath
    requires rest != [] ==> x.typ.Directory?
    ensures InPathOrder([x] + rest) && OnlyDirectoriesHaveDescendants([x] + rest)
  {
    var c := [x] + rest;
    forall i, j | 0 <= i < j < |c|
      ensures PathLess(c[i].abspath, c[j].abspath)
    {
      assert c[j] == rest[j - 1];
      if i == 0 {
        PathLessBelow(x.abspath, rest[j - 1].abspath);
      } else {
        assert c[i] == rest[i - 1];
      }
    }
    forall i, j | 0 <= i < |c| && 0 <= j < |c| && c[i].abspath < c[j].abspath
      ensures c[i].typ.Directory?
    {
      if i > 0 && j > 0 {
        assert c[i] == rest[i - 1] && c[j] == rest[j - 1];
      } else if i > 0 {
        assert false;
      }
    }
  }

  lemma {:induction false} VisitOrdered(s: Settings, w: Classifier, depth: nat, p: Path)
    requires Bounded(w, depth) && Sound(s, w) && WellFormed(s.fs)
    ensures var items := Visit(w, depth, p).items;
            InPathOrder(items) && OnlyDirectoriesHaveDescendants(items)
            && forall i :: 0 <= i < |items| ==> p <= items[i].abspath
    decreases depth - |p|, 0
  {
    assert EmitFacts(s, p, w(p));
    match w(p)
    case Fail(e) =>
    case Skip =>
    case Emit(item, children) =>
      var names := SortAscending(children);
      if item.typ.Directory? {
        FilterDistinct(s.excluded, s.fs[p].listing);
        SortAscendingStrict(children);
      } else {
        assert names == [];
      }
      VisitListOrdered(s, w, depth, p, names);
      var tail := VisitList(w, depth, p, names).items;
      assert Visit(w, depth, p).items == [item] + tail;
      ConsOrdered(item, tail);
  }

  lemma {:induction false} VisitListOrdered(s: Settings, w: Classifier, depth: nat, p: Path, names: seq<Name>)
    requires Bounded(w, depth) && Sound(s, w) && WellFormed(s.fs) && StrictlyAscending(names)
    ensures var items := VisitList(w, depth, p, names).items;
            InPathOrder(items) && OnlyDirectoriesHaveDescendants(items)
            && forall i :: 0 <= i < |items| ==> p <= items[i].abspath && |items[i].abspath| > |p| && items[i].abspath[|p|] in names
    decreases depth - |p| - 1, |names|
  {
    if names != [] {
      var c := p + [names[0]];
      var first := Visit(w, depth, c).items;
      var rest := VisitList(w, depth, p, names[1..]).items;
      VisitOrdered(s, w, depth, c);
      assert StrictlyAscending(names[1..]) by {
        forall i, j | 0 <= i < j < |names| - 1
          ensures LexLess(names[1..][i], names[1..][j])
        {
          assert names[1..][i] == names[i + 1] && names[1..][j] == names[j + 1];
        }
      }
      VisitListOrdered(s, w, depth, p, names[1..]);
      forall i | 0 <= i < |first|
        ensures p <= first[i].abspath && |first[i].abspath| > |p| && first[i].abspath[|p|] == names[0]
      {
        var a := first[i].abspath;
        assert a[..|c|] == c;
        assert a[|p|] == c[|p|];
      }
      SiblingsApart(p, names, first, rest);
      var items := VisitList(w, depth, p, names).items;
      if Visit(w, depth, c).error.Some? {
        assert items == first;
      } else {
        assert items == first + rest;
        AppendOrdered(first, rest);
      }
    }
  }

  /** The items below the first of ascending sibling names come before, and
      are neither above nor below, the items below the later ones. */
  lemma SiblingsApart(p: Path, names: seq<Name>, first: seq<DirWalkItem>, rest: seq<DirWalkItem>)
    requires StrictlyAscending(names) && names != []
    requires forall i :: 0 <= i < |first| ==> p <= first[i].abspath && |first[i].abspath| > |p| && first[i].abspath[|p|] == names[0]
    requires forall j :: 0 <= j < |rest| ==> p <= rest[j].abspath && |rest[j].abspath| > |p| && rest[j].abspath[|p|] in names[1..]
    ensures forall i, j :: 0 <= i < |first| && 0 <= j < |rest| ==> PathLess(first[i].abspath, rest[j].abspath)
    ensures forall i, j :: 0 <= i < |first| && 0 <= j < |rest| ==>
              !(first[i].abspath < rest[j].abspath) && !(rest[j].abspath < first[i].abspath)
  {
    forall i, j | 0 <= i < |first| && 0 <= j < |rest|
      ensures PathLess(first[i].abspath, rest[j].abspath)
      ensures !(first[i].abspath < rest[j].abspath) && !(rest[j].abspath < first[i].abspath)
    {
      var a, b := first[i].abspath, rest[j].abspath;
      var m :| 1 <= m < |names| && b[|p|] == names[m] by {
        assert b[|p|] in names[1..];
      }
      assert LexLess(names[0], names[m]);
      LexLessIrreflexive(names[0]);
      assert a[..|p|] == p == b[..|p|];
      PathLessFork(a, b, |p|);
    }
  }

  /** On a file system whose directories list each name once, the walk of
      `root` yields its items in strictly ascending path order (so never the
      same path twice), and nothing below a file or a symbolic link. */
  lemma WalkOrdered(s: Settings, root: Path)
    requires WellFormed(s.fs)
    ensures var items := Walked(s, root).items;
            InPathOrder(items) && OnlyDirectoriesHaveDescendants(items)
  {
    WalkerBounded(s);
    WalkerSound(s);
    VisitOrdered(s, Walker(s), Depth(s), root);
  }

  // ---------------------------------------------------------------------------
  // Determinism: the order in which directories list their entries is
  // irrelevant
  // ---------------------------------------------------------------------------

  /** `fs2` is `fs1` with directory entries possibly listed in another order. */
  ghost predicate SameUpToListingOrder(fs1: FileSystem, fs2: FileSystem)
  {
    fs1.Keys == fs2.Keys
    && forall p :: p in fs1 ==> SameNode(fs1[p], fs2[p])
  }

  predicate SameNode(a: Node, b: Node)
  {
    if a.DirNode? then b.DirNode? && a.statSize == b.statSize && multiset(a.listing) == multiset(b.listing)
    else a == b
  }

  lemma {:induction false} FilterCount(excluded: Name -> bool, names: seq<Name>, x: Name)
    ensures multiset(Filter(excluded, names))[x] == if excluded(x) then 0 else multiset(names)[x]
  {
    if names != [] {
      FilterCount(excluded, names[1..], x);
      assert names == [names[0]] + names[1..];
    }
  }

  lemma FilterPermutation(excluded: Name -> bool, a: seq<Name>, b: seq<Name>)
    requires multiset(a) == multiset(b)
    ensures multiset(Filter(excluded, a)) == multiset(Filter(excluded, b))
  {
    forall x
      ensures multiset(Filter(excluded, a))[x] == multiset(Filter(excluded, b))[x]
    {
      FilterCount(excluded, a, x);
      FilterCount(excluded, b, x);
    }
  }

  /** Popping a path does the same in both file systems, except that a
      directory's entries may come in another order. */
  lemma ClassifyUpToListingOrder(s1: Settings, s2: Settings, p: Path)
    requires s2 == s1.(fs := s2.fs) && SameUpToListingOrder(s1.fs, s2.fs)
    ensures !Classify(s1, p).Emit? ==> Classify(s2, p) == Classify(s1, p)
    ensures Classify(s1, p).Emit? ==>
              Classify(s2, p).Emit? && Classify(s2, p).item == Classify(s1, p).item
              && multiset(Classify(s2, p).children) == multiset(Classify(s1, p).children)
  {
    if p in s1.fs && s1.fs[p].DirNode? {
      var l1, l2 := s1.fs[p].listing, s2.fs[p].listing;
      FilterPermutation(s1.excluded, l1, l2);
      var f1, f2 := Filter(s1.excluded, l1), Filter(s1.excluded, l2);
      assert f1 == [] <==> f2 == [] by {
        assert |f1| == |multiset(f1)| == |multiset(f2)| == |f2|;
      }
    }
  }

  /** The walk does not depend on the order in which directories list their
      entries: the archive is reproducible. */
  lemma {:induction false} VisitIgnoresListingOrder(s1: Settings, s2: Settings, p: Path)
    requires s2 == s1.(fs := s2.fs) && SameUpToListingOrder(s1.fs, s2.fs)
    ensures Bounded(Walker(s1), Depth(s1)) && Bounded(Walker(s2), Depth(s2))
    ensures Visit(Walker(s1), Depth(s1), p) == Visit(Walker(s2), Depth(s2), p)
    decreases Depth(s1) - |p|, 0
  {
    WalkerBounded(s1);
    WalkerBounded(s2);
    assert Depth(s1) == Depth(s2);
    assert Walker(s1)(p) == Classify(s1, p) && Walker(s2)(p) == Classify(s2, p);
    ClassifyUpToListingOrder(s1, s2, p);
    if Classify(s1, p).Emit? {
      var c1, c2 := Classify(s1, p).children, Classify(s2, p).children;
      SortAscendingDeterministic(c1, c2);
      VisitListIgnoresListingOrder(s1, s2, p, SortAscending(c1));
    }
  }

  lemma {:induction false} VisitListIgnoresListingOrder(s1: Settings, s2: Settings, p: Path, names: seq<Name>)
    requires s2 == s1.(fs := s2.fs) && SameUpToListingOrder(s1.fs, s2.fs)
    ensures Bounded(Walker(s1), Depth(s1)) && Bounded(Walker(s2), Depth(s2))
    ensures VisitList(Walker(s1), Depth(s1), p, names) == VisitList(Walker(s2), Depth(s2), p, names)
    decreases Depth(s1) - |p| - 1, |names|
  {
    WalkerBounded(s1);
    WalkerBounded(s2);
    assert Depth(s1) == Depth(s2);
    if names != [] {
      VisitIgnoresListingOrder(s1, s2, p + [names[0]]);
      VisitListIgnoresListingOrder(s1, s2, p, names[1..]);
    }
  }
}
