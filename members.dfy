/** The archive members `main` derives from the walk (src/main.rs:389-414):
    the walk starts at the input directory with the directory above it as
    base, and every yielded item is named by `Naming.TarNameOf`. Under a
    top-level name that is non-empty and does not end with a separator, no
    two items of the walk get the same tar name. */
module MemberNames {
  import opened Bytes
  import opened NameOrder
  import opened Walk
  import opened PreOrder
  import opened WalkFacts
  import opened Naming

  /** Every path of the file system is made of proper components. */
  ghost predicate ComponentPaths(fs: FileSystem)
  {
    forall p, k :: p in fs && 0 <= k < |p| ==> IsComponent(p[k])
  }

  /** The walk as `main` starts it: from the input directory `root`, with its
      parent as base directory. */
  ghost predicate StartedAt(s: Settings, root: Path)
  {
    root != [] && s.basedir == root[..|root| - 1]
  }

  /** The tar name `main` gives an item. */
  function ItemName(main: seq<byte>, item: DirWalkItem): seq<byte>
  {
    TarNameOf(main, item.relpath, item.typ)
  }

  /** An item of the walk is the input directory followed by the components
      pushed for it. */
  lemma ItemPath(s: Settings, root: Path, item: DirWalkItem)
    requires StartedAt(s, root) && ComponentPaths(s.fs)
    requires ItemWithin(s, root, item)
    ensures item.abspath == root + Pushed(item.relpath)
    ensures forall k :: 0 <= k < |item.relpath| ==> IsComponent(item.relpath[k])
  {
    var a := item.abspath;
    assert item.relpath == a[|root| - 1..];
    assert Pushed(item.relpath) == a[|root|..];
    assert a == a[..|root|] + a[|root|..];
    forall k | 0 <= k < |item.relpath|
      ensures IsComponent(item.relpath[k])
    {
      assert item.relpath[k] == a[|root| - 1 + k];
    }
  }

  /** Two different positions of the walk carry different tar names. */
  lemma DistinctTarNames(s: Settings, root: Path, main: seq<byte>, i: nat, j: nat)
    requires WellFormed(s.fs) && ComponentPaths(s.fs) && StartedAt(s, root)
    requires Unterminated(main)
    requires i < j < |Walked(s, root).items|
    ensures ItemName(main, Walked(s, root).items[i]) != ItemName(main, Walked(s, root).items[j])
  {
    var items := Walked(s, root).items;
    WalkWithin(s, root);
    WalkOrdered(s, root);
    var x, y := items[i], items[j];
    assert ItemWithin(s, root, x) && ItemWithin(s, root, y);
    ItemPath(s, root, x);
    ItemPath(s, root, y);
    assert PathLess(x.abspath, y.abspath);
    PathLessIrreflexive(x.abspath);
    TarNameInjective(main, x.relpath, x.typ, y.relpath, y.typ);
  }
}
