/** The directory walker `DirWalkIterator` (src/main.rs:53-188): a stack of
    paths still to visit; each call to `next` pops one path, stats it and
    either yields an item for it, skips it (an empty directory when empty
    directories are ignored) or stops with an error where the program panics.

    The file system is a map from paths to what `symlink_metadata` reports for
    them. A path is a sequence of components; its file name is the last one. */
module Walk {
  import opened Wrappers
  import opened NameOrder

  type Path = seq<Name>

  datatype Node =
    /** A directory whose `read_dir` lists `listing`, in whatever order the
        operating system returns; `statSize` is the size its metadata reports. */
    | DirNode(listing: seq<Name>, statSize: nat)
    | FileNode(size: nat)
    /** A symbolic link; `target` is what `canonicalize` returns for it. */
    | SymlinkNode(target: Path)
    /** A socket, device or pipe. */
    | OtherNode

  type FileSystem = map<Path, Node>

  datatype DirWalkType =
    | Directory
    | File
    | SymlinkToFile(resolved: Path)
    | SymlinkToDirectory(resolved: Path)

  datatype DirWalkItem = DirWalkItem(abspath: Path, relpath: Path, typ: DirWalkType, size: Option<nat>)

  /** The places where `next` panics. */
  datatype WalkError =
    | StatFailed(path: Path)           // symlink_metadata failed
    | PrefixMismatch(path: Path)       // strip_prefix(basedir) failed
    | SymlinkFound(path: Path)         // symlinks_should_abort
    | ResolveFailed(path: Path)        // canonicalize or the stat of its result failed
    | NotFileOrDirectory(path: Path)   // unreachable!

  /** What one call of `next` returns: an item, `None`, or a panic. */
  datatype WalkStep = Yield(item: DirWalkItem) | Exhausted | Abort(error: WalkError)

  /** The walker's fixed settings and the file system it reads.
      `excluded` says whether a file name matches any of the ignore patterns
      (the `--dot-files-excluded` pattern is one more of them). */
  datatype Settings = Settings(
    fs: FileSystem,
    basedir: Path,
    excluded: Name -> bool,
    emptyDirsIgnored: bool,
    symlinksShouldAbort: bool)

  /** `is_allowed_name` applied to every entry of a directory listing: the
      entries whose file name matches no ignore pattern, in listing order. */
  function Filter(excluded: Name -> bool, names: seq<Name>): (r: seq<Name>)
    ensures forall n :: n in r <==> n in names && !excluded(n)
    ensures |r| <= |names|
  {
    if names == [] then []
    else if excluded(names[0]) then Filter(excluded, names[1..])
    else [names[0]] + Filter(excluded, names[1..])
  }

  /** The paths of the entries `names` of directory `dir`, in the same order. */
  function Children(dir: Path, names: seq<Name>): (r: seq<Path>)
    ensures |r| == |names|
    ensures forall i :: 0 <= i < |names| ==> r[i] == dir + [names[i]]
  {
    seq(|names|, i requires 0 <= i < |names| => dir + [names[i]])
  }

  /** What popping `r` leads to, before anything is pushed. */
  datatype Outcome =
    /** Yield `item`; for a directory, `children` are its allowed entries in
        listing order, which are pushed in descending order. */
    | Emit(item: DirWalkItem, children: seq<Name>)
    /** An empty directory that is dropped: `next` moves on to the next path. */
    | Skip
    | Fail(error: WalkError)

  /** The body of `next` for the popped path `r`. */
  function Classify(s: Settings, r: Path): (o: Outcome)
    ensures o.Emit? ==> r in s.fs && s.basedir <= r
    ensures o.Emit? ==> o.item.abspath == r && o.item.relpath == r[|s.basedir|..]
    ensures o.Emit? && o.item.typ.Directory? ==> s.fs[r].DirNode?
    ensures o.Emit? && !o.item.typ.Directory? ==> o.children == []
    ensures o.Emit? && o.item.typ.Directory? ==> o.children == Filter(s.excluded, s.fs[r].listing)
    ensures r !in s.fs ==> o == Fail(StatFailed(r))
    ensures r in s.fs && !(s.basedir <= r) ==> o == Fail(PrefixMismatch(r))
    ensures r in s.fs && s.basedir <= r && s.fs[r].SymlinkNode? && s.symlinksShouldAbort ==> o == Fail(SymlinkFound(r))
    // Which outcome each kind of node gets, once the stat and the prefix
    // strip have succeeded.
    ensures r in s.fs && s.basedir <= r && s.fs[r].FileNode? ==>
              o == Emit(DirWalkItem(r, r[|s.basedir|..], File, Some(s.fs[r].size)), [])
    ensures r in s.fs && s.basedir <= r && s.fs[r].DirNode? && !o.Skip? ==>
              o == Emit(DirWalkItem(r, r[|s.basedir|..], Directory, None), Filter(s.excluded, s.fs[r].listing))
    ensures r in s.fs && s.basedir <= r && s.fs[r].OtherNode? ==> o == Fail(NotFileOrDirectory(r))
    ensures r in s.fs && s.basedir <= r && s.fs[r].SymlinkNode? && !s.symlinksShouldAbort ==>
              var t := s.fs[r].target;
              && (t !in s.fs ==> o == Fail(ResolveFailed(r)))
              && (t in s.fs && s.fs[t].DirNode? ==>
                    o == Emit(DirWalkItem(r, r[|s.basedir|..], SymlinkToDirectory(t), Some(s.fs[t].statSize)), []))
              && (t in s.fs && s.fs[t].FileNode? ==>
                    o == Emit(DirWalkItem(r, r[|s.basedir|..], SymlinkToFile(t), Some(s.fs[t].size)), []))
              && (t in s.fs && !s.fs[t].DirNode? && !s.fs[t].FileNode? ==> o == Fail(NotFileOrDirectory(t)))
    /** Exactly the directories with no allowed entry are skipped, and only
        when empty directories are ignored. */
    ensures o.Skip? <==>
              && r in s.fs && s.basedir <= r && s.fs[r].DirNode?
              && Filter(s.excluded, s.fs[r].listing) == [] && s.emptyDirsIgnored
  {
    if r !in s.fs then Fail(StatFailed(r))
    else if !(s.basedir <= r) then Fail(PrefixMismatch(r))
    else
      var relpath := r[|s.basedir|..];
      match s.fs[r]
      case SymlinkNode(target) =>
        if s.symlinksShouldAbort then Fail(SymlinkFound(r))
        else if target !in s.fs then Fail(ResolveFailed(r))
        else (
          match s.fs[target]
          case DirNode(_, statSize) =>
            Emit(DirWalkItem(r, relpath, SymlinkToDirectory(target), Some(statSize)), [])
          case FileNode(size) =>
            Emit(DirWalkItem(r, relpath, SymlinkToFile(target), Some(size)), [])
          case _ => Fail(NotFileOrDirectory(target)))
      case FileNode(size) => Emit(DirWalkItem(r, relpath, File, Some(size)), [])
      case DirNode(listing, _) =>
        var subs := Filter(s.excluded, listing);
        if subs == [] && s.emptyDirsIgnored then Skip
        else Emit(DirWalkItem(r, relpath, Directory, None), subs)
      case OtherNode => Fail(NotFileOrDirectory(r))
  }

  /** What `next` does with each popped path, as a function value, so that
      the stack machine below can be reasoned about without unfolding it. */
  type Classifier = Path -> Outcome

  function Walker(s: Settings): Classifier
  {
    r => Classify(s, r)
  }

  /** Pops the last path of a non-empty stack and, for a directory, pushes its
      allowed entries sorted in descending order. */
  function Pop(w: Classifier, stack: seq<Path>): (r: (Outcome, seq<Path>))
    requires stack != []
    ensures r.0 == w(stack[|stack| - 1])
    ensures !r.0.Emit? ==> r.1 == stack[..|stack| - 1]
  {
    var top := stack[|stack| - 1];
    var rest := stack[..|stack| - 1];
    match w(top)
    case Emit(item, children) => (Emit(item, children), rest + Children(top, SortDescending(children)))
    case o => (o, rest)
  }

  /** After an emitting pop, the pushed entries, read from the top of the
      stack down, come in ascending order: the smallest is popped next. */
  lemma PopAscending(w: Classifier, stack: seq<Path>)
    requires stack != [] && w(stack[|stack| - 1]).Emit?
    ensures var top := stack[|stack| - 1];
            Pop(w, stack).1 == stack[..|stack| - 1] + Children(top, Reverse(SortAscending(w(top).children)))
  {
    ReverseSortDescending(w(stack[|stack| - 1]).children);
  }

  /** `next` as a function of the stack: the result and the new stack. A
      skipped directory makes `next` try again with the rest of the stack. */
  function NextSpec(w: Classifier, stack: seq<Path>): (r: (WalkStep, seq<Path>))
    ensures stack == [] ==> r.0 == Exhausted
    ensures r.0.Exhausted? ==> r.1 == []
    decreases |stack|
  {
    if stack == [] then (Exhausted, [])
    else
      var (o, rest) := Pop(w, stack);
      match o
      case Fail(e) => (Abort(e), rest)
      case Skip => NextSpec(w, rest)
      case Emit(item, _) => (Yield(item), rest)
  }

  /** Popping a path that yields an item and pushes nothing. */
  lemma NextLeaf(w: Classifier, stack: seq<Path>)
    requires stack != []
    requires w(stack[|stack| - 1]).Emit? && w(stack[|stack| - 1]).children == []
    ensures NextSpec(w, stack) == (Yield(w(stack[|stack| - 1]).item), stack[..|stack| - 1])
  {
    var rest := stack[..|stack| - 1];
    assert SortDescending([]) == [];
    assert Children(stack[|stack| - 1], []) == [];
    assert rest + [] == rest;
    assert Pop(w, stack).1 == rest;
  }

  class DirWalkIterator {
    const fs: FileSystem
    const basedir: Path
    const excluded: Name -> bool
    const emptyDirsIgnored: bool
    const symlinksShouldAbort: bool
    /** The paths still to visit; the next one is at the end. */
    var remaining: seq<Path>

    function Config(): Settings
    {
      Settings(fs, basedir, excluded, emptyDirsIgnored, symlinksShouldAbort)
    }

    constructor (basedir: Path, remaining: seq<Path>, excluded: Name -> bool,
                 emptyDirsIgnored: bool, symlinksShouldAbort: bool, fs: FileSystem)
      ensures Config() == Settings(fs, basedir, excluded, emptyDirsIgnored, symlinksShouldAbort)
      ensures this.remaining == remaining
    {
      this.fs := fs;
      this.basedir := basedir;
      this.excluded := excluded;
      this.emptyDirsIgnored := emptyDirsIgnored;
      this.symlinksShouldAbort := symlinksShouldAbort;
      this.remaining := remaining;
    }

    /** `Iterator::next`. The recursive call after a skipped directory is the
        loop's next round. */
    method Next() returns (step: WalkStep)
      modifies this
      ensures (step, remaining) == NextSpec(Walker(Config()), old(remaining))
    {
      while remaining != []
        invariant NextSpec(Walker(Config()), remaining) == NextSpec(Walker(Config()), old(remaining))
        decreases |remaining|
      {
        ghost var stack := remaining;
        var r := remaining[|remaining| - 1];
        remaining := remaining[..|remaining| - 1];
        assert Walker(Config())(r) == Classify(Config(), r);
        if r !in fs {
          return Abort(StatFailed(r));
        }
        var symMeta := fs[r];
        var abspath := r;
        if !(basedir <= r) {
          return Abort(PrefixMismatch(r));
        }
        var relpath := r[|basedir|..];
        if symMeta.SymlinkNode? {
          if symlinksShouldAbort {
            return Abort(SymlinkFound(abspath));
          }
          var resolvedPath := symMeta.target;
          if resolvedPath !in fs {
            return Abort(ResolveFailed(r));
          }
          var resolvedMeta := fs[resolvedPath];
          if resolvedMeta.DirNode? {
            NextLeaf(Walker(Config()), stack);
            return Yield(DirWalkItem(abspath, relpath, SymlinkToDirectory(resolvedPath), Some(resolvedMeta.statSize)));
          } else if resolvedMeta.FileNode? {
            NextLeaf(Walker(Config()), stack);
            return Yield(DirWalkItem(abspath, relpath, SymlinkToFile(resolvedPath), Some(resolvedMeta.size)));
          } else {
            return Abort(NotFileOrDirectory(resolvedPath));
          }
        }
        if symMeta.FileNode? {
          NextLeaf(Walker(Config()), stack);
          return Yield(DirWalkItem(abspath, relpath, File, Some(symMeta.size)));
        }
        if symMeta.DirNode? {
          var subs := Filter(excluded, symMeta.listing);
          if subs == [] && emptyDirsIgnored {
            continue;
          }
          subs := SortDescending(subs);
          remaining := remaining + Children(r, subs);
          return Yield(DirWalkItem(abspath, relpath, Directory, None));
        }
        return Abort(NotFileOrDirectory(r));
      }
      return Exhausted;
    }
  }
}
