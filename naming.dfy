/** How `main` names the archive members (src/main.rs:333-346, 389-414): the
    top-level name is the `--main-dir-name` option, checked, or else the
    input directory's own file name; each walked item's tar name is that name
    with the components of the item's relative path after the first pushed
    onto it, and a directory's name gets a trailing separator. Names are byte
    strings and `/` is the separator. */
module Naming {
  import opened Wrappers
  import opened Bytes
  import opened NameOrder
  import opened Walk

  // ---------------------------------------------------------------------------
  // PathBuf::push
  // ---------------------------------------------------------------------------

  /** `PathBuf::push` on a Unix path: an absolute `c` replaces the path;
      otherwise a separator goes in between unless the path is empty or
      already ends with one. */
  function Push(path: seq<byte>, c: seq<byte>): seq<byte>
  {
    if c != [] && c[0] == ASCII_SLASH then c
    else if path != [] && path[|path| - 1] != ASCII_SLASH then path + [ASCII_SLASH] + c
    else path + c
  }

  /** What `push` makes of a name: an absolute component replaces it; any
      other is appended after the name, with one separator in between exactly
      when the name is non-empty and does not already end with one. Pushing
      the empty component onto such a name adds a trailing separator. */
  lemma PushShape(path: seq<byte>, c: seq<byte>)
    ensures c != [] && c[0] == ASCII_SLASH ==> Push(path, c) == c
    ensures var r := Push(path, c);
            !(c != [] && c[0] == ASCII_SLASH) ==>
              && |r| == |path| + (if Unterminated(path) then 1 else 0) + |c|
              && r[..|path|] == path && r[|r| - |c|..] == c
              && (Unterminated(path) ==> r[|path|] == ASCII_SLASH)
    ensures c == [] && Unterminated(path) ==> Push(path, c) == path + [ASCII_SLASH]
  {
  }

  /** Pushing the components `cs` one after the other. */
  function PushAll(path: seq<byte>, cs: seq<Name>): seq<byte>
  {
    if cs == [] then path else Push(PushAll(path, cs[..|cs| - 1]), cs[|cs| - 1])
  }

  /** A path component: a non-empty file name without a separator. */
  predicate IsComponent(c: Name)
  {
    c != [] && ASCII_SLASH !in c
  }

  /** Each component preceded by a separator. */
  function SlashJoined(cs: seq<Name>): seq<byte>
  {
    if cs == [] then [] else SlashJoined(cs[..|cs| - 1]) + [ASCII_SLASH] + cs[|cs| - 1]
  }

  /** A name that is non-empty and does not end with a separator. */
  predicate Unterminated(path: seq<byte>)
  {
    path != [] && path[|path| - 1] != ASCII_SLASH
  }

  /** Pushing components onto a non-empty path that does not end with a
      separator joins them with separators, and the result again does not
      end with one. */
  lemma {:induction false} PushAllJoins(path: seq<byte>, cs: seq<Name>)
    requires Unterminated(path)
    requires forall i :: 0 <= i < |cs| ==> IsComponent(cs[i])
    ensures PushAll(path, cs) == path + SlashJoined(cs)
    ensures Unterminated(PushAll(path, cs))
  {
    if cs != [] {
      var init := cs[..|cs| - 1];
      var c := cs[|cs| - 1];
      PushAllJoins(path, init);
      assert c[0] != ASCII_SLASH by { assert c[0] in c; }
      assert c[|c| - 1] != ASCII_SLASH by { assert c[|c| - 1] in c; }
      var p := PushAll(path, init);
      assert Push(p, c) == p + [ASCII_SLASH] + c;
      assert path + SlashJoined(cs) == path + SlashJoined(init) + [ASCII_SLASH] + c;
    }
  }

  /** Pushing components onto the empty path joins them with separators but
      without a leading one. */
  lemma {:induction false} PushAllFromEmpty(cs: seq<Name>)
    requires forall i :: 0 <= i < |cs| ==> IsComponent(cs[i])
    ensures cs == [] ==> PushAll([], cs) == []
    ensures cs != [] ==> PushAll([], cs) == cs[0] + SlashJoined(cs[1..])
  {
    if cs != [] {
      var c := cs[0];
      assert c[0] != ASCII_SLASH by { assert c[0] in c; }
      assert c[|c| - 1] != ASCII_SLASH by { assert c[|c| - 1] in c; }
      assert PushAll([], cs[..1]) == Push([], c) == c by {
        assert cs[..1][..0] == [];
      }
      PushAllSplit(c, cs);
    }
  }

  /** Pushing `cs` from the empty path is pushing its tail onto its head. */
  lemma {:induction false} PushAllSplit(c: Name, cs: seq<Name>)
    requires cs != [] && cs[0] == c && PushAll([], cs[..1]) == c
    requires forall i :: 0 <= i < |cs| ==> IsComponent(cs[i])
    ensures PushAll([], cs) == c + SlashJoined(cs[1..])
    decreases |cs|
  {
    if |cs| == 1 {
      assert cs[..1] == cs;
      assert cs[1..] == [];
    } else {
      var init := cs[..|cs| - 1];
      assert init[..1] == cs[..1];
      PushAllSplit(c, init);
      assert init[1..] == cs[1..][..|cs[1..]| - 1];
      assert c[|c| - 1] != ASCII_SLASH by { assert c[|c| - 1] in c; }
      PushAllJoins(c, cs[1..]);
      PushAllJoins(c, init[1..]);
      var last := cs[|cs| - 1];
      assert last[0] != ASCII_SLASH by { assert last[0] in last; }
    }
  }

  // ---------------------------------------------------------------------------
  // The top-level name
  // ---------------------------------------------------------------------------

  /** The panic of `validate_main_dir_name`. */
  datatype NameError = SlashAtStartOrEnd

  /** `validate_main_dir_name`: a given name is refused exactly when it
      starts or ends with a separator; otherwise it is the name itself (as a
      path pushed onto an empty one). No name given is no name. */
  function ValidateMainDirName(m: Option<seq<byte>>): (r: Result<Option<seq<byte>>, NameError>)
    ensures r.Failure? <==> m.Some? && m.value != [] && (m.value[0] == ASCII_SLASH || m.value[|m.value| - 1] == ASCII_SLASH)
    ensures r.Success? ==> r.value == m
  {
    match m
    case None => Success(None)
    case Some(s) =>
      if (s != [] && s[0] == ASCII_SLASH) || (s != [] && s[|s| - 1] == ASCII_SLASH) then Failure(SlashAtStartOrEnd)
      else
        assert [] + s == s;
        Success(Some(Push([], s)))
  }

  /** The top-level name: the validated option, or else the file name of the
      input directory. */
  function MainDirName(m: Option<seq<byte>>, inputName: Name): (r: Result<seq<byte>, NameError>)
    ensures r.Failure? <==> ValidateMainDirName(m).Failure?
    ensures r.Success? ==> r.value == if m.Some? then m.value else inputName
  {
    match ValidateMainDirName(m)
    case Failure(e) => Failure(e)
    case Success(None) => Success(inputName)
    case Success(Some(name)) => Success(name)
  }

  /** A top-level name that is accepted and non-empty does not end with a
      separator, so the members below it are joined to it with one. */
  lemma MainDirNameUnterminated(m: Option<seq<byte>>, inputName: Name)
    requires IsComponent(inputName)
    requires MainDirName(m, inputName).Success? && MainDirName(m, inputName).value != []
    ensures Unterminated(MainDirName(m, inputName).value)
  {
    var name := MainDirName(m, inputName).value;
    if m.None? {
      assert name[|name| - 1] in name;
    }
  }

  // ---------------------------------------------------------------------------
  // Tar names
  // ---------------------------------------------------------------------------

  /** The items named with a trailing separator. */
  predicate IsDirectoryLike(typ: DirWalkType)
  {
    typ.Directory? || typ.SymlinkToDirectory?
  }

  /** The components of a relative path that are pushed: all but the first,
      which names the input directory itself. */
  function Pushed(relpath: Path): seq<Name>
  {
    if relpath == [] then [] else relpath[1..]
  }

  /** The tar name of an item: its pushed components onto the top-level name,
      and an empty component for a directory. */
  function TarNameOf(main: seq<byte>, relpath: Path, typ: DirWalkType): seq<byte>
  {
    var name := PushAll(main, Pushed(relpath));
    if IsDirectoryLike(typ) then Push(name, []) else name
  }

  /** The loop of `main` that builds an item's tar name. */
  method TarName(main: seq<byte>, relpath: Path, typ: DirWalkType) returns (tarname: seq<byte>)
    ensures tarname == TarNameOf(main, relpath, typ)
  {
    tarname := main;
    var cs := if relpath == [] then [] else relpath[1..];
    var i := 0;
    while i < |cs|
      invariant 0 <= i <= |cs|
      invariant tarname == PushAll(main, cs[..i])
    {
      assert cs[..i + 1][..i] == cs[..i];
      tarname := Push(tarname, cs[i]);
      i := i + 1;
    }
    assert cs[..i] == cs;
    if typ.Directory? || typ.SymlinkToDirectory? {
      tarname := Push(tarname, []);
    }
  }

  /** Under a non-empty top-level name without a trailing separator, the tar
      name is the top-level name, a separator and the component for each
      level below the input directory, and a final separator exactly for
      directories and links to directories. */
  lemma TarNameShape(main: seq<byte>, relpath: Path, typ: DirWalkType)
    requires Unterminated(main)
    requires forall i :: 0 <= i < |relpath| ==> IsComponent(relpath[i])
    ensures TarNameOf(main, relpath, typ)
            == main + SlashJoined(Pushed(relpath)) + (if IsDirectoryLike(typ) then [ASCII_SLASH] else [])
  {
    var cs := Pushed(relpath);
    assert forall i :: 0 <= i < |cs| ==> cs[i] == relpath[i + 1];
    PushAllJoins(main, cs);
  }

  /** Under an empty top-level name the members have no common directory:
      an item below the input directory is named by its components joined with
      separators, and the input directory itself gets the empty name. */
  lemma TarNameUnderEmptyName(relpath: Path, typ: DirWalkType)
    requires forall i :: 0 <= i < |relpath| ==> IsComponent(relpath[i])
    ensures |relpath| <= 1 ==> TarNameOf([], relpath, typ) == []
    ensures |relpath| > 1 ==>
              TarNameOf([], relpath, typ)
              == relpath[1] + SlashJoined(relpath[2..]) + (if IsDirectoryLike(typ) then [ASCII_SLASH] else [])
  {
    var cs := Pushed(relpath);
    assert forall i :: 0 <= i < |cs| ==> cs[i] == relpath[i + 1];
    PushAllFromEmpty(cs);
    if |relpath| > 1 {
      assert cs[0] == relpath[1] && cs[1..] == relpath[2..];
      var c := relpath[1];
      assert c[|c| - 1] != ASCII_SLASH by { assert c[|c| - 1] in c; }
      PushAllJoins(c, cs[1..]);
    }
  }

  // ---------------------------------------------------------------------------
  // Distinct items get distinct names
  // ---------------------------------------------------------------------------

  /** The number of bytes after the last separator. */
  function TrailingLength(s: seq<byte>): nat
  {
    if s == [] || s[|s| - 1] == ASCII_SLASH then 0 else TrailingLength(s[..|s| - 1]) + 1
  }

  lemma {:induction false} TrailingComponent(p: seq<byte>, x: Name)
    requires ASCII_SLASH !in x
    ensures TrailingLength(p + [ASCII_SLASH] + x) == |x|
  {
    var s := p + [ASCII_SLASH] + x;
    if x != [] {
      assert s[|s| - 1] == x[|x| - 1];
      assert x[|x| - 1] in x;
      assert s[..|s| - 1] == p + [ASCII_SLASH] + x[..|x| - 1];
      TrailingComponent(p, x[..|x| - 1]);
    } else {
      assert s[|s| - 1] == ASCII_SLASH;
    }
  }

  /** Splitting at the last separator: a string ending in a component has only
      one way to be written as a prefix, a separator and a component. */
  lemma LastSeparator(p: seq<byte>, x: Name, q: seq<byte>, y: Name)
    requires IsComponent(x) && IsComponent(y)
    requires p + [ASCII_SLASH] + x == q + [ASCII_SLASH] + y
    ensures p == q && x == y
  {
    var s := p + [ASCII_SLASH] + x;
    TrailingComponent(p, x);
    TrailingComponent(q, y);
    assert x == s[|s| - |x|..] == y;
    assert p == s[..|p|] == q;
  }

  lemma SlashJoinedEmpty(cs: seq<Name>)
    ensures SlashJoined(cs) == [] <==> cs == []
  {
  }

  /** Joining components with separators loses nothing. */
  lemma {:induction false} SlashJoinedInjective(a: seq<Name>, b: seq<Name>)
    requires forall i :: 0 <= i < |a| ==> IsComponent(a[i])
    requires forall i :: 0 <= i < |b| ==> IsComponent(b[i])
    requires SlashJoined(a) == SlashJoined(b)
    ensures a == b
    decreases |a|
  {
    SlashJoinedEmpty(a);
    SlashJoinedEmpty(b);
    if a != [] && b != [] {
      LastSeparator(SlashJoined(a[..|a| - 1]), a[|a| - 1], SlashJoined(b[..|b| - 1]), b[|b| - 1]);
      SlashJoinedInjective(a[..|a| - 1], b[..|b| - 1]);
      assert a == a[..|a| - 1] + [a[|a| - 1]];
      assert b == b[..|b| - 1] + [b[|b| - 1]];
    }
  }

  /** A non-empty join of components does not end with a separator. */
  lemma SlashJoinedEnd(cs: seq<Name>)
    requires cs != [] && IsComponent(cs[|cs| - 1])
    ensures Unterminated(SlashJoined(cs))
  {
    var c := cs[|cs| - 1];
    assert c[|c| - 1] in c;
  }

  /** A name without a trailing separator, with or without one appended. */
  lemma Terminated(n: seq<byte>, d: seq<byte>)
    requires Unterminated(n) && (d == [] || d == [ASCII_SLASH])
    ensures (n + d)[|n + d| - 1] == ASCII_SLASH <==> d != []
    ensures n == (n + d)[..|n|]
  {
  }

  /** Under a non-empty top-level name without a trailing separator, two
      items get the same tar name exactly when they have the same components
      below the input directory and are both directory-like or both not. */
  lemma TarNameInjective(main: seq<byte>, r1: Path, t1: DirWalkType, r2: Path, t2: DirWalkType)
    requires Unterminated(main)
    requires forall i :: 0 <= i < |r1| ==> IsComponent(r1[i])
    requires forall i :: 0 <= i < |r2| ==> IsComponent(r2[i])
    ensures TarNameOf(main, r1, t1) == TarNameOf(main, r2, t2)
            <==> Pushed(r1) == Pushed(r2) && IsDirectoryLike(t1) == IsDirectoryLike(t2)
  {
    if TarNameOf(main, r1, t1) == TarNameOf(main, r2, t2) {
      SameTarName(main, r1, t1, r2, t2);
    }
  }

  lemma SameTarName(main: seq<byte>, r1: Path, t1: DirWalkType, r2: Path, t2: DirWalkType)
    requires Unterminated(main)
    requires forall i :: 0 <= i < |r1| ==> IsComponent(r1[i])
    requires forall i :: 0 <= i < |r2| ==> IsComponent(r2[i])
    requires TarNameOf(main, r1, t1) == TarNameOf(main, r2, t2)
    ensures Pushed(r1) == Pushed(r2) && IsDirectoryLike(t1) == IsDirectoryLike(t2)
  {
    var c1, c2 := Pushed(r1), Pushed(r2);
    assert forall i :: 0 <= i < |c1| ==> c1[i] == r1[i + 1];
    assert forall i :: 0 <= i < |c2| ==> c2[i] == r2[i + 1];
    TarNameShape(main, r1, t1);
    TarNameShape(main, r2, t2);
    var j1, j2 := SlashJoined(c1), SlashJoined(c2);
    var d1: seq<byte> := if IsDirectoryLike(t1) then [ASCII_SLASH] else [];
    var d2: seq<byte> := if IsDirectoryLike(t2) then [ASCII_SLASH] else [];
    if c1 != [] {
      SlashJoinedEnd(c1);
    }
    if c2 != [] {
      SlashJoinedEnd(c2);
    }
    Terminated(main + j1, d1);
    Terminated(main + j2, d2);
    assert main + j1 + d1 == main + j2 + d2;
    assert main + j1 == main + j2;
    assert j1 == (main + j1)[|main|..] == (main + j2)[|main|..] == j2;
    SlashJoinedInjective(c1, c2);
  }
}
