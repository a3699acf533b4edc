/** What the walk as a whole produces. `Visit` is a reference definition of
    the walk as a recursive depth-first traversal: a path's item, then the
    walks of its allowed entries in ascending order. The theorems below show
    that calling `next` until it returns `None` (src/main.rs:395-402) yields
    exactly `Visit`'s items. They hold for any classifier `w` whose items stop
    below some depth; `Walk.Walker(s)` is one (see `WalkerBounded`). */
module PreOrder {
  import opened Wrappers
  import opened NameOrder
  import opened Walk

  /** No path at or below `depth` components yields an item. */
  ghost predicate Bounded(w: Classifier, depth: nat)
  {
    forall p :: w(p).Emit? ==> |p| < depth
  }

  /** The items a walk yields, the number of paths it pops, and the error it
      stops with, if any. */
  datatype Trace = Trace(items: seq<DirWalkItem>, pops: nat, error: Option<WalkError>)

  /** `a` followed by `b`, unless `a` stopped with an error. */
  function Then(a: Trace, b: Trace): Trace
  {
    if a.error.Some? then a else Trace(a.items + b.items, a.pops + b.pops, b.error)
  }

  /** The walk of the tree at `p`: its item, then the walks of its allowed
      entries in ascending order of name. */
  ghost function Visit(w: Classifier, depth: nat, p: Path): Trace
    requires Bounded(w, depth)
    decreases depth - |p|, 0
  {
    match w(p)
    case Fail(e) => Trace([], 1, Some(e))
    case Skip => Trace([], 1, None)
    case Emit(item, children) => Then(Trace([item], 1, None), VisitList(w, depth, p, SortAscending(children)))
  }

  /** The walks of the entries `names` of directory `p`, one after the other. */
  ghost function VisitList(w: Classifier, depth: nat, p: Path, names: seq<Name>): Trace
    requires Bounded(w, depth)
    decreases depth - |p| - 1, |names|
  {
    if names == [] then Trace([], 0, None)
    else Then(Visit(w, depth, p + [names[0]]), VisitList(w, depth, p, names[1..]))
  }

  // ---------------------------------------------------------------------------
  // Single pops
  // ---------------------------------------------------------------------------

  /** The items, stack and error after popping the stack `n` times (each pop
      one round of `next`'s loop), stopping early at an error or an empty
      stack. */
  datatype Run = Run(items: seq<DirWalkItem>, stack: seq<Path>, error: Option<WalkError>)

  function Steps(w: Classifier, stack: seq<Path>, n: nat): Run
    decreases n
  {
    if n == 0 || stack == [] then Run([], stack, None)
    else
      var (o, rest) := Pop(w, stack);
      match o
      case Fail(e) => Run([], rest, Some(e))
      case Skip => Steps(w, rest, n - 1)
      case Emit(item, _) =>
        var r := Steps(w, rest, n - 1);
        Run([item] + r.items, r.stack, r.error)
  }

  /** `r` followed by `n` more pops, unless `r` stopped with an error. */
  function Continue(w: Classifier, r: Run, n: nat): Run
  {
    if r.error.Some? then r
    else
      var r2 := Steps(w, r.stack, n);
      Run(r.items + r2.items, r2.stack, r2.error)
  }

  /** Popping `a + b` times is popping `a` times and then `b` times. */
  lemma {:induction false} StepsCompose(w: Classifier, stack: seq<Path>, a: nat, b: nat)
    ensures Steps(w, stack, a + b) == Continue(w, Steps(w, stack, a), b)
    decreases a
  {
    if a == 0 {
      assert [] + Steps(w, stack, b).items == Steps(w, stack, b).items;
    } else if stack == [] {
      assert Steps(w, [], b) == Run([], [], None);
    } else {
      var (o, rest) := Pop(w, stack);
      match o
      case Fail(e) =>
        assert Steps(w, stack, a + b) == Steps(w, stack, a) == Run([], rest, Some(e));
      case Skip =>
        assert Steps(w, stack, a + b) == Steps(w, rest, a - 1 + b);
        assert Steps(w, stack, a) == Steps(w, rest, a - 1);
        StepsCompose(w, rest, a - 1, b);
      case Emit(item, _) =>
        var r := Steps(w, rest, a - 1 + b);
        var r1 := Steps(w, rest, a - 1);
        assert Steps(w, stack, a + b) == Run([item] + r.items, r.stack, r.error);
        assert Steps(w, stack, a) == Run([item] + r1.items, r1.stack, r1.error);
        StepsCompose(w, rest, a - 1, b);
        if r1.error.None? {
          var r2 := Steps(w, r1.stack, b);
          assert [item] + (r1.items + r2.items) == ([item] + r1.items) + r2.items;
        }
    }
  }

  lemma ChildrenAppend(dir: Path, a: seq<Name>, b: seq<Name>)
    ensures Children(dir, a + b) == Children(dir, a) + Children(dir, b)
  {
  }

  /** The pops `r` yield the items of `t`, end with its error, and, when there
      is none, leave `below`. */
  predicate Agrees(t: Trace, r: Run, below: seq<Path>)
  {
    r.items == t.items && r.error == t.error && (t.error.None? ==> r.stack == below)
  }

  /** Traces that agree with consecutive runs of pops compose. */
  lemma ThenAgrees(w: Classifier, stack: seq<Path>, first: Trace, rest: Trace, mid: seq<Path>, below: seq<Path>)
    requires Agrees(first, Steps(w, stack, first.pops), mid)
    requires Agrees(rest, Steps(w, mid, rest.pops), below)
    ensures Agrees(Then(first, rest), Steps(w, stack, Then(first, rest).pops), below)
  {
    if first.error.None? {
      StepsCompose(w, stack, first.pops, rest.pops);
    }
  }

  /** Popping the stack `below + [p]` as often as `Visit` says yields `Visit`'s
      items and, when there is no error, leaves `below`. */
  lemma {:induction false} VisitSteps(w: Classifier, depth: nat, p: Path, below: seq<Path>)
    requires Bounded(w, depth)
    ensures Agrees(Visit(w, depth, p), Steps(w, below + [p], Visit(w, depth, p).pops), below)
    decreases depth - |p|, 0
  {
    var stack := below + [p];
    assert stack[..|stack| - 1] == below && stack[|stack| - 1] == p;
    match w(p)
    case Fail(e) =>
      assert Visit(w, depth, p) == Trace([], 1, Some(e));
      assert Pop(w, stack) == (Fail(e), below);
      assert Steps(w, stack, 1) == Run([], below, Some(e));
    case Skip =>
      assert Visit(w, depth, p) == Trace([], 1, None);
      assert Pop(w, stack) == (Skip, below);
      assert Steps(w, stack, 1) == Steps(w, below, 0);
    case Emit(item, children) =>
      var names := SortAscending(children);
      var tail := VisitList(w, depth, p, names);
      assert Visit(w, depth, p) == Trace([item] + tail.items, 1 + tail.pops, tail.error);
      ReverseSortDescending(children);
      var rest := below + Children(p, Reverse(names));
      assert Pop(w, stack) == (Emit(item, children), rest);
      var r := Steps(w, rest, tail.pops);
      assert Steps(w, stack, 1 + tail.pops) == Run([item] + r.items, r.stack, r.error);
      VisitListSteps(w, depth, p, names, below);
  }

  /** Popping the entries `names` of `p`, pushed in reverse order on top of
      `below`, yields `VisitList`'s items and, when there is no error, leaves
      `below`. */
  lemma {:induction false} VisitListSteps(w: Classifier, depth: nat, p: Path, names: seq<Name>, below: seq<Path>)
    requires Bounded(w, depth)
    ensures Agrees(VisitList(w, depth, p, names),
                   Steps(w, below + Children(p, Reverse(names)), VisitList(w, depth, p, names).pops), below)
    decreases depth - |p| - 1, |names|
  {
    if names == [] {
      assert below + Children(p, Reverse(names)) == below;
    } else {
      var mid := below + Children(p, Reverse(names[1..]));
      ChildrenAppend(p, Reverse(names[1..]), [names[0]]);
      assert below + Children(p, Reverse(names)) == mid + [p + [names[0]]];
      VisitSteps(w, depth, p + [names[0]], mid);
      VisitListSteps(w, depth, p, names[1..], below);
      ThenAgrees(w, mid + [p + [names[0]]], Visit(w, depth, p + [names[0]]), VisitList(w, depth, p, names[1..]), mid, below);
    }
  }

  // ---------------------------------------------------------------------------
  // Calls of `next`
  // ---------------------------------------------------------------------------

  /** The result of calling `next` up to `n` times: the items yielded, the
      stack left, and how the last call ended (`None` if every call yielded). */
  datatype Pulled = Pulled(items: seq<DirWalkItem>, stack: seq<Path>, end: Option<WalkStep>)

  function Pull(w: Classifier, stack: seq<Path>, n: nat): Pulled
    decreases n
  {
    if n == 0 then Pulled([], stack, None)
    else
      var (step, rest) := NextSpec(w, stack);
      match step
      case Yield(item) =>
        var r := Pull(w, rest, n - 1);
        Pulled([item] + r.items, r.stack, r.end)
      case _ => Pulled([], rest, Some(step))
  }

  /** What the calls of `next` give after pops that ended at `r`. */
  function PullOf(r: Run): Pulled
  {
    Pulled(r.items, r.stack, Some(if r.error.Some? then Abort(r.error.value) else Exhausted))
  }

  /** Pops that end at an error or an empty stack are what the calls of
      `next` go through: one call per item, and one more that returns `None`
      or panics. */
  lemma {:induction false} StepsPull(w: Classifier, stack: seq<Path>, k: nat)
    requires Steps(w, stack, k).error.Some? || Steps(w, stack, k).stack == []
    ensures Pull(w, stack, |Steps(w, stack, k).items| + 1) == PullOf(Steps(w, stack, k))
    decreases k, 1
  {
    if k == 0 || stack == [] {
      assert Steps(w, stack, k) == Run([], stack, None);
    } else if Pop(w, stack).0.Skip? {
      PullSkip(w, stack, k);
    } else if Pop(w, stack).0.Emit? {
      PullEmit(w, stack, k);
    } else {
      assert Steps(w, stack, k) == Run([], Pop(w, stack).1, Some(Pop(w, stack).0.error));
    }
  }

  lemma {:induction false} PullSkip(w: Classifier, stack: seq<Path>, k: nat)
    requires k != 0 && stack != [] && Pop(w, stack).0.Skip?
    requires Steps(w, stack, k).error.Some? || Steps(w, stack, k).stack == []
    ensures Pull(w, stack, |Steps(w, stack, k).items| + 1) == PullOf(Steps(w, stack, k))
    decreases k, 0
  {
    var rest := Pop(w, stack).1;
    assert Steps(w, stack, k) == Steps(w, rest, k - 1);
    StepsPull(w, rest, k - 1);
    var n := |Steps(w, stack, k).items| + 1;
    assert NextSpec(w, stack) == NextSpec(w, rest);
    assert Pull(w, stack, n) == Pull(w, rest, n);
  }

  lemma {:induction false} PullEmit(w: Classifier, stack: seq<Path>, k: nat)
    requires k != 0 && stack != [] && Pop(w, stack).0.Emit?
    requires Steps(w, stack, k).error.Some? || Steps(w, stack, k).stack == []
    ensures Pull(w, stack, |Steps(w, stack, k).items| + 1) == PullOf(Steps(w, stack, k))
    decreases k, 0
  {
    var (o, rest) := Pop(w, stack);
    var r := Steps(w, rest, k - 1);
    assert Steps(w, stack, k) == Run([o.item] + r.items, r.stack, r.error);
    StepsPull(w, rest, k - 1);
    var n := |r.items| + 1;
    assert NextSpec(w, stack) == (Yield(o.item), rest);
    assert Pull(w, stack, n + 1) == Pulled([o.item] + r.items, r.stack, PullOf(r).end);
  }

  /** The walk started from `[root]`, as `main` starts it, yields exactly the
      items of the reference traversal, in its order, and then returns `None`,
      or panics with the traversal's error. */
  lemma WalkIsVisit(w: Classifier, depth: nat, root: Path)
    requires Bounded(w, depth)
    ensures var t := Visit(w, depth, root);
            var r := Pull(w, [root], |t.items| + 1);
            r.items == t.items && r.end == Some(if t.error.Some? then Abort(t.error.value) else Exhausted)
  {
    var t := Visit(w, depth, root);
    VisitSteps(w, depth, root, []);
    assert [] + [root] == [root];
    StepsPull(w, [root], t.pops);
    assert Pull(w, [root], |t.items| + 1) == PullOf(Steps(w, [root], t.pops));
  }
}
