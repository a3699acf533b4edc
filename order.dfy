/** Sorting directory entries by name. The walker sorts a directory's
    children in descending order (`subs.sort_by(|a, b| b.cmp(a))`) so that
    popping them off its stack yields them in ascending order. Sibling paths
    share their parent, so comparing them compares their last components. */
module NameOrder {
  import opened Bytes

  type Name = seq<byte>

  /** `a` sorts no later than `b`. */
  predicate NotAfter(a: Name, b: Name)
  {
    !LexLess(b, a)
  }

  predicate Ascending(s: seq<Name>)
  {
    forall i, j :: 0 <= i < j < |s| ==> NotAfter(s[i], s[j])
  }

  predicate StrictlyAscending(s: seq<Name>)
  {
    forall i, j :: 0 <= i < j < |s| ==> LexLess(s[i], s[j])
  }

  predicate Descending(s: seq<Name>)
  {
    forall i, j :: 0 <= i < j < |s| ==> NotAfter(s[j], s[i])
  }

  predicate Distinct(s: seq<Name>)
  {
    forall i, j :: 0 <= i < j < |s| ==> s[i] != s[j]
  }

  function Reverse(s: seq<Name>): (r: seq<Name>)
    ensures |r| == |s|
    ensures forall i :: 0 <= i < |s| ==> r[i] == s[|s| - 1 - i]
  {
    if s == [] then [] else Reverse(s[1..]) + [s[0]]
  }

  lemma NotAfterTotal(a: Name, b: Name)
    ensures NotAfter(a, b) || NotAfter(b, a)
  {
    if a != b {
      LexLessTotal(a, b);
      if LexLess(a, b) {
        LexLessAsymmetric(a, b);
      }
    } else {
      LexLessIrreflexive(a);
    }
  }

  lemma NotAfterTransitive(a: Name, b: Name, c: Name)
    requires NotAfter(a, b) && NotAfter(b, c)
    ensures NotAfter(a, c)
  {
    if LexLess(c, a) {
      if a == b {
      } else {
        LexLessTotal(a, b);
        LexLessTransitive(c, a, b);
      }
    }
  }

  lemma NotAfterAntisymmetric(a: Name, b: Name)
    requires NotAfter(a, b) && NotAfter(b, a)
    ensures a == b
  {
    if a != b {
      LexLessTotal(a, b);
    }
  }

  // ---------------------------------------------------------------------------
  // Insertion sorts
  // ---------------------------------------------------------------------------

  /** Inserts `x` before the first name it does not sort after. */
  function InsertAscending(x: Name, s: seq<Name>): seq<Name>
  {
    if s == [] then [x]
    else if NotAfter(x, s[0]) then [x] + s
    else [s[0]] + InsertAscending(x, s[1..])
  }

  /** Insertion sort into ascending order. */
  function SortAscending(s: seq<Name>): seq<Name>
  {
    if s == [] then [] else InsertAscending(s[0], SortAscending(s[1..]))
  }

  /** Inserts `x` before the first name it does not sort before. */
  function InsertDescending(x: Name, s: seq<Name>): seq<Name>
  {
    if s == [] then [x]
    else if NotAfter(s[0], x) then [x] + s
    else [s[0]] + InsertDescending(x, s[1..])
  }

  /** `sort_by(|a, b| b.cmp(a))`, as an insertion sort into descending order. */
  function SortDescending(s: seq<Name>): seq<Name>
  {
    if s == [] then [] else InsertDescending(s[0], SortDescending(s[1..]))
  }

  lemma {:induction false} InsertAscendingSorted(x: Name, s: seq<Name>)
    requires Ascending(s)
    ensures Ascending(InsertAscending(x, s))
    ensures multiset(InsertAscending(x, s)) == multiset(s) + multiset{x}
  {
    if s != [] {
      if NotAfter(x, s[0]) {
        InsertBefore(x, s);
      } else {
        assert Ascending(s[1..]) by {
          assert forall i, j :: 0 <= i < j < |s| - 1 ==> s[1..][i] == s[i + 1] && s[1..][j] == s[j + 1];
        }
        InsertAscendingSorted(x, s[1..]);
        assert s == [s[0]] + s[1..];
        NotAfterTotal(x, s[0]);
        HeadBeforeInsert(s[0], x, s[1..], InsertAscending(x, s[1..]));
      }
    }
  }

  /** The ascending sort is sorted and a permutation of its input. */
  lemma {:induction false} SortAscendingSorted(s: seq<Name>)
    ensures Ascending(SortAscending(s))
    ensures multiset(SortAscending(s)) == multiset(s)
  {
    if s != [] {
      SortAscendingSorted(s[1..]);
      InsertAscendingSorted(s[0], SortAscending(s[1..]));
      assert s == [s[0]] + s[1..];
    }
  }

  lemma {:induction false} InsertDescendingSorted(x: Name, s: seq<Name>)
    requires Descending(s)
    ensures Descending(InsertDescending(x, s))
    ensures multiset(InsertDescending(x, s)) == multiset(s) + multiset{x}
  {
    if s != [] {
      if NotAfter(s[0], x) {
        InsertBeforeDescending(x, s);
      } else {
        assert Descending(s[1..]) by {
          assert forall i, j :: 0 <= i < j < |s| - 1 ==> s[1..][i] == s[i + 1] && s[1..][j] == s[j + 1];
        }
        InsertDescendingSorted(x, s[1..]);
        assert s == [s[0]] + s[1..];
        NotAfterTotal(x, s[0]);
        HeadBeforeInsertDescending(s[0], x, s[1..], InsertDescending(x, s[1..]));
      }
    }
  }

  /** The descending sort is sorted (descending) and a permutation of its
      input. */
  lemma {:induction false} SortDescendingSorted(s: seq<Name>)
    ensures Descending(SortDescending(s))
    ensures multiset(SortDescending(s)) == multiset(s)
  {
    if s != [] {
      SortDescendingSorted(s[1..]);
      InsertDescendingSorted(s[0], SortDescending(s[1..]));
      assert s == [s[0]] + s[1..];
    }
  }

  /** `x` goes first when it sorts no later than the head of a sorted list. */
  lemma InsertBefore(x: Name, s: seq<Name>)
    requires Ascending(s) && s != [] && NotAfter(x, s[0])
    ensures Ascending([x] + s)
  {
    forall i, j | 0 <= i < j < |[x] + s|
      ensures NotAfter(([x] + s)[i], ([x] + s)[j])
    {
      if i == 0 && j > 1 {
        NotAfterTransitive(x, s[0], s[j - 1]);
      }
    }
  }

  /** The head of a sorted list stays first when something after it is inserted
      into its tail. */
  lemma HeadBeforeInsert(h: Name, x: Name, rest: seq<Name>, tail: seq<Name>)
    requires Ascending([h] + rest) && NotAfter(h, x)
    requires Ascending(tail) && multiset(tail) == multiset(rest) + multiset{x}
    ensures Ascending([h] + tail)
  {
    forall j | 0 <= j < |tail|
      ensures NotAfter(h, tail[j])
    {
      assert tail[j] in multiset(tail);
      if tail[j] != x {
        assert tail[j] in multiset(rest);
        var k :| 0 <= k < |rest| && rest[k] == tail[j];
        assert ([h] + rest)[0] == h && ([h] + rest)[k + 1] == rest[k];
        assert NotAfter(([h] + rest)[0], ([h] + rest)[k + 1]);
      }
    }
    forall i, j | 0 <= i < j < |[h] + tail|
      ensures NotAfter(([h] + tail)[i], ([h] + tail)[j])
    {
      if i == 0 {
        assert ([h] + tail)[j] == tail[j - 1];
      } else {
        assert ([h] + tail)[i] == tail[i - 1] && ([h] + tail)[j] == tail[j - 1];
      }
    }
  }

  lemma InsertBeforeDescending(x: Name, s: seq<Name>)
    requires Descending(s) && s != [] && NotAfter(s[0], x)
    ensures Descending([x] + s)
  {
    forall i, j | 0 <= i < j < |[x] + s|
      ensures NotAfter(([x] + s)[j], ([x] + s)[i])
    {
      if i == 0 && j > 1 {
        NotAfterTransitive(s[j - 1], s[0], x);
      }
    }
  }

  lemma HeadBeforeInsertDescending(h: Name, x: Name, rest: seq<Name>, tail: seq<Name>)
    requires Descending([h] + rest) && NotAfter(x, h)
    requires Descending(tail) && multiset(tail) == multiset(rest) + multiset{x}
    ensures Descending([h] + tail)
  {
    forall j | 0 <= j < |tail|
      ensures NotAfter(tail[j], h)
    {
      assert tail[j] in multiset(tail);
      if tail[j] != x {
        assert tail[j] in multiset(rest);
        var k :| 0 <= k < |rest| && rest[k] == tail[j];
        assert ([h] + rest)[0] == h && ([h] + rest)[k + 1] == rest[k];
        assert NotAfter(([h] + rest)[k + 1], ([h] + rest)[0]);
      }
    }
    forall i, j | 0 <= i < j < |[h] + tail|
      ensures NotAfter(([h] + tail)[j], ([h] + tail)[i])
    {
      if i == 0 {
        assert ([h] + tail)[j] == tail[j - 1];
      } else {
        assert ([h] + tail)[i] == tail[i - 1] && ([h] + tail)[j] == tail[j - 1];
      }
    }
  }

  // ---------------------------------------------------------------------------
  // Uniqueness of the sorted order
  // ---------------------------------------------------------------------------

  /** Two ascending lists with the same elements are the same list. */
  lemma {:induction false} AscendingUnique(a: seq<Name>, b: seq<Name>)
    requires Ascending(a) && Ascending(b) && multiset(a) == multiset(b)
    ensures a == b
    decreases |a|
  {
    if a == [] {
      assert |b| == |multiset(b)| == 0;
    } else {
      assert b != [] by {
        assert a[0] in multiset(b);
      }
      SameHead(a, b);
      MultisetTail(a);
      MultisetTail(b);
      AscendingUnique(a[1..], b[1..]);
      assert a == [a[0]] + a[1..] && b == [b[0]] + b[1..];
    }
  }

  /** Sorted lists with the same elements start with the same (least) name. */
  lemma SameHead(a: seq<Name>, b: seq<Name>)
    requires Ascending(a) && Ascending(b) && multiset(a) == multiset(b)
    requires a != [] && b != []
    ensures a[0] == b[0]
  {
    assert a[0] in multiset(b);
    assert b[0] in multiset(a);
    var i :| 0 <= i < |b| && b[i] == a[0];
    var j :| 0 <= j < |a| && a[j] == b[0];
    if i > 0 { assert NotAfter(b[0], b[i]); }
    if j > 0 { assert NotAfter(a[0], a[j]); }
    NotAfterTotal(a[0], a[0]);
    NotAfterAntisymmetric(a[0], b[0]);
  }

  lemma MultisetTail(s: seq<Name>)
    requires s != []
    ensures multiset(s[1..]) == multiset(s) - multiset{s[0]}
    ensures Ascending(s) ==> Ascending(s[1..])
  {
    assert s == [s[0]] + s[1..];
  }

  lemma ReverseMultiset(s: seq<Name>)
    ensures multiset(Reverse(s)) == multiset(s)
  {
    if s != [] {
      ReverseMultiset(s[1..]);
      assert s == [s[0]] + s[1..];
    }
  }

  /** Popping the descending list off the end of a stack meets the names in
      ascending order: the reversed descending sort is the ascending sort. */
  lemma ReverseSortDescending(s: seq<Name>)
    ensures Reverse(SortDescending(s)) == SortAscending(s)
    ensures SortDescending(s) == Reverse(SortAscending(s))
  {
    var d := SortDescending(s);
    SortDescendingSorted(s);
    SortAscendingSorted(s);
    ReverseMultiset(d);
    assert Ascending(Reverse(d));
    AscendingUnique(Reverse(d), SortAscending(s));
    ReverseReverse(d);
  }

  lemma ReverseReverse(s: seq<Name>)
    ensures Reverse(Reverse(s)) == s
  {
    var r := Reverse(Reverse(s));
    assert |r| == |s|;
    forall i | 0 <= i < |s|
      ensures r[i] == s[i]
    {
      assert r[i] == Reverse(s)[|s| - 1 - i];
    }
  }

  /** Sorting ignores the order of its input: lists with the same elements sort
      to the same list. */
  lemma SortAscendingDeterministic(s: seq<Name>, t: seq<Name>)
    requires multiset(s) == multiset(t)
    ensures SortAscending(s) == SortAscending(t)
  {
    SortAscendingSorted(s);
    SortAscendingSorted(t);
    AscendingUnique(SortAscending(s), SortAscending(t));
  }

  /** The ascending sort of distinct names is strictly ascending. */
  lemma SortAscendingStrict(s: seq<Name>)
    requires Distinct(s)
    ensures StrictlyAscending(SortAscending(s))
  {
    var r := SortAscending(s);
    SortAscendingSorted(s);
    forall i, j | 0 <= i < j < |r|
      ensures LexLess(r[i], r[j])
    {
      DistinctSorted(s, r, i, j);
      LexLessTotal(r[i], r[j]);
    }
  }

  /** A permutation of a list without repetitions has none either. */
  lemma DistinctSorted(s: seq<Name>, r: seq<Name>, i: nat, j: nat)
    requires Distinct(s) && multiset(r) == multiset(s) && i < j < |r|
    ensures r[i] != r[j]
  {
    if r[i] == r[j] {
      var x := r[i];
      assert multiset(r)[x] >= 2 by {
        assert r == r[..i] + [x] + r[i + 1..j] + [x] + r[j + 1..];
        assert multiset(r) == multiset(r[..i]) + multiset{x} + multiset(r[i + 1..j]) + multiset{x} + multiset(r[j + 1..]);
      }
      DistinctCount(s, x);
    }
  }

  lemma {:induction false} DistinctCount(s: seq<Name>, x: Name)
    requires Distinct(s)
    ensures multiset(s)[x] <= 1
  {
    if s != [] {
      assert s == [s[0]] + s[1..];
      DistinctCount(s[1..], x);
      if s[0] == x {
        assert x !in s[1..];
      }
    }
  }
}
