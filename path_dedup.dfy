/**
 * `deduplicate_paths`: sort the edges by the derived ordering of their fields
 * (id first, then the layout fields in declaration order, then the flag) and
 * drop consecutive duplicates, which leaves every distinct edge exactly once,
 * in strictly increasing order.
 */
module PathDedup {
  import opened PathFind
  import opened PathReduce

  /** Lexicographic order on integer sequences: a proper prefix comes first. */
  predicate LexLess(x: seq<int>, y: seq<int>)
  {
    if x == [] then y != []
    else if y == [] then false
    else if x[0] != y[0] then x[0] < y[0]
    else LexLess(x[1..], y[1..])
  }

  lemma {:induction false} LexLessIrreflexive(x: seq<int>)
    ensures !LexLess(x, x)
  {
    if x != [] {
      LexLessIrreflexive(x[1..]);
    }
  }

  lemma {:induction false} LexLessTransitive(x: seq<int>, y: seq<int>, z: seq<int>)
    requires LexLess(x, y) && LexLess(y, z)
    ensures LexLess(x, z)
  {
    if x != [] && y != [] && z != [] && x[0] == y[0] == z[0] {
      LexLessTransitive(x[1..], y[1..], z[1..]);
    }
  }

  lemma {:induction false} LexLessTotal(x: seq<int>, y: seq<int>)
    ensures x == y || LexLess(x, y) || LexLess(y, x)
  {
    if x != [] && y != [] && x[0] == y[0] {
      LexLessTotal(x[1..], y[1..]);
      if x[1..] == y[1..] {
        assert x == [x[0]] + x[1..] && y == [y[0]] + y[1..];
      }
    }
  }

  /** The code points of a string; on the ASCII ids of edges this is Rust's byte order. */
  function Codes(s: string): (r: seq<int>)
    ensures |r| == |s|
    ensures forall i :: 0 <= i < |s| ==> r[i] == s[i] as int
  {
    seq(|s|, i requires 0 <= i < |s| => s[i] as int)
  }

  lemma CodesInjective(s: string, t: string)
    ensures Codes(s) == Codes(t) ==> s == t
  {
    if Codes(s) == Codes(t) {
      assert forall i :: 0 <= i < |s| ==> s[i] as int == Codes(t)[i] == t[i] as int;
    }
  }

  /** The fields after the id, in declaration order; `false` sorts before `true`. */
  function Fields(e: RenderablePath): seq<int>
  {
    [e.startColumn, e.startColumns, e.endColumn, e.endColumns, e.row, e.length, if e.enabled then 1 else 0]
  }

  lemma FieldsInjective(a: RenderablePath, b: RenderablePath)
    requires a.id == b.id && Fields(a) == Fields(b)
    ensures a == b
  {
    assert Fields(a)[6] == Fields(b)[6];
  }

  /** The ordering `#[derive(Ord)]` gives `RenderablePath`. */
  predicate PathLess(a: RenderablePath, b: RenderablePath)
  {
    LexLess(Codes(a.id), Codes(b.id)) || (a.id == b.id && LexLess(Fields(a), Fields(b)))
  }

  lemma PathLessIrreflexive(a: RenderablePath)
    ensures !PathLess(a, a)
  {
    LexLessIrreflexive(Codes(a.id));
    LexLessIrreflexive(Fields(a));
  }

  lemma PathLessTransitive(a: RenderablePath, b: RenderablePath, c: RenderablePath)
    requires PathLess(a, b) && PathLess(b, c)
    ensures PathLess(a, c)
  {
    if LexLess(Codes(a.id), Codes(b.id)) && LexLess(Codes(b.id), Codes(c.id)) {
      LexLessTransitive(Codes(a.id), Codes(b.id), Codes(c.id));
    } else if a.id == b.id == c.id {
      LexLessTransitive(Fields(a), Fields(b), Fields(c));
    }
  }

  lemma PathLessTotal(a: RenderablePath, b: RenderablePath)
    ensures a == b || PathLess(a, b) || PathLess(b, a)
  {
    LexLessTotal(Codes(a.id), Codes(b.id));
    CodesInjective(a.id, b.id);
    LexLessTotal(Fields(a), Fields(b));
    if a.id == b.id && Fields(a) == Fields(b) {
      FieldsInjective(a, b);
    }
  }

  /** Non-decreasing in the derived ordering. */
  predicate Sorted(s: seq<RenderablePath>)
  {
    forall i, j :: 0 <= i < j < |s| ==> !PathLess(s[j], s[i])
  }

  /** Strictly increasing in the derived ordering, hence free of duplicates. */
  predicate StrictlySorted(s: seq<RenderablePath>)
  {
    forall i, j :: 0 <= i < j < |s| ==> PathLess(s[i], s[j])
  }

  /** Insert `x` before the first element greater than it. */
  function Insert(x: RenderablePath, s: seq<RenderablePath>): (r: seq<RenderablePath>)
    ensures multiset(r) == multiset(s) + multiset{x}
  {
    if s == [] then [x]
    else
      assert s == [s[0]] + s[1..];
      if PathLess(s[0], x) || s[0] == x then [s[0]] + Insert(x, s[1..]) else [x] + s
  }

  /** Inserting below the head keeps the head first: nothing after it is smaller. */
  lemma InsertAfterHead(x: RenderablePath, s: seq<RenderablePath>)
    requires s != [] && Sorted(s) && (PathLess(s[0], x) || s[0] == x)
    requires Sorted(Insert(x, s[1..]))
    ensures Sorted(Insert(x, s))
  {
    var r, t := Insert(x, s), Insert(x, s[1..]);
    assert r == [s[0]] + t;
    forall j | 0 < j < |r|
      ensures !PathLess(r[j], s[0])
    {
      assert r[j] == t[j - 1];
      assert r[j] in multiset(t);
      if r[j] != x {
        assert r[j] in multiset(s[1..]);
        var m :| 0 <= m < |s[1..]| && s[1..][m] == r[j];
        assert s[m + 1] == r[j];
      } else if PathLess(x, s[0]) {
        PathLessIrreflexive(x);
        if PathLess(s[0], x) {
          PathLessTransitive(x, s[0], x);
        }
      }
    }
  }

  /** Inserting in front of a greater head: nothing after `x` is smaller than it. */
  lemma InsertBeforeHead(x: RenderablePath, s: seq<RenderablePath>)
    requires s != [] && Sorted(s) && !(PathLess(s[0], x) || s[0] == x)
    ensures Sorted(Insert(x, s))
  {
    var r := Insert(x, s);
    assert r == [x] + s;
    PathLessTotal(x, s[0]);
    forall j | 0 < j < |r|
      ensures !PathLess(r[j], x)
    {
      assert r[j] == s[j - 1];
      if j > 1 && PathLess(s[j - 1], x) {
        PathLessTransitive(s[j - 1], x, s[0]);
      }
    }
  }

  lemma {:induction false} InsertSorted(x: RenderablePath, s: seq<RenderablePath>)
    requires Sorted(s)
    ensures Sorted(Insert(x, s))
  {
    if s != [] {
      if PathLess(s[0], x) || s[0] == x {
        InsertSorted(x, s[1..]);
        InsertAfterHead(x, s);
      } else {
        InsertBeforeHead(x, s);
      }
    }
  }

  /** A stand-in for the standard library's sort: insertion sort on the derived ordering. */
  function SortPaths(s: seq<RenderablePath>): (r: seq<RenderablePath>)
    ensures multiset(r) == multiset(s)
  {
    if s == [] then []
    else assert s == [s[0]] + s[1..]; Insert(s[0], SortPaths(s[1..]))
  }

  lemma {:induction false} SortPathsSorted(s: seq<RenderablePath>)
    ensures Sorted(SortPaths(s))
  {
    if s != [] {
      SortPathsSorted(s[1..]);
      InsertSorted(s[0], SortPaths(s[1..]));
    }
  }

  /** `Vec::dedup`: drop every element equal to the one before it. */
  function Dedup(s: seq<RenderablePath>): (r: seq<RenderablePath>)
    ensures |r| <= |s|
    ensures s != [] ==> r != [] && Last(r) == Last(s)
  {
    if s == [] then []
    else
      var d := Dedup(s[..|s| - 1]);
      if d != [] && Last(d) == Last(s) then d else d + [Last(s)]
  }

  /** Removing consecutive duplicates keeps every element and adds none. */
  lemma {:induction false} DedupSameElements(s: seq<RenderablePath>)
    ensures forall x :: x in Dedup(s) <==> x in s
  {
    if s != [] {
      var init := s[..|s| - 1];
      DedupSameElements(init);
      assert s == init + [Last(s)];
    }
  }

  /** On a sorted sequence, removing consecutive duplicates leaves it strictly increasing. */
  lemma {:induction false} DedupStrictlySorted(s: seq<RenderablePath>)
    requires Sorted(s)
    ensures StrictlySorted(Dedup(s))
  {
    if s != [] {
      var init := s[..|s| - 1];
      assert Sorted(init);
      DedupStrictlySorted(init);
      DedupSameElements(init);
      var d, x := Dedup(init), Last(s);
      if !(d != [] && Last(d) == x) {
        var r := d + [x];
        forall i | 0 <= i < |d|
          ensures PathLess(d[i], x)
        {
          assert d[i] in init;
          var m :| 0 <= m < |init| && init[m] == d[i];
          assert !PathLess(x, s[m]);
          PathLessTotal(d[i], x);
        }
        assert forall i, j :: 0 <= i < j < |r| ==> PathLess(r[i], r[j]);
      }
    }
  }

  /**
   * `deduplicate_paths`: the result is strictly increasing in the derived
   * ordering and holds exactly the edges of the input.
   */
  method DeduplicatePaths(paths: seq<RenderablePath>) returns (r: seq<RenderablePath>)
    ensures StrictlySorted(r)
    ensures forall x :: x in r <==> x in paths
  {
    var sorted := SortPaths(paths);
    r := [];
    var i := 0;
    while i < |sorted|
      invariant 0 <= i <= |sorted|
      invariant r == Dedup(sorted[..i])
    {
      assert sorted[..i + 1][..i] == sorted[..i];
      if r == [] || r[|r| - 1] != sorted[i] {
        r := r + [sorted[i]];
      }
      i := i + 1;
    }
    assert sorted[..i] == sorted;
    SortPathsSorted(paths);
    DedupStrictlySorted(sorted);
    DedupSameElements(sorted);
    assert forall x :: x in sorted <==> x in multiset(paths);
  }

  /** The last element of a strictly increasing sequence is above all the others. */
  lemma LastIsGreatest(s: seq<RenderablePath>, x: RenderablePath)
    requires StrictlySorted(s) && s != [] && x in s
    ensures x == Last(s) || PathLess(x, Last(s))
  {
    var i :| 0 <= i < |s| && s[i] == x;
  }

  /** Two strictly increasing sequences with the same elements end with the same element. */
  lemma SameLast(s: seq<RenderablePath>, t: seq<RenderablePath>)
    requires StrictlySorted(s) && StrictlySorted(t) && s != [] && t != []
    requires forall x :: x in s <==> x in t
    ensures Last(s) == Last(t)
  {
    var a, b := Last(s), Last(t);
    LastIsGreatest(t, a);
    LastIsGreatest(s, b);
    if a != b {
      PathLessTransitive(a, b, a);
      PathLessIrreflexive(a);
    }
  }

  /** An element before the common last element of `s` is also before it in `t`. */
  lemma InitToInit(s: seq<RenderablePath>, t: seq<RenderablePath>, x: RenderablePath)
    requires StrictlySorted(s) && StrictlySorted(t) && s != [] && t != []
    requires (forall y :: y in s <==> y in t) && Last(s) == Last(t)
    requires x in s[..|s| - 1]
    ensures x in t[..|t| - 1]
  {
    var m :| 0 <= m < |s| - 1 && s[m] == x;
    assert PathLess(x, Last(s));
    PathLessIrreflexive(x);
    assert x in s;
    var n :| 0 <= n < |t| && t[n] == x;
    assert t[..|t| - 1][n] == x;
  }

  /** A strictly increasing sequence is determined by its elements, so the result above is unique. */
  lemma {:induction false} StrictlySortedUnique(s: seq<RenderablePath>, t: seq<RenderablePath>)
    requires StrictlySorted(s) && StrictlySorted(t)
    requires forall x :: x in s <==> x in t
    ensures s == t
  {
    assert s != [] ==> s[0] in s;
    assert t != [] ==> t[0] in t;
    if s != [] && t != [] {
      SameLast(s, t);
      var s', t' := s[..|s| - 1], t[..|t| - 1];
      forall x
        ensures x in s' <==> x in t'
      {
        if x in s' {
          InitToInit(s, t, x);
        }
        if x in t' {
          InitToInit(t, s, x);
        }
      }
      assert StrictlySorted(s') && StrictlySorted(t');
      StrictlySortedUnique(s', t');
      assert s == s' + [Last(s)] && t == t' + [Last(t)];
    }
  }
}
