/** Sorting of finite sets under a total order: what ORDER BY returns, whatever order the rows are scanned in. */
module Orders {

  ghost predicate TotalOrder<T(!new)>(le: (T, T) -> bool) {
    && (forall x, y :: le(x, y) || le(y, x))
    && (forall x, y :: le(x, y) && le(y, x) ==> x == y)
    && (forall x, y, z :: le(x, y) && le(y, z) ==> le(x, z))
  }

  /** Strictly increasing: ordered and without repetition. */
  ghost predicate Ascending<T>(s: seq<T>, le: (T, T) -> bool) {
    forall i, j | 0 <= i < j < |s| :: le(s[i], s[j]) && s[i] != s[j]
  }

  ghost predicate Distinct<T>(s: seq<T>) { forall i, j | 0 <= i < j < |s| :: s[i] != s[j] }

  lemma SubsetSize<T>(a: set<T>, b: set<T>)
    requires a <= b
    ensures |a| <= |b|
  {
    assert b == a + (b - a);
  }

  predicate Least<T(==)>(x: T, s: set<T>, le: (T, T) -> bool) {
    x in s && forall y | y in s :: le(x, y)
  }

  lemma {:induction false} LeastExists<T(!new)>(s: set<T>, le: (T, T) -> bool)
    requires TotalOrder(le) && s != {}
    ensures exists x :: Least(x, s, le)
  {
    var x :| x in s;
    if s == {x} {
      assert Least(x, s, le);
    } else {
      LeastExists(s - {x}, le);
      var y :| Least(y, s - {x}, le);
      var least := if le(x, y) then x else y;
      forall z | z in s ensures le(least, z) {
        if z != x { assert z in s - {x}; }
      }
      assert Least(least, s, le);
    }
  }

  /** The elements of `s` in increasing order. */
  function Sort<T(!new,==)>(s: set<T>, le: (T, T) -> bool): (sorted: seq<T>)
    requires TotalOrder(le)
    ensures Ascending(sorted, le)
    ensures |sorted| == |s| && forall x :: x in sorted <==> x in s
  {
    if s == {} then [] else
      LeastExists(s, le);
      var x :| x in s && Least(x, s, le);
      [x] + Sort(s - {x}, le)
  }

  lemma MemberOf<T>(s: seq<T>)
    ensures s == [] || exists x :: x in s
  {
    if s != [] { assert s[0] in s; }
  }

  /** A strictly increasing list is determined by its elements. */
  lemma {:induction false} AscendingUnique<T(!new)>(a: seq<T>, b: seq<T>, le: (T, T) -> bool)
    requires TotalOrder(le) && Ascending(a, le) && Ascending(b, le)
    requires forall x :: x in a <==> x in b
    ensures a == b
  {
    if a == [] {
      MemberOf(b);
    } else {
      assert a[0] in b;
      assert b != [];
      assert b[0] in a;
      assert a[0] == b[0];
      forall x ensures x in a[1..] <==> x in b[1..] {
        assert x in a <==> x == a[0] || x in a[1..];
        assert x in b <==> x == b[0] || x in b[1..];
      }
      AscendingUnique(a[1..], b[1..], le);
    }
  }

  /** Sorting only what lies beyond the i-th element gives the list after it. */
  lemma SortBeyond<T(!new)>(s: set<T>, beyond: set<T>, le: (T, T) -> bool, i: nat)
    requires TotalOrder(le) && i < |s|
    requires forall x :: x in beyond <==> x in s && le(Sort(s, le)[i], x) && x != Sort(s, le)[i]
    ensures Sort(beyond, le) == Sort(s, le)[i + 1..]
  {
    var all := Sort(s, le);
    var after := all[i + 1..];
    forall x ensures x in after <==> x in beyond {
      if x in beyond {
        var j :| 0 <= j < |all| && all[j] == x;
        assert j > i;
        assert after[j - i - 1] == x;
      }
    }
    AscendingUnique(Sort(beyond, le), after, le);
  }

  /** What comes strictly before the i-th element is the first i elements. */
  lemma PositionCounts<T(!new)>(s: set<T>, le: (T, T) -> bool, i: nat)
    requires TotalOrder(le) && i < |s|
    ensures var x := Sort(s, le)[i]; |set y | y in s && le(y, x) && y != x| == i
  {
    var list := Sort(s, le);
    var x := list[i];
    var before := set y | y in s && le(y, x) && y != x;
    forall y ensures y in before <==> y in list[..i] {
      if y in before {
        var j :| 0 <= j < |list| && list[j] == y;
        assert j < i;
        assert list[..i][j] == y;
      }
      if y in list[..i] {
        var j :| 0 <= j < i && list[..i][j] == y;
        assert list[j] == y;
      }
    }
    assert Distinct(list[..i]);
    DistinctCounts(list[..i], before);
  }

  lemma {:induction false} DistinctCounts<T>(list: seq<T>, elements: set<T>)
    requires Distinct(list) && forall x :: x in elements <==> x in list
    ensures |elements| == |list|
  {
    if list == [] {
      assert elements == {};
    } else {
      var last := list[|list| - 1];
      forall x ensures x in elements - {last} <==> x in list[..|list| - 1] {
        assert list == list[..|list| - 1] + [last];
      }
      DistinctCounts(list[..|list| - 1], elements - {last});
    }
  }

  /** Removing other elements can only move an element forward. */
  lemma SubsetMovesForward<T(!new)>(a: set<T>, b: set<T>, le: (T, T) -> bool, i: nat, j: nat)
    requires TotalOrder(le) && a <= b && i < |a| && j < |b| && Sort(a, le)[i] == Sort(b, le)[j]
    ensures i <= j
  {
    var x := Sort(a, le)[i];
    PositionCounts(a, le, i);
    PositionCounts(b, le, j);
    SubsetSize(set y | y in a && le(y, x) && y != x, set y | y in b && le(y, x) && y != x);
  }

  /** Text compared by code point, as SQLite's BINARY collation does. */
  predicate TextLe(a: string, b: string) {
    a == [] || (b != [] && (a[0] < b[0] || (a[0] == b[0] && TextLe(a[1..], b[1..]))))
  }

  lemma {:induction false} TextTotal(a: string, b: string)
    ensures TextLe(a, b) || TextLe(b, a)
    ensures TextLe(a, b) && TextLe(b, a) ==> a == b
  {
    if a != [] && b != [] { TextTotal(a[1..], b[1..]); }
  }

  lemma {:induction false} TextTransitive(a: string, b: string, c: string)
    requires TextLe(a, b) && TextLe(b, c)
    ensures TextLe(a, c)
  {
    if a != [] && a[0] == b[0] && b[0] == c[0] { TextTransitive(a[1..], b[1..], c[1..]); }
  }

  /** The one text is a proper prefix of the other, or smaller at the first place where they differ. */
  ghost predicate Precedes(a: string, b: string) {
    exists i: nat :: PrecedesAt(a, b, i)
  }

  ghost predicate PrecedesAt(a: string, b: string, i: nat) {
    i <= |a| && i < |b| && a[..i] == b[..i] && (i == |a| || a[i] < b[i])
  }

  lemma {:induction false} TextLeMeans(a: string, b: string)
    ensures TextLe(a, b) <==> a == b || Precedes(a, b)
  {
    if a == [] {
      if b != [] { assert PrecedesAt(a, b, 0); }
    } else if b != [] && a[0] == b[0] {
      hide Precedes;
      TextLeMeans(a[1..], b[1..]);
      TailPrecedes(a, b);
      assert a == [a[0]] + a[1..] && b == [b[0]] + b[1..];
    } else if b != [] {
      HeadPrecedes(a, b);
    }
  }

  lemma HeadPrecedes(a: string, b: string)
    requires a != [] && b != [] && a[0] != b[0]
    ensures Precedes(a, b) <==> a[0] < b[0]
  {
    assert PrecedesAt(a, b, 0) <==> a[0] < b[0];
    forall i: nat | 0 < i <= |a| && i < |b| ensures a[..i] != b[..i] { assert a[..i][0] != b[..i][0]; }
  }

  lemma TailPrecedes(a: string, b: string)
    requires a != [] && b != [] && a[0] == b[0]
    ensures Precedes(a, b) <==> Precedes(a[1..], b[1..])
  {
    forall i: nat ensures PrecedesAt(a, b, i + 1) <==> PrecedesAt(a[1..], b[1..], i) {
      if i < |a| && i < |b| {
        assert a[..i + 1] == [a[0]] + a[1..][..i] && b[..i + 1] == [b[0]] + b[1..][..i];
      }
    }
    assert !PrecedesAt(a, b, 0);
    if i: nat :| PrecedesAt(a, b, i) { assert PrecedesAt(a[1..], b[1..], i - 1); }
  }

  lemma TextTotalOrder()
    ensures TotalOrder(TextLe)
  {
    forall a, b ensures (TextLe(a, b) || TextLe(b, a)) && (TextLe(a, b) && TextLe(b, a) ==> a == b) {
      TextTotal(a, b);
    }
    forall a, b, c | TextLe(a, b) && TextLe(b, c) ensures TextLe(a, c) {
      TextTransitive(a, b, c);
    }
  }
}
