/** Sequence operations shared by every table of the dashboard. A table is a
    sequence of rows; selecting rows with a boolean mask (`df[mask]`) keeps the
    chosen rows in their original order, and projecting a column maps every row. */
module Tabular {

  /** The rows of `s` for which `p` holds, in their original order. */
  function Where<T>(s: seq<T>, p: T -> bool): (r: seq<T>)
    ensures |r| <= |s|
    ensures forall x :: x in r ==> x in s && p(x)
  {
    if s == [] then []
    else if p(s[0]) then [s[0]] + Where(s[1..], p)
    else Where(s[1..], p)
  }

  /** Applies `f` to every row, keeping the row order. */
  function Project<T, U>(s: seq<T>, f: T -> U): (r: seq<U>)
    ensures |r| == |s|
    ensures forall i :: 0 <= i < |s| ==> r[i] == f(s[i])
  {
    if s == [] then [] else [f(s[0])] + Project(s[1..], f)
  }

  /** `a` is obtained from `b` by deleting rows, without reordering the rest. */
  predicate IsSubsequence<T(==)>(a: seq<T>, b: seq<T>)
    decreases |b|
  {
    if a == [] then true
    else if b == [] then false
    else if a[0] == b[0] then IsSubsequence(a[1..], b[1..])
    else IsSubsequence(a, b[1..])
  }

  lemma {:induction false} SubsequenceIsShorter<T>(a: seq<T>, b: seq<T>)
    requires IsSubsequence(a, b)
    ensures |a| <= |b|
    decreases |b|
  {
    if a != [] {
      if a[0] == b[0] {
        SubsequenceIsShorter(a[1..], b[1..]);
      } else {
        SubsequenceIsShorter(a, b[1..]);
      }
    }
  }

  /** A selection only deletes rows: what it keeps is a subsequence of its input. */
  lemma {:induction false} WhereIsSubsequence<T>(s: seq<T>, p: T -> bool)
    ensures IsSubsequence(Where(s, p), s)
  {
    if s != [] {
      WhereIsSubsequence(s[1..], p);
      var rest := Where(s[1..], p);
      if p(s[0]) {
        assert Where(s, p) == [s[0]] + rest;
        assert ([s[0]] + rest)[1..] == rest;
      } else if rest != [] {
        assert rest[0] in rest;
        assert rest[0] != s[0];
      }
    }
  }

  /** A selection keeps every copy of a row it admits and no copy of a row it rejects. */
  lemma {:induction false} WhereMultiset<T>(s: seq<T>, p: T -> bool, x: T)
    ensures multiset(Where(s, p))[x] == if p(x) then multiset(s)[x] else 0
  {
    if s != [] {
      WhereMultiset(s[1..], p, x);
      assert s == [s[0]] + s[1..];
    }
  }

  /** A selection that admits every row changes nothing. */
  lemma {:induction false} WhereAll<T>(s: seq<T>, p: T -> bool)
    requires forall x :: x in s ==> p(x)
    ensures Where(s, p) == s
  {
    if s != [] {
      WhereAll(s[1..], p);
      assert s == [s[0]] + s[1..];
    }
  }

  /** Two masks that agree on every row of `s` select the same rows. */
  lemma {:induction false} WhereExt<T>(s: seq<T>, p: T -> bool, q: T -> bool)
    requires forall x :: x in s ==> p(x) == q(x)
    ensures Where(s, p) == Where(s, q)
  {
    if s != [] {
      WhereExt(s[1..], p, q);
    }
  }

  /** The conjunction of two masks. */
  function And<T>(p: T -> bool, q: T -> bool): T -> bool {
    x => p(x) && q(x)
  }

  /** Selecting twice is selecting once with the conjunction of the two masks. */
  lemma {:induction false} WhereWhere<T>(s: seq<T>, p: T -> bool, q: T -> bool)
    ensures Where(Where(s, p), q) == Where(s, And(p, q))
  {
    if s != [] {
      WhereWhere(s[1..], p, q);
      if p(s[0]) {
        assert ([s[0]] + Where(s[1..], p))[1..] == Where(s[1..], p);
      }
    }
  }

  /** Two selections in a row commute. */
  lemma WhereCommutes<T>(s: seq<T>, p: T -> bool, q: T -> bool)
    ensures Where(Where(s, p), q) == Where(Where(s, q), p)
  {
    WhereWhere(s, p, q);
    WhereWhere(s, q, p);
    WhereExt(s, And(p, q), And(q, p));
  }

  /** Selecting again with the same mask changes nothing. */
  lemma WhereIdempotent<T>(s: seq<T>, p: T -> bool)
    ensures Where(Where(s, p), p) == Where(s, p)
  {
    WhereAll(Where(s, p), p);
  }

  /** The mask of rows that `f` maps to `u`. */
  function MapsTo<T, U(==)>(f: T -> U, u: U): T -> bool {
    x => f(x) == u
  }

  /** The disjunction of two masks. */
  function Or<T>(p: T -> bool, q: T -> bool): T -> bool {
    x => p(x) || q(x)
  }

  /** How often a projected value occurs is the number of rows that project to it. */
  lemma {:induction false} ProjectCount<T, U>(s: seq<T>, f: T -> U, u: U)
    ensures multiset(Project(s, f))[u] == |Where(s, MapsTo(f, u))|
  {
    if s != [] {
      ProjectCount(s[1..], f, u);
      assert Project(s, f) == [f(s[0])] + Project(s[1..], f);
    }
  }

  /** Rows admitted by two exclusive masks are counted once each by their disjunction. */
  lemma {:induction false} DisjointCounts<T>(s: seq<T>, p: T -> bool, q: T -> bool)
    requires forall x :: !(p(x) && q(x))
    ensures |Where(s, p)| + |Where(s, q)| == |Where(s, Or(p, q))|
  {
    if s != [] {
      DisjointCounts(s[1..], p, q);
    }
  }
}
