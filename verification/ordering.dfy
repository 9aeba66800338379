/** The order in which a group-by lists its groups: strings compare code point
    by code point, a proper prefix coming first, and a key made of several
    columns compares column by column. */
module Ordering {

  /** Lexicographic order on strings by code point. */
  predicate StrLess(a: string, b: string) {
    if a == [] then b != []
    else if b == [] then false
    else a[0] < b[0] || (a[0] == b[0] && StrLess(a[1..], b[1..]))
  }

  lemma {:induction false} StrLessIrreflexive(a: string)
    ensures !StrLess(a, a)
  {
    if a != [] {
      StrLessIrreflexive(a[1..]);
    }
  }

  lemma {:induction false} StrLessTransitive(a: string, b: string, c: string)
    requires StrLess(a, b) && StrLess(b, c)
    ensures StrLess(a, c)
  {
    if a != [] && a[0] == b[0] && b[0] == c[0] {
      StrLessTransitive(a[1..], b[1..], c[1..]);
    }
  }

  lemma {:induction false} StrLessTotal(a: string, b: string)
    requires a != b
    ensures StrLess(a, b) || StrLess(b, a)
  {
    if a != [] && b != [] && a[0] == b[0] {
      assert a == [a[0]] + a[1..] && b == [b[0]] + b[1..];
      StrLessTotal(a[1..], b[1..]);
    }
  }

  /** Lexicographic order on keys, column by column. */
  predicate KeyLess(a: seq<string>, b: seq<string>) {
    if a == [] then b != []
    else if b == [] then false
    else StrLess(a[0], b[0]) || (a[0] == b[0] && KeyLess(a[1..], b[1..]))
  }

  lemma {:induction false} KeyLessIrreflexive(a: seq<string>)
    ensures !KeyLess(a, a)
  {
    if a != [] {
      StrLessIrreflexive(a[0]);
      KeyLessIrreflexive(a[1..]);
    }
  }

  lemma {:induction false} KeyLessTransitive(a: seq<string>, b: seq<string>, c: seq<string>)
    requires KeyLess(a, b) && KeyLess(b, c)
    ensures KeyLess(a, c)
  {
    if a != [] && c != [] {
      if StrLess(a[0], b[0]) && StrLess(b[0], c[0]) {
        StrLessTransitive(a[0], b[0], c[0]);
      } else if a[0] == b[0] && b[0] == c[0] {
        KeyLessTransitive(a[1..], b[1..], c[1..]);
      }
    }
  }

  lemma {:induction false} KeyLessTotal(a: seq<string>, b: seq<string>)
    requires a != b
    ensures KeyLess(a, b) || KeyLess(b, a)
  {
    if a != [] && b != [] {
      if a[0] == b[0] {
        assert a == [a[0]] + a[1..] && b == [b[0]] + b[1..];
        KeyLessTotal(a[1..], b[1..]);
      } else {
        StrLessTotal(a[0], b[0]);
      }
    }
  }
}
