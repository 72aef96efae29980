/**
  Sorting by a string key: the library sorts of the source (`sort.Slice` by path,
  `sort.Strings`).  When the key tells the elements apart, any correct sort gives the list
  that this one gives.
 */
module Sorting {
  import opened Paths

  predicate AtMost(a: string, b: string) {
    a == b || Less(a, b)
  }

  ghost predicate Ascending<T>(key: T -> string, xs: seq<T>) {
    forall i, j | 0 <= i < j < |xs| :: AtMost(key(xs[i]), key(xs[j]))
  }

  function Insert<T>(key: T -> string, x: T, xs: seq<T>): seq<T> {
    if xs == [] then [x]
    else if AtMost(key(x), key(xs[0])) then [x] + xs
    else [xs[0]] + Insert(key, x, xs[1..])
  }

  function SortBy<T>(key: T -> string, xs: seq<T>): seq<T> {
    if xs == [] then [] else Insert(key, xs[0], SortBy(key, xs[1..]))
  }

  lemma AtMostTransitive(a: string, b: string, c: string)
    requires AtMost(a, b) && AtMost(b, c)
    ensures AtMost(a, c)
  {
    if a != b && b != c {
      LessTransitive(a, b, c);
    }
  }

  lemma {:induction false} InsertAscends<T>(key: T -> string, x: T, xs: seq<T>)
    requires Ascending(key, xs)
    ensures Ascending(key, Insert(key, x, xs)) && multiset(Insert(key, x, xs)) == multiset(xs) + multiset{x}
  {
    if xs != [] {
      assert xs == [xs[0]] + xs[1..];
      if AtMost(key(x), key(xs[0])) {
        forall i | 0 <= i < |xs| ensures AtMost(key(x), key(xs[i])) {
          AtMostTransitive(key(x), key(xs[0]), key(xs[i]));
        }
      } else {
        InsertAscends(key, x, xs[1..]);
        LessTotal(key(x), key(xs[0]));
        var rest := Insert(key, x, xs[1..]);
        forall i | 0 <= i < |rest| ensures AtMost(key(xs[0]), key(rest[i])) {
          assert rest[i] in multiset(rest);
          assert rest[i] == x || rest[i] in xs[1..];
        }
      }
    }
  }

  lemma {:induction false} SortAscends<T>(key: T -> string, xs: seq<T>)
    ensures Ascending(key, SortBy(key, xs)) && multiset(SortBy(key, xs)) == multiset(xs) && |SortBy(key, xs)| == |xs|
  {
    if xs == [] {
      assert SortBy(key, xs) == xs;
    } else {
      hide Ascending, Insert;
      SortAscends(key, xs[1..]);
      InsertAscends(key, xs[0], SortBy(key, xs[1..]));
      assert xs == [xs[0]] + xs[1..];
    }
    assert |SortBy(key, xs)| == |multiset(SortBy(key, xs))| == |multiset(xs)| == |xs|;
  }

  /** The key tells the elements of the list apart. */
  ghost predicate Telling<T>(key: T -> string, xs: seq<T>) {
    forall x, y | x in xs && y in xs && key(x) == key(y) :: x == y
  }

  lemma {:induction false} AscendingUnique<T>(key: T -> string, a: seq<T>, b: seq<T>)
    requires multiset(a) == multiset(b) && Ascending(key, a) && Ascending(key, b) && Telling(key, a)
    ensures a == b
  {
    assert |a| == |multiset(a)| == |multiset(b)| == |b|;
    if a != [] {
      assert a[0] in multiset(b) && b[0] in multiset(a);
      SameHead(key, a, b);
      SameTails(a, b);
      AscendingUnique(key, a[1..], b[1..]);
      assert a == [a[0]] + a[1..] && b == [b[0]] + b[1..];
    }
  }

  lemma SameTails<T>(a: seq<T>, b: seq<T>)
    requires a != [] && b != [] && a[0] == b[0] && multiset(a) == multiset(b)
    ensures multiset(a[1..]) == multiset(b[1..])
  {
    assert a == [a[0]] + a[1..] && b == [b[0]] + b[1..];
    assert multiset(a[1..]) == multiset(a) - multiset{a[0]};
    assert multiset(b[1..]) == multiset(b) - multiset{b[0]};
  }

  lemma SameHead<T>(key: T -> string, a: seq<T>, b: seq<T>)
    requires a != [] && b != [] && Ascending(key, a) && Ascending(key, b) && Telling(key, a) && a[0] in b && b[0] in a
    ensures a[0] == b[0]
  {
    var i :| 0 <= i < |a| && a[i] == b[0];
    var j :| 0 <= j < |b| && b[j] == a[0];
    assert AtMost(key(a[0]), key(a[i])) && AtMost(key(b[0]), key(b[j]));
    LessTotal(key(a[0]), key(b[0]));
  }

  /** The order of the input does not matter. */
  lemma SortOrderFree<T>(key: T -> string, a: seq<T>, b: seq<T>)
    requires multiset(a) == multiset(b) && Telling(key, a)
    ensures SortBy(key, a) == SortBy(key, b)
  {
    hide Ascending, SortBy;
    SortAscends(key, a);
    SortAscends(key, b);
    forall x | x in SortBy(key, a) ensures x in a {
      assert x in multiset(SortBy(key, a));
    }
    AscendingUnique(key, SortBy(key, a), SortBy(key, b));
  }
}
