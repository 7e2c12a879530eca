/** Splitting a sequence at a separator, as `str::split` and `split_once` do. */
module Splitting {

  function IndexOf<T(==)>(s: seq<T>, x: T): (i: nat)
    ensures i <= |s| && x !in s[..i] && (i < |s| ==> s[i] == x)
  {
    if s == [] || s[0] == x then 0 else 1 + IndexOf(s[1..], x)
  }

  /** Splitting at every occurrence of a separator. */
  function Split<T(==)>(s: seq<T>, separator: T): (parts: seq<seq<T>>)
    ensures parts != []
    decreases |s|
  {
    var i := IndexOf(s, separator);
    if i == |s| then [s] else [s[..i]] + Split(s[i + 1..], separator)
  }

  lemma {:induction false} IndexOfFirst<T>(a: seq<T>, x: T, rest: seq<T>)
    requires x !in a
    ensures IndexOf(a + [x] + rest, x) == |a|
  {
    var s := a + [x] + rest;
    if a != [] {
      IndexOfFirst(a[1..], x, rest);
      assert s[1..] == a[1..] + [x] + rest;
    }
  }

  lemma SplitFirst<T>(a: seq<T>, x: T, rest: seq<T>)
    requires x !in a
    ensures Split(a + [x] + rest, x) == [a] + Split(rest, x)
  {
    IndexOfFirst(a, x, rest);
    var s := a + [x] + rest;
    assert s[..|a|] == a && s[|a| + 1..] == rest;
  }

  lemma {:induction false} SplitNone<T>(a: seq<T>, x: T)
    requires x !in a
    ensures IndexOf(a, x) == |a| && Split(a, x) == [a]
  {
    if a != [] {
      SplitNone(a[1..], x);
    }
  }

  lemma SplitThree<T>(a: seq<T>, b: seq<T>, c: seq<T>, x: T)
    requires x !in a && x !in b && x !in c
    ensures Split(a + [x] + b + [x] + c, x) == [a, b, c]
  {
    assert a + [x] + b + [x] + c == a + [x] + (b + [x] + c);
    SplitFirst(a, x, b + [x] + c);
    SplitFirst(b, x, c);
    SplitNone(c, x);
  }
}
