/** The order of strings by bytes, and sorting by a strict order. */
module Ordering {
  /** `str::cmp`: UTF-8 keeps the order of the code points. */
  predicate Before(a: string, b: string) {
    b != "" && (a == "" || a[0] < b[0] || (a[0] == b[0] && Before(a[1..], b[1..])))
  }

  lemma {:induction false} BeforeIsTotal(a: string, b: string)
    ensures Before(a, b) || Before(b, a) || a == b
    ensures !Before(a, a)
  {
    if a != "" {
      BeforeIsTotal(a[1..], a[1..]);
      if b != "" && a[0] == b[0] {
        BeforeIsTotal(a[1..], b[1..]);
        assert a == [a[0]] + a[1..] && b == [b[0]] + b[1..];
      }
    }
  }

  lemma {:induction false} BeforeIsTransitive(a: string, b: string, c: string)
    requires Before(a, b) && Before(b, c)
    ensures Before(a, c)
  {
    if a != "" && a[0] == b[0] && b[0] == c[0] {
      BeforeIsTransitive(a[1..], b[1..], c[1..]);
    }
  }

  ghost predicate IsStrict<T(!new)>(before: (T, T) -> bool) {
    && (forall x :: !before(x, x))
    && (forall x, y, z :: before(x, y) && before(y, z) ==> before(x, z))
  }

  predicate Sorted<T>(s: seq<T>, before: (T, T) -> bool) {
    forall i, j :: 0 <= i < j < |s| ==> before(s[i], s[j])
  }

  /** Whether the order tells every two different elements apart. */
  predicate Separates<T(==)>(before: (T, T) -> bool, elements: set<T>) {
    forall x, y | x in elements && y in elements :: x == y || before(x, y) || before(y, x)
  }

  /** The elements in order, each once. */
  method Sort<T(==, !new)>(elements: set<T>, before: (T, T) -> bool) returns (out: seq<T>)
    requires IsStrict(before) && Separates(before, elements)
    ensures Sorted(out, before)
    ensures forall x :: x in out <==> x in elements
  {
    out := [];
    var rest := elements;
    while rest != {}
      invariant rest <= elements && Sorted(out, before)
      invariant forall x :: x in out <==> x in elements - rest
      decreases rest
    {
      var x :| x in rest;
      var at := 0;
      while at < |out| && before(out[at], x)
        invariant at <= |out|
        invariant forall i :: 0 <= i < at ==> before(out[i], x)
      {
        at := at + 1;
      }
      InsertedIsSorted(out, x, at, before);
      InsertedHolds(out, x, at);
      out, rest := out[..at] + [x] + out[at..], rest - {x};
    }
  }

  lemma InsertedHolds<T(!new)>(s: seq<T>, x: T, at: nat)
    requires at <= |s|
    ensures forall y :: y in s[..at] + [x] + s[at..] <==> y == x || y in s
  {
    assert s == s[..at] + s[at..];
  }

  lemma InsertedIsSorted<T(!new)>(s: seq<T>, x: T, at: nat, before: (T, T) -> bool)
    requires IsStrict(before) && Sorted(s, before) && at <= |s|
    requires forall i :: 0 <= i < at ==> before(s[i], x)
    requires x !in s && (forall y <- s :: before(x, y) || before(y, x))
    requires at < |s| ==> !before(s[at], x)
    ensures Sorted(s[..at] + [x] + s[at..], before)
  {
    forall i | at <= i < |s|
      ensures before(x, s[i])
    {
      assert s[at] in s;
    }
  }

  /** There is one sorted list of a set. */
  lemma {:induction false} SortedIsUnique<T(!new)>(a: seq<T>, b: seq<T>, before: (T, T) -> bool)
    requires IsStrict(before) && Sorted(a, before) && Sorted(b, before)
    requires forall x :: x in a <==> x in b
    ensures a == b
  {
    EmptyTogether(a, b);
    if a != [] {
      HeadsAgree(a, b, before);
      forall x
        ensures x in a[1..] <==> x in b[1..]
      {
        TailHolds(a, x, before);
        TailHolds(b, x, before);
      }
      SortedIsUnique(a[1..], b[1..], before);
      assert a == [a[0]] + a[1..] && b == [b[0]] + b[1..];
    }
  }

  lemma EmptyTogether<T(!new)>(a: seq<T>, b: seq<T>)
    requires forall x :: x in a <==> x in b
    ensures a == [] <==> b == []
  {
    assert a != [] ==> a[0] in a;
    assert b != [] ==> b[0] in b;
  }

  lemma HeadsAgree<T(!new)>(a: seq<T>, b: seq<T>, before: (T, T) -> bool)
    requires IsStrict(before) && Sorted(a, before) && Sorted(b, before) && a != [] && b != []
    requires forall x :: x in a <==> x in b
    ensures a[0] == b[0]
  {
    assert a[0] in b && b[0] in a;
    var i :| 0 <= i < |b| && b[i] == a[0];
    var j :| 0 <= j < |a| && a[j] == b[0];
  }

  lemma TailHolds<T(!new)>(s: seq<T>, x: T, before: (T, T) -> bool)
    requires IsStrict(before) && Sorted(s, before) && s != []
    ensures x in s[1..] <==> x in s && x != s[0]
  {
    if x in s[1..] {
      var k :| 0 <= k < |s[1..]| && s[1..][k] == x;
      assert before(s[0], s[k + 1]);
    }
  }
}
