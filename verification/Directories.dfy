/** The directories a list of files implies, parents first. */
module Directories {
  import opened Text
  import opened Ordering

  /** How many `/` a path has: one less than it has parts. */
  function Slashes(path: string): nat {
    if path == "" then 0 else (if path[0] == '/' then 1 else 0) + Slashes(path[1..])
  }

  /** A path has one part more than slashes. */
  lemma {:induction false} SlashesMean(path: string)
    ensures Slashes(path) + 1 == |Split(path, '/')|
  {
    if path != "" {
      SlashesMean(path[1..]);
    }
  }

  /** Fewer parts first, then by bytes. */
  predicate ParentFirst(a: string, b: string) {
    Slashes(a) < Slashes(b) || (Slashes(a) == Slashes(b) && Before(a, b))
  }

  /** `directory` is a proper ancestor of `path`. */
  predicate Contains(directory: string, path: string) {
    directory + "/" <= path
  }

  lemma {:induction false} JoinSplits(parts: seq<string>, k: nat)
    requires 0 < k < |parts|
    ensures Join(parts, '/') == Join(parts[..k], '/') + "/" + Join(parts[k..], '/')
  {
    if k == 1 {
      assert parts[..1] == [parts[0]];
    } else {
      JoinSplits(parts[1..], k - 1);
      assert parts[..k][1..] == parts[1..][..k - 1] && parts[..k][0] == parts[0] && parts[1..][k - 1..] == parts[k..];
      var a, b := Join(parts[1..][..k - 1], '/'), Join(parts[k..], '/');
      assert parts[0] + "/" + (a + "/" + b) == parts[0] + "/" + a + "/" + b;
    }
  }

  lemma {:induction false} SplitConcat(a: string, b: string)
    ensures Split(a + "/" + b, '/') == Split(a, '/') + Split(b, '/')
  {
    if a == "" {
      assert a + "/" + b == ['/'] + b;
      Tail('/', b);
    } else {
      var s := a + "/" + b;
      assert s[0] == a[0] && s[1..] == a[1..] + "/" + b;
      SplitConcat(a[1..], b);
      var x, y := Split(a[1..], '/'), Split(b, '/');
      assert ([[a[0]] + x[0]] + x[1..]) + y == [[a[0]] + (x + y)[0]] + (x + y)[1..];
      assert ([""] + x) + y == [""] + (x + y);
    }
  }

  /** `directory` is the join of the first parts of `path`, not of all of them. */
  ghost predicate IsPrefix(directory: string, path: string) {
    exists depth :: 1 <= depth < |Split(path, '/')| && directory == Join(Split(path, '/')[..depth], '/')
  }

  /** The prefixes the code joins back are the proper ancestors. */
  lemma PrefixesAreAncestors(path: string, directory: string)
    ensures Contains(directory, path) <==> IsPrefix(directory, path)
  {
    var parts := Split(path, '/');
    JoinInvertsSplit(path, '/');
    if Contains(directory, path) {
      var rest := path[|directory| + 1..];
      assert path == directory + "/" + rest;
      SplitConcat(directory, rest);
      JoinInvertsSplit(directory, '/');
      var depth := |Split(directory, '/')|;
      assert parts[..depth] == Split(directory, '/');
    }
    if depth :| 1 <= depth < |parts| && directory == Join(parts[..depth], '/') {
      JoinSplits(parts, depth);
    }
  }

  lemma {:induction false} SlashesConcat(a: string, b: string)
    ensures Slashes(a + b) == Slashes(a) + Slashes(b)
  {
    if a == "" {
      assert a + b == b;
    } else {
      assert (a + b)[1..] == a[1..] + b;
      SlashesConcat(a[1..], b);
    }
  }

  lemma ParentFirstIsStrict()
    ensures IsStrict(ParentFirst)
    ensures forall directories: set<string> :: Separates(ParentFirst, directories)
  {
    hide Before, Slashes;
    forall x: string, y: string
      ensures !ParentFirst(x, x) && (x == y || ParentFirst(x, y) || ParentFirst(y, x))
    {
      BeforeIsTotal(x, x);
      BeforeIsTotal(x, y);
    }
    forall x: string, y: string, z: string | ParentFirst(x, y) && ParentFirst(y, z)
      ensures ParentFirst(x, z)
    {
      if Before(x, y) && Before(y, z) {
        BeforeIsTransitive(x, y, z);
      }
    }
  }

  /** Every proper ancestor of every file, once, and nothing else. */
  method DirectoriesOf(files: seq<string>) returns (out: seq<string>)
    ensures forall d :: d in out <==> exists i :: 0 <= i < |files| && Contains(d, files[i])
    ensures Sorted(out, ParentFirst)
  {
    hide Split, Join, Contains, ParentFirst;
    var found: set<string> := {};
    for i := 0 to |files|
      invariant forall d :: d in found <==> exists j :: 0 <= j < i && Contains(d, files[j])
    {
      var parts := Split(files[i], '/');
      ghost var before := found;
      for depth := 1 to |parts|
        invariant forall d :: d in found <==> d in before || exists k :: 1 <= k < depth && d == Join(parts[..k], '/')
      {
        found := found + {Join(parts[..depth], '/')};
      }
      forall d
        ensures d in found <==> d in before || Contains(d, files[i])
      {
        PrefixesAreAncestors(files[i], d);
      }
    }
    ParentFirstIsStrict();
    out := Sort(found, ParentFirst);
  }

  /** What the list says of one directory in it: it occurs once, and every directory around it comes before it. */
  lemma ParentsComeFirst(files: seq<string>, out: seq<string>, k: nat, parent: string)
    requires forall d :: d in out <==> exists i :: 0 <= i < |files| && Contains(d, files[i])
    requires Sorted(out, ParentFirst) && k < |out| && Contains(parent, out[k])
    ensures exists j :: 0 <= j < k && out[j] == parent
    ensures forall j :: 0 <= j < |out| && out[j] == out[k] ==> j == k
  {
    assert out[k] in out;
    var i :| 0 <= i < |files| && Contains(out[k], files[i]);
    var d := out[k];
    assert d == parent + "/" + d[|parent| + 1..];
    SlashesConcat(parent + "/", d[|parent| + 1..]);
    SlashesConcat(parent, "/");
    assert Slashes("/") == 1 by {
      assert "/"[1..] == "";
    }
    assert Contains(parent, files[i]);
    assert parent in out;
    ParentFirstIsStrict();
    var j :| 0 <= j < |out| && out[j] == parent;
    hide Slashes, Before;
    assert ParentFirst(parent, d);
    forall n | 0 <= n < |out| && out[n] == d
      ensures n == k
    {
      assert !ParentFirst(d, d);
    }
    assert j > k ==> ParentFirst(d, parent);
  }
}
