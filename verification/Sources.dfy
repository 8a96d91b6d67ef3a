/** Where an entry's pattern starts, and every file under a directory. */
module Sources {
  import opened Wrappers
  import opened FileSet

  // ---- the literal base of a pattern ----

  /** A component of a pattern: an ordinary one, or a root, a drive, `.` or `..`. */
  datatype Part = Normal(text: string) | Anchor(text: string)

  predicate IsGlob(part: Part) {
    part.Normal? && exists i :: 0 <= i < |part.text| && part.text[i] in {'*', '?', '[', '{'}
  }

  /** An ordinary component with one of the four glob characters in it. */
  lemma GlobMeans(part: Part)
    ensures IsGlob(part) <==> part.Normal? && ('*' in part.text || '?' in part.text || '[' in part.text || '{' in part.text)
  {
  }

  /** The components before the first that holds a glob character, and whether there is one. */
  method SplitBase(parts: seq<Part>) returns (base: seq<Part>, hasGlob: bool)
    ensures base <= parts && forall part <- base :: !IsGlob(part)
    ensures hasGlob <==> exists k :: 0 <= k < |parts| && IsGlob(parts[k])
    ensures hasGlob ==> |base| < |parts| && IsGlob(parts[|base|])
    ensures !hasGlob ==> base == parts
  {
    hide IsGlob;
    base, hasGlob := [], false;
    for i := 0 to |parts|
      invariant base == parts[..i] && forall part <- base :: !IsGlob(part)
    {
      if IsGlob(parts[i]) {
        return base, true;
      }
      base := base + [parts[i]];
    }
    assert forall k :: 0 <= k < |parts| ==> parts[k] in base;
  }

  // ---- the files under a directory ----

  datatype Node = Leaf | Branch(readable: bool, children: seq<Child>)

  datatype Child = Child(name: Component, node: Node)

  /** A directory still to be read. */
  datatype Pending = Pending(path: Path, node: Node)

  function Files(path: Path, node: Node): multiset<Path>
    decreases node, 0
  {
    if node.Leaf? then multiset{path} else ChildFiles(path, node.children)
  }

  function ChildFiles(path: Path, children: seq<Child>): multiset<Path>
    decreases children, 1
  {
    if children == [] then multiset{}
    else Files(path + [children[0].name], children[0].node) + ChildFiles(path, children[1..])
  }

  predicate Readable(node: Node)
    decreases node, 0
  {
    node.Leaf? || (node.readable && ChildrenReadable(node.children))
  }

  predicate ChildrenReadable(children: seq<Child>)
    decreases children, 1
  {
    children == [] || (Readable(children[0].node) && ChildrenReadable(children[1..]))
  }

  function Size(node: Node): nat
    decreases node, 0
  {
    if node.Leaf? then 1 else 1 + ChildrenSize(node.children)
  }

  function ChildrenSize(children: seq<Child>): nat
    decreases children, 1
  {
    if children == [] then 0 else Size(children[0].node) + ChildrenSize(children[1..])
  }

  function PendingFiles(pending: seq<Pending>): multiset<Path> {
    if pending == [] then multiset{}
    else
      var last := pending[|pending| - 1];
      PendingFiles(pending[..|pending| - 1]) + Files(last.path, last.node)
  }

  predicate PendingReadable(pending: seq<Pending>) {
    pending == [] || (PendingReadable(pending[..|pending| - 1]) && Readable(pending[|pending| - 1].node))
  }

  function PendingSize(pending: seq<Pending>): nat {
    if pending == [] then 0 else PendingSize(pending[..|pending| - 1]) + Size(pending[|pending| - 1].node)
  }

  lemma PendingPush(pending: seq<Pending>, p: Pending)
    ensures PendingFiles(pending + [p]) == PendingFiles(pending) + Files(p.path, p.node)
    ensures PendingReadable(pending + [p]) <==> PendingReadable(pending) && Readable(p.node)
    ensures PendingSize(pending + [p]) == PendingSize(pending) + Size(p.node)
  {
    assert (pending + [p])[..|pending|] == pending;
    hide Files, Readable, Size;
  }

  /** The files found, those under the stack and those of the children still to be looked at. */
  function Total(out: seq<Path>, pending: seq<Pending>, path: Path, children: seq<Child>): multiset<Path> {
    multiset(out) + PendingFiles(pending) + ChildFiles(path, children)
  }

  predicate RestReadable(pending: seq<Pending>, children: seq<Child>) {
    PendingReadable(pending) && ChildrenReadable(children)
  }

  function RestSize(pending: seq<Pending>, children: seq<Child>): nat {
    PendingSize(pending) + ChildrenSize(children)
  }

  lemma TotalOpens(out: seq<Path>, pending: seq<Pending>, last: Pending)
    requires last.node.Branch?
    ensures Total(out, pending + [last], last.path, []) == Total(out, pending, last.path, last.node.children)
    ensures RestReadable(pending + [last], []) <==> last.node.readable && RestReadable(pending, last.node.children)
    ensures RestSize(pending + [last], []) == RestSize(pending, last.node.children) + 1
  {
    PendingPush(pending, last);
    hide PendingFiles, PendingReadable, PendingSize;
  }

  lemma TotalNext(out: seq<Path>, pending: seq<Pending>, path: Path, child: Child, rest: seq<Child>)
    ensures var p := Pending(path + [child.name], child.node);
            && (child.node.Branch? ==> Total(out, pending + [p], path, rest) == Total(out, pending, path, [child] + rest))
            && (child.node.Branch? ==> (RestReadable(pending + [p], rest) <==> RestReadable(pending, [child] + rest)))
            && (child.node.Branch? ==> RestSize(pending + [p], rest) == RestSize(pending, [child] + rest))
            && (child.node.Leaf? ==> Total(out + [p.path], pending, path, rest) == Total(out, pending, path, [child] + rest))
            && (child.node.Leaf? ==> (RestReadable(pending, rest) <==> RestReadable(pending, [child] + rest)))
            && (child.node.Leaf? ==> RestSize(pending, rest) < RestSize(pending, [child] + rest))
  {
    var p := Pending(path + [child.name], child.node);
    PendingPush(pending, p);
    assert ([child] + rest)[0] == child && ([child] + rest)[1..] == rest;
    hide PendingFiles, PendingReadable, PendingSize;
  }

  lemma TotalAtEnds(path: Path, node: Node, out: seq<Path>)
    requires node.Branch?
    ensures Total([], [Pending(path, node)], path, []) == Files(path, node) && (RestReadable([Pending(path, node)], []) <==> Readable(node))
    ensures Total(out, [], path, []) == multiset(out) && RestReadable([], [])
  {
    var p := Pending(path, node);
    PendingPush([], p);
    assert [] + [p] == [p] && PendingFiles([]) == multiset{};
    hide Files, Readable, Size;
  }

  lemma PathDoesNotMatter(out: seq<Path>, pending: seq<Pending>, a: Path, b: Path)
    ensures Total(out, pending, a, []) == Total(out, pending, b, [])
  {
    hide PendingFiles;
  }

  /** The walk over a stack of directories: every file under the directory, once; an unreadable directory ends it. */
  method Walk(path: Path, node: Node) returns (r: Option<seq<Path>>)
    requires node.Branch?
    ensures r.Some? <==> Readable(node)
    ensures r.Some? ==> multiset(r.value) == Files(path, node)
  {
    hide *;
    var out: seq<Path> := [];
    var pending := [Pending(path, node)];
    TotalAtEnds(path, node, out);
    while |pending| > 0
      invariant forall p <- pending :: p.node.Branch?
      invariant Total(out, pending, path, []) == Files(path, node)
      invariant RestReadable(pending, []) <==> Readable(node)
      decreases RestSize(pending, [])
    {
      var last := pending[|pending| - 1];
      ghost var before := pending;
      pending := pending[..|pending| - 1];
      assert before == pending + [last];
      TotalOpens(out, pending, last);
      PathDoesNotMatter(out, before, path, last.path);
      if !last.node.readable {
        return None;
      }
      var children := last.node.children;
      assert children[0..] == children;
      for i := 0 to |children|
        invariant forall p <- pending :: p.node.Branch?
        invariant Total(out, pending, last.path, children[i..]) == Files(path, node)
        invariant RestReadable(pending, children[i..]) <==> Readable(node)
        invariant RestSize(pending, children[i..]) < RestSize(before, [])
      {
        var child := children[i];
        assert children[i..] == [child] + children[i + 1..];
        TotalNext(out, pending, last.path, child, children[i + 1..]);
        if child.node.Branch? {
          pending := pending + [Pending(last.path + [child.name], child.node)];
        } else {
          out := out + [last.path + [child.name]];
        }
      }
      assert children[|children|..] == [];
      PathDoesNotMatter(out, pending, path, last.path);
    }
    TotalAtEnds(path, node, out);
    return Some(out);
  }
}
