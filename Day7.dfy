/** Day 7: a directory tree rebuilt from a terminal session of `cd` and `ls`
    commands, its recursive directory sizes, a pre-order listing of it, and two
    size queries. The tree is an arena: nodes live in a sequence, and each node
    names its parent and (for a directory) its children by index. Index 0 is the
    root, which is its own parent. */
module Day7 {
  import opened Wrappers
  import opened Text

  datatype Kind = Directory(children: seq<nat>) | File(size: nat)

  /** A file or directory, with the index of the directory it was listed in.
      A listing line without a second field gives a node without a name. */
  datatype Node = Node(name: Option<string>, parent: nat, kind: Kind)

  predicate IsDirectory(nodes: seq<Node>, i: nat) {
    i < |nodes| && nodes[i].kind.Directory?
  }

  /** The children of directory i all come after it, in increasing order, and
      name i as their parent. */
  ghost predicate ChildrenOk(nodes: seq<Node>, i: nat)
    requires IsDirectory(nodes, i)
  {
    var children := nodes[i].kind.children;
    (forall k :: 0 <= k < |children| ==> i < children[k] < |nodes| && nodes[children[k]].parent == i) &&
    (forall k, m :: 0 <= k < m < |children| ==> children[k] < children[m])
  }

  /** The arena is a tree rooted at 0: the root is a directory that is its own
      parent, every other node comes after its parent, which is a directory
      listing it among its children. */
  ghost predicate WellFormed(nodes: seq<Node>) {
    |nodes| >= 1 && nodes[0].kind.Directory? && nodes[0].parent == 0 &&
    (forall j :: 0 < j < |nodes| ==>
      nodes[j].parent < j && IsDirectory(nodes, nodes[j].parent) && j in nodes[nodes[j].parent].kind.children) &&
    (forall i :: IsDirectory(nodes, i) ==> ChildrenOk(nodes, i))
  }

  /** A node that can be added to a directory: a file, or an empty directory,
      listed in that directory. */
  predicate Fresh(node: Node, dir: nat) {
    node.parent == dir && (node.kind.Directory? ==> node.kind.children == [])
  }

  /** The arena after `node` is appended and listed last among the children of `dir`. */
  function Added(nodes: seq<Node>, dir: nat, node: Node): (r: seq<Node>)
    requires WellFormed(nodes) && IsDirectory(nodes, dir) && Fresh(node, dir)
    ensures WellFormed(r)
    ensures |r| == |nodes| + 1 && r[|nodes|] == node
    ensures forall j :: 0 <= j < |nodes| && j != dir ==> r[j] == nodes[j]
    ensures r[dir].name == nodes[dir].name && r[dir].parent == nodes[dir].parent
    ensures r[dir].kind.children == nodes[dir].kind.children + [|nodes|]
  {
    var d := nodes[dir];
    var r := nodes[dir := Node(d.name, d.parent, Directory(d.kind.children + [|nodes|]))] + [node];
    AddedWellFormed(nodes, dir, node, r);
    r
  }

  lemma AddedWellFormed(nodes: seq<Node>, dir: nat, node: Node, r: seq<Node>)
    requires WellFormed(nodes) && IsDirectory(nodes, dir) && Fresh(node, dir)
    requires r == nodes[dir := Node(nodes[dir].name, nodes[dir].parent, Directory(nodes[dir].kind.children + [|nodes|]))] + [node]
    ensures WellFormed(r)
  {
    AddedParents(nodes, dir, node, r);
    AddedChildren(nodes, dir, node, r);
  }

  lemma AddedParents(nodes: seq<Node>, dir: nat, node: Node, r: seq<Node>)
    requires WellFormed(nodes) && IsDirectory(nodes, dir) && Fresh(node, dir)
    requires r == nodes[dir := Node(nodes[dir].name, nodes[dir].parent, Directory(nodes[dir].kind.children + [|nodes|]))] + [node]
    ensures forall j :: 0 < j < |r| ==> r[j].parent < j && IsDirectory(r, r[j].parent) && j in r[r[j].parent].kind.children
  {
    var n := |nodes|;
    forall j | 0 < j < |r|
      ensures r[j].parent < j && IsDirectory(r, r[j].parent) && j in r[r[j].parent].kind.children
    {
      if j < n {
        var p := nodes[j].parent;
        assert r[j].parent == p;
        assert j in nodes[p].kind.children;
        if p == dir {
          assert r[p].kind.children == nodes[p].kind.children + [n];
        } else {
          assert r[p] == nodes[p];
        }
      }
    }
  }

  lemma AddedChildren(nodes: seq<Node>, dir: nat, node: Node, r: seq<Node>)
    requires WellFormed(nodes) && IsDirectory(nodes, dir) && Fresh(node, dir)
    requires r == nodes[dir := Node(nodes[dir].name, nodes[dir].parent, Directory(nodes[dir].kind.children + [|nodes|]))] + [node]
    ensures forall i :: IsDirectory(r, i) ==> ChildrenOk(r, i)
  {
    forall i: nat | IsDirectory(r, i)
      ensures ChildrenOk(r, i)
    {
      if i == dir {
        AddedChildrenOfDir(nodes, dir, node, r);
      } else if i < |nodes| {
        AddedChildrenElsewhere(nodes, dir, node, r, i);
      }
    }
  }

  lemma AddedChildrenOfDir(nodes: seq<Node>, dir: nat, node: Node, r: seq<Node>)
    requires WellFormed(nodes) && IsDirectory(nodes, dir) && Fresh(node, dir)
    requires r == nodes[dir := Node(nodes[dir].name, nodes[dir].parent, Directory(nodes[dir].kind.children + [|nodes|]))] + [node]
    ensures IsDirectory(r, dir) && ChildrenOk(r, dir)
  {
    assert ChildrenOk(nodes, dir);
    var children := r[dir].kind.children;
    forall k | 0 <= k < |children|
      ensures dir < children[k] < |r| && r[children[k]].parent == dir
    {
      if k < |children| - 1 {
        assert r[children[k]].parent == nodes[children[k]].parent;
      }
    }
  }

  lemma AddedChildrenElsewhere(nodes: seq<Node>, dir: nat, node: Node, r: seq<Node>, i: nat)
    requires WellFormed(nodes) && IsDirectory(nodes, dir) && Fresh(node, dir)
    requires r == nodes[dir := Node(nodes[dir].name, nodes[dir].parent, Directory(nodes[dir].kind.children + [|nodes|]))] + [node]
    requires i != dir && IsDirectory(nodes, i)
    ensures IsDirectory(r, i) && ChildrenOk(r, i)
  {
    assert ChildrenOk(nodes, i);
    assert r[i] == nodes[i];
    var children := r[i].kind.children;
    assert forall k :: 0 <= k < |children| ==> r[children[k]].parent == nodes[children[k]].parent;
  }


  class FileSystem {
    var nodes: seq<Node>

    ghost predicate Valid()
      reads this
    {
      WellFormed(nodes)
    }

    /** A file system holding only the root directory `/`. */
    constructor ()
      ensures Valid() && nodes == [Node(Some("/"), 0, Directory([]))]
    {
      nodes := [Node(Some("/"), 0, Directory([]))];
    }

    /** `Directory.addChild`: `node` becomes the last child of `dir`. */
    method AddChild(dir: nat, node: Node)
      requires Valid() && IsDirectory(nodes, dir) && Fresh(node, dir)
      modifies this
      ensures Valid()
      ensures nodes == Added(old(nodes), dir, node)
    {
      var d := nodes[dir];
      var before := nodes;
      nodes := nodes[dir := Node(d.name, d.parent, Directory(d.kind.children + [|nodes|]))] + [node];
      AddedWellFormed(before, dir, node, nodes);
    }

    /** `FileSystem.size`: the size of the root directory. */
    function Size(): nat
      reads this
      requires Valid()
    {
      SizeOf(nodes, 0)
    }
  }

  /** `Directory.isRoot`: a directory is the root when it is its own parent. */
  predicate IsRoot(nodes: seq<Node>, i: nat)
    requires i < |nodes|
  {
    nodes[i].parent == i
  }

  lemma IsRootOnlyRoot(nodes: seq<Node>, i: nat)
    requires WellFormed(nodes) && i < |nodes|
    ensures IsRoot(nodes, i) <==> i == 0
  {
  }

  /** The position of the first of `children[k..]` named `name`. */
  function FindChild(nodes: seq<Node>, children: seq<nat>, name: string, k: nat): (r: Option<nat>)
    requires k <= |children| && forall m :: 0 <= m < |children| ==> children[m] < |nodes|
    ensures r.Some? ==> k <= r.value < |children| && nodes[children[r.value]].name == Some(name)
    ensures r.Some? ==> forall m :: k <= m < r.value ==> nodes[children[m]].name != Some(name)
    ensures r.None? ==> forall m :: k <= m < |children| ==> nodes[children[m]].name != Some(name)
    decreases |children| - k
  {
    if k == |children| then None
    else if nodes[children[k]].name == Some(name) then Some(k)
    else FindChild(nodes, children, name, k + 1)
  }

  /** `Directory.get`: `..` is the parent; any other name is the first child so
      named, if there is one. */
  function Get(nodes: seq<Node>, dir: nat, name: string): (r: Option<nat>)
    requires WellFormed(nodes) && IsDirectory(nodes, dir)
    ensures name == ".." ==> r == Some(nodes[dir].parent)
    ensures name != ".." && r.Some? ==>
      r.value in nodes[dir].kind.children && nodes[r.value].name == Some(name) && nodes[r.value].parent == dir &&
      exists k :: 0 <= k < |nodes[dir].kind.children| && nodes[dir].kind.children[k] == r.value &&
        forall m :: 0 <= m < k ==> nodes[nodes[dir].kind.children[m]].name != Some(name)
    ensures name != ".." && r.None? ==> forall c :: c in nodes[dir].kind.children ==> nodes[c].name != Some(name)
    ensures r.Some? ==> r.value < |nodes|
  {
    assert ChildrenOk(nodes, dir);
    if name == ".." then Some(nodes[dir].parent)
    else
      var children := nodes[dir].kind.children;
      match FindChild(nodes, children, name, 0)
      case None => None
      case Some(k) => Some(children[k])
  }

  /** `size`: a file's own size, or the sum of a directory's children's sizes. */
  function SizeOf(nodes: seq<Node>, i: nat): nat
    requires WellFormed(nodes) && i < |nodes|
    decreases |nodes| - i, 1
  {
    match nodes[i].kind
    case File(size) => size
    case Directory(children) => ChildrenSize(nodes, i, 0)
  }

  /** The sum of the sizes of the children of directory i from the k-th on. */
  function ChildrenSize(nodes: seq<Node>, i: nat, k: nat): nat
    requires WellFormed(nodes) && IsDirectory(nodes, i) && k <= |nodes[i].kind.children|
    decreases |nodes| - i, 0, |nodes[i].kind.children| - k
  {
    var children := nodes[i].kind.children;
    assert ChildrenOk(nodes, i);
    if k == |children| then 0
    else SizeOf(nodes, children[k]) + ChildrenSize(nodes, i, k + 1)
  }

  /** `depthTraversal`: each child, followed (for a directory) by its own traversal. */
  function Traversal(nodes: seq<Node>, i: nat): (r: seq<nat>)
    requires WellFormed(nodes) && i < |nodes|
    ensures forall m :: 0 <= m < |r| ==> i < r[m] < |nodes|
    decreases |nodes| - i, 1
  {
    match nodes[i].kind
    case File(_) => []
    case Directory(_) => ChildrenTraversal(nodes, i, 0)
  }

  function ChildrenTraversal(nodes: seq<Node>, i: nat, k: nat): (r: seq<nat>)
    requires WellFormed(nodes) && IsDirectory(nodes, i) && k <= |nodes[i].kind.children|
    ensures forall m :: 0 <= m < |r| ==> i < r[m] < |nodes|
    decreases |nodes| - i, 0, |nodes[i].kind.children| - k
  {
    var children := nodes[i].kind.children;
    assert ChildrenOk(nodes, i);
    if k == |children| then []
    else [children[k]] + Traversal(nodes, children[k]) + ChildrenTraversal(nodes, i, k + 1)
  }

  /** x lies strictly below directory a: following parents from x reaches a. */
  ghost predicate Descendant(nodes: seq<Node>, a: nat, x: nat)
    requires WellFormed(nodes) && x < |nodes|
    decreases x
  {
    x != 0 && (nodes[x].parent == a || Descendant(nodes, a, nodes[x].parent))
  }

  lemma {:induction false} DescendantAfter(nodes: seq<Node>, a: nat, x: nat)
    requires WellFormed(nodes) && x < |nodes| && Descendant(nodes, a, x)
    ensures a < x
    decreases x
  {
    if nodes[x].parent != a {
      DescendantAfter(nodes, a, nodes[x].parent);
    }
  }

  lemma {:induction false} DescendantTransitive(nodes: seq<Node>, a: nat, b: nat, x: nat)
    requires WellFormed(nodes) && b < |nodes| && x < |nodes|
    requires Descendant(nodes, a, b) && Descendant(nodes, b, x)
    ensures Descendant(nodes, a, x)
    decreases x
  {
    if nodes[x].parent != b {
      DescendantTransitive(nodes, a, b, nodes[x].parent);
    }
  }

  /** Every node but the root lies below the root. */
  lemma {:induction false} BelowRoot(nodes: seq<Node>, x: nat)
    requires WellFormed(nodes) && 0 < x < |nodes|
    ensures Descendant(nodes, 0, x)
    decreases x
  {
    if nodes[x].parent != 0 {
      BelowRoot(nodes, nodes[x].parent);
    }
  }

  /** x is c or lies below c. */
  ghost predicate InSubtree(nodes: seq<Node>, c: nat, x: nat)
    requires WellFormed(nodes) && x < |nodes|
  {
    x == c || Descendant(nodes, c, x)
  }

  /** Two siblings' subtrees share no node. */
  lemma {:induction false} SubtreesDisjoint(nodes: seq<Node>, c1: nat, c2: nat, x: nat)
    requires WellFormed(nodes) && 0 < c1 < |nodes| && 0 < c2 < |nodes| && x < |nodes|
    requires nodes[c1].parent == nodes[c2].parent
    requires InSubtree(nodes, c1, x) && InSubtree(nodes, c2, x)
    ensures c1 == c2
    decreases x
  {
    var p := nodes[c1].parent;
    if x == c1 && x != c2 {
      if p != c2 {
        DescendantAfter(nodes, c2, p);
      }
    } else if x == c2 && x != c1 {
      if p != c1 {
        DescendantAfter(nodes, c1, p);
      }
    } else if x != c1 && x != c2 {
      SubtreesDisjoint(nodes, c1, c2, nodes[x].parent);
    }
  }

  /** The traversal lists only nodes below the directory. */
  lemma {:induction false} TraversalBelow(nodes: seq<Node>, i: nat)
    requires WellFormed(nodes) && i < |nodes|
    ensures forall m :: 0 <= m < |Traversal(nodes, i)| ==> Descendant(nodes, i, Traversal(nodes, i)[m])
    decreases |nodes| - i, 1
  {
    if nodes[i].kind.Directory? {
      ChildrenTraversalBelow(nodes, i, 0);
    }
  }

  /** x lies in the subtree of one of children k, k + 1, ... of directory i. */
  ghost predicate InLaterSubtree(nodes: seq<Node>, i: nat, k: nat, x: nat)
    requires WellFormed(nodes) && IsDirectory(nodes, i) && x < |nodes|
  {
    exists n :: k <= n < |nodes[i].kind.children| && InSubtree(nodes, nodes[i].kind.children[n], x)
  }

  lemma {:induction false} ChildrenTraversalBelow(nodes: seq<Node>, i: nat, k: nat)
    requires WellFormed(nodes) && IsDirectory(nodes, i) && k <= |nodes[i].kind.children|
    ensures forall m :: 0 <= m < |ChildrenTraversal(nodes, i, k)| ==> InLaterSubtree(nodes, i, k, ChildrenTraversal(nodes, i, k)[m])
    ensures forall m :: 0 <= m < |ChildrenTraversal(nodes, i, k)| ==> Descendant(nodes, i, ChildrenTraversal(nodes, i, k)[m])
    decreases |nodes| - i, 0, |nodes[i].kind.children| - k
  {
    var children := nodes[i].kind.children;
    assert ChildrenOk(nodes, i);
    if k < |children| {
      var c := children[k];
      var below, rest := Traversal(nodes, c), ChildrenTraversal(nodes, i, k + 1);
      TraversalBelow(nodes, c);
      ChildrenTraversalBelow(nodes, i, k + 1);
      var r := ChildrenTraversal(nodes, i, k);
      assert r == [c] + below + rest;
      forall m | 0 <= m < |r|
        ensures InLaterSubtree(nodes, i, k, r[m]) && Descendant(nodes, i, r[m])
      {
        if m < 1 + |below| {
          FirstChildBlockBelow(nodes, i, k, r[m]);
        } else {
          assert r[m] == rest[m - 1 - |below|];
          assert InLaterSubtree(nodes, i, k + 1, r[m]);
        }
      }
    }
  }

  /** Child k of directory i and everything under it lie below i. */
  lemma FirstChildBlockBelow(nodes: seq<Node>, i: nat, k: nat, x: nat)
    requires WellFormed(nodes) && IsDirectory(nodes, i) && k < |nodes[i].kind.children|
    requires x == nodes[i].kind.children[k] || x in Traversal(nodes, nodes[i].kind.children[k])
    requires var c := nodes[i].kind.children[k];
      forall m :: 0 <= m < |Traversal(nodes, c)| ==> Descendant(nodes, c, Traversal(nodes, c)[m])
    ensures x < |nodes| && InLaterSubtree(nodes, i, k, x) && Descendant(nodes, i, x)
  {
    assert ChildrenOk(nodes, i);
    var c := nodes[i].kind.children[k];
    assert Descendant(nodes, i, c);
    if x != c {
      var m :| 0 <= m < |Traversal(nodes, c)| && Traversal(nodes, c)[m] == x;
      DescendantTransitive(nodes, i, c, x);
    }
    assert InSubtree(nodes, c, x);
  }


  /** A child of directory i, and everything listed below it, is listed from the
      k-th child's block on, for every child at or after position k. */
  lemma {:induction false} ChildrenTraversalHas(nodes: seq<Node>, i: nat, k: nat, n: nat)
    requires WellFormed(nodes) && IsDirectory(nodes, i) && k <= n < |nodes[i].kind.children|
    ensures nodes[i].kind.children[n] < |nodes|
    ensures nodes[i].kind.children[n] in ChildrenTraversal(nodes, i, k)
    ensures forall y :: y in Traversal(nodes, nodes[i].kind.children[n]) ==> y in ChildrenTraversal(nodes, i, k)
    decreases n - k
  {
    assert ChildrenOk(nodes, i);
    var children := nodes[i].kind.children;
    var r := ChildrenTraversal(nodes, i, k);
    assert r == [children[k]] + Traversal(nodes, children[k]) + ChildrenTraversal(nodes, i, k + 1);
    if n > k {
      ChildrenTraversalHas(nodes, i, k + 1, n);
    }
  }

  /** Everything listed below a listed directory is listed too. */
  lemma {:induction false} TraversalNested(nodes: seq<Node>, i: nat, p: nat)
    requires WellFormed(nodes) && i < |nodes| && p in Traversal(nodes, i)
    ensures forall y :: y in Traversal(nodes, p) ==> y in Traversal(nodes, i)
    decreases |nodes| - i, 1
  {
    ChildrenTraversalNested(nodes, i, 0, p);
  }

  lemma {:induction false} ChildrenTraversalNested(nodes: seq<Node>, i: nat, k: nat, p: nat)
    requires WellFormed(nodes) && IsDirectory(nodes, i) && k <= |nodes[i].kind.children|
    requires p in ChildrenTraversal(nodes, i, k)
    ensures p < |nodes|
    ensures forall y :: y in Traversal(nodes, p) ==> y in ChildrenTraversal(nodes, i, k)
    decreases |nodes| - i, 0, |nodes[i].kind.children| - k
  {
    assert ChildrenOk(nodes, i);
    var children := nodes[i].kind.children;
    var c := children[k];
    var below, rest := Traversal(nodes, c), ChildrenTraversal(nodes, i, k + 1);
    var r := ChildrenTraversal(nodes, i, k);
    assert r == [c] + below + rest;
    if p == c {
    } else if p in below {
      TraversalNested(nodes, c, p);
    } else {
      assert p in rest;
      ChildrenTraversalNested(nodes, i, k + 1, p);
    }
  }

  /** The traversal lists every node below the directory. */
  lemma {:induction false} TraversalComplete(nodes: seq<Node>, i: nat, x: nat)
    requires WellFormed(nodes) && i < |nodes| && x < |nodes| && Descendant(nodes, i, x)
    ensures x in Traversal(nodes, i)
    decreases x
  {
    var p := nodes[x].parent;
    assert IsDirectory(nodes, p) && x in nodes[p].kind.children;
    var n :| 0 <= n < |nodes[p].kind.children| && nodes[p].kind.children[n] == x;
    ChildrenTraversalHas(nodes, p, 0, n);
    if p != i {
      TraversalComplete(nodes, i, p);
      TraversalNested(nodes, i, p);
    }
  }

  /** No node is listed twice. */
  predicate Distinct(s: seq<nat>) {
    forall a, b :: 0 <= a < b < |s| ==> s[a] != s[b]
  }

  lemma DistinctConcat(s: seq<nat>, t: seq<nat>)
    requires Distinct(s) && Distinct(t) && forall a :: 0 <= a < |s| ==> s[a] !in t
    ensures Distinct(s + t)
  {
    var u := s + t;
    forall a, b | 0 <= a < b < |u|
      ensures u[a] != u[b]
    {
      if a < |s| && b >= |s| {
        assert u[b] == t[b - |s|];
      }
    }
  }

  lemma {:induction false} TraversalDistinct(nodes: seq<Node>, i: nat)
    requires WellFormed(nodes) && i < |nodes|
    ensures Distinct(Traversal(nodes, i))
    decreases |nodes| - i, 1
  {
    if nodes[i].kind.Directory? {
      ChildrenTraversalDistinct(nodes, i, 0);
    }
  }

  lemma {:induction false} ChildrenTraversalDistinct(nodes: seq<Node>, i: nat, k: nat)
    requires WellFormed(nodes) && IsDirectory(nodes, i) && k <= |nodes[i].kind.children|
    ensures Distinct(ChildrenTraversal(nodes, i, k))
    decreases |nodes| - i, 0, |nodes[i].kind.children| - k
  {
    assert ChildrenOk(nodes, i);
    var children := nodes[i].kind.children;
    if k < |children| {
      var c := children[k];
      var below, rest := Traversal(nodes, c), ChildrenTraversal(nodes, i, k + 1);
      TraversalDistinct(nodes, c);
      ChildrenTraversalDistinct(nodes, i, k + 1);
      TraversalBelow(nodes, c);
      DistinctConcat([c], below);
      var block := [c] + below;
      BlockMissesRest(nodes, i, k);
      DistinctConcat(block, rest);
      assert ChildrenTraversal(nodes, i, k) == block + rest;
    }
  }

  /** Child k's block of the listing shares nothing with the blocks after it. */
  lemma BlockMissesRest(nodes: seq<Node>, i: nat, k: nat)
    requires WellFormed(nodes) && IsDirectory(nodes, i) && k < |nodes[i].kind.children|
    ensures var c := nodes[i].kind.children[k];
      forall a :: 0 <= a < |[c] + Traversal(nodes, c)| ==> ([c] + Traversal(nodes, c))[a] !in ChildrenTraversal(nodes, i, k + 1)
  {
    assert ChildrenOk(nodes, i);
    var children := nodes[i].kind.children;
    var c := children[k];
    var block, rest := [c] + Traversal(nodes, c), ChildrenTraversal(nodes, i, k + 1);
    TraversalBelow(nodes, c);
    ChildrenTraversalBelow(nodes, i, k + 1);
    forall a | 0 <= a < |block|
      ensures block[a] !in rest
    {
      FirstChildBlockBelow(nodes, i, k, block[a]);
      if block[a] in rest {
        var m :| 0 <= m < |rest| && rest[m] == block[a];
        assert InLaterSubtree(nodes, i, k + 1, rest[m]);
        var n :| k + 1 <= n < |children| && InSubtree(nodes, children[n], rest[m]);
        SubtreesDisjoint(nodes, c, children[n], block[a]);
      }
    }
  }


  /** The root's traversal lists every other node exactly once. */
  lemma RootTraversal(nodes: seq<Node>)
    requires WellFormed(nodes)
    ensures Distinct(Traversal(nodes, 0))
    ensures forall x :: x in Traversal(nodes, 0) <==> 0 < x < |nodes|
  {
    TraversalDistinct(nodes, 0);
    forall x | 0 < x < |nodes|
      ensures x in Traversal(nodes, 0)
    {
      BelowRoot(nodes, x);
      TraversalComplete(nodes, 0, x);
    }
  }

  /** A file's own size; a directory holds none itself. */
  function FileSize(node: Node): nat {
    match node.kind
    case File(size) => size
    case Directory(_) => 0
  }

  /** The total size of the files among the listed nodes. */
  function FileTotal(nodes: seq<Node>, s: seq<nat>): nat
    requires forall m :: 0 <= m < |s| ==> s[m] < |nodes|
  {
    if s == [] then 0
    else FileSize(nodes[s[0]]) + FileTotal(nodes, s[1..])
  }

  lemma {:induction false} FileTotalConcat(nodes: seq<Node>, s: seq<nat>, t: seq<nat>)
    requires forall m :: 0 <= m < |s| ==> s[m] < |nodes|
    requires forall m :: 0 <= m < |t| ==> t[m] < |nodes|
    ensures FileTotal(nodes, s + t) == FileTotal(nodes, s) + FileTotal(nodes, t)
  {
    if s != [] {
      assert (s + t)[1..] == s[1..] + t;
      FileTotalConcat(nodes, s[1..], t);
    } else {
      assert s + t == t;
    }
  }

  /** A directory's size is the total size of the files listed below it. */
  lemma {:induction false} SizeIsFileTotal(nodes: seq<Node>, i: nat)
    requires WellFormed(nodes) && IsDirectory(nodes, i)
    ensures SizeOf(nodes, i) == FileTotal(nodes, Traversal(nodes, i))
    decreases |nodes| - i, 1
  {
    ChildrenSizeIsFileTotal(nodes, i, 0);
  }

  lemma {:induction false} ChildrenSizeIsFileTotal(nodes: seq<Node>, i: nat, k: nat)
    requires WellFormed(nodes) && IsDirectory(nodes, i) && k <= |nodes[i].kind.children|
    ensures ChildrenSize(nodes, i, k) == FileTotal(nodes, ChildrenTraversal(nodes, i, k))
    decreases |nodes| - i, 0, |nodes[i].kind.children| - k
  {
    assert ChildrenOk(nodes, i);
    var children := nodes[i].kind.children;
    if k < |children| {
      var c := children[k];
      var below, rest := Traversal(nodes, c), ChildrenTraversal(nodes, i, k + 1);
      ChildrenSizeIsFileTotal(nodes, i, k + 1);
      assert ChildrenTraversal(nodes, i, k) == ([c] + below) + rest;
      BlockTotal(nodes, c, below, rest);
      if nodes[c].kind.Directory? {
        SizeIsFileTotal(nodes, c);
      }
    }
  }

  lemma BlockTotal(nodes: seq<Node>, c: nat, below: seq<nat>, rest: seq<nat>)
    requires c < |nodes|
    requires forall m :: 0 <= m < |below| ==> below[m] < |nodes|
    requires forall m :: 0 <= m < |rest| ==> rest[m] < |nodes|
    ensures FileTotal(nodes, [c] + below + rest) == FileSize(nodes[c]) + FileTotal(nodes, below) + FileTotal(nodes, rest)
  {
    FileTotalConcat(nodes, [c] + below, rest);
    FileTotalConcat(nodes, [c], below);
    assert FileTotal(nodes, [c]) == FileSize(nodes[c]) by {
      assert [c][1..] == [];
    }
  }

  /** The whole tree's size is the total size of all its files. */
  lemma RootSize(nodes: seq<Node>)
    requires WellFormed(nodes)
    ensures SizeOf(nodes, 0) == FileTotal(nodes, Traversal(nodes, 0))
  {
    SizeIsFileTotal(nodes, 0);
  }

  /** The elements of `s` that `p` accepts, in order. */
  function Filter(s: seq<nat>, p: nat -> bool): (r: seq<nat>)
    ensures |r| <= |s|
    ensures forall x :: x in r <==> x in s && p(x)
  {
    if s == [] then []
    else (if p(s[0]) then [s[0]] else []) + Filter(s[1..], p)
  }

  /** Filtering keeps the order: it distributes over concatenation. */
  lemma {:induction false} FilterConcat(s: seq<nat>, t: seq<nat>, p: nat -> bool)
    ensures Filter(s + t, p) == Filter(s, p) + Filter(t, p)
  {
    if s != [] {
      assert (s + t)[1..] == s[1..] + t;
      FilterConcat(s[1..], t, p);
    } else {
      assert s + t == t;
    }
  }

  lemma {:induction false} FilterDistinct(s: seq<nat>, p: nat -> bool)
    requires Distinct(s)
    ensures Distinct(Filter(s, p))
  {
    if s != [] {
      FilterDistinct(s[1..], p);
      var head := if p(s[0]) then [s[0]] else [];
      assert s[0] !in s[1..];
      DistinctConcat(head, Filter(s[1..], p));
    }
  }

  /** `query`: the nodes below directory i that satisfy `p`, in traversal order. */
  function Query(nodes: seq<Node>, i: nat, p: nat -> bool): (r: seq<nat>)
    requires WellFormed(nodes) && i < |nodes|
    ensures forall m :: 0 <= m < |r| ==> i < r[m] < |nodes|
    ensures forall m :: 0 <= m < |r| ==> Descendant(nodes, i, r[m]) && p(r[m])
  {
    var listed := Traversal(nodes, i);
    var r := Filter(listed, p);
    TraversalBelow(nodes, i);
    forall m | 0 <= m < |r|
      ensures i < r[m] < |nodes| && Descendant(nodes, i, r[m]) && p(r[m])
    {
      assert r[m] in listed;
      var k :| 0 <= k < |listed| && listed[k] == r[m];
    }
    r
  }

  /** The sum of the sizes of the listed nodes. */
  function SumSizes(nodes: seq<Node>, s: seq<nat>): nat
    requires WellFormed(nodes) && forall m :: 0 <= m < |s| ==> s[m] < |nodes|
  {
    if s == [] then 0 else SizeOf(nodes, s[0]) + SumSizes(nodes, s[1..])
  }

  const SmallLimit := 100000
  const TotalSpace := 70000000
  const RequiredSpace := 30000000

  /** The directories smaller than the part 1 limit, listed below the root. */
  function SmallDirectories(nodes: seq<Node>): (r: seq<nat>)
    requires WellFormed(nodes)
    ensures Distinct(r)
    ensures forall x :: x in r <==> 0 < x < |nodes| && nodes[x].kind.Directory? && SizeOf(nodes, x) < SmallLimit
    ensures forall m :: 0 <= m < |r| ==> r[m] < |nodes|
  {
    RootTraversal(nodes);
    var r := Query(nodes, 0, (x: nat) => x < |nodes| && nodes[x].kind.Directory? && SizeOf(nodes, x) < SmallLimit);
    FilterDistinct(Traversal(nodes, 0), (x: nat) => x < |nodes| && nodes[x].kind.Directory? && SizeOf(nodes, x) < SmallLimit);
    r
  }

  /** Part 1: the sum of the sizes of the directories, other than the root,
      smaller than 100000 (each counted once). */
  function Part1Solution(nodes: seq<Node>): (r: nat)
    requires WellFormed(nodes)
    ensures forall x :: x in SmallDirectories(nodes) ==> SizeOf(nodes, x) <= r
    ensures r <= |SmallDirectories(nodes)| * (SmallLimit - 1)
  {
    SumSizesBounds(nodes, SmallDirectories(nodes));
    SumSizes(nodes, SmallDirectories(nodes))
  }

  /** Each listed size counts toward the sum, and sizes below the limit keep
      the sum below the limit times their number. */
  lemma {:induction false} SumSizesBounds(nodes: seq<Node>, s: seq<nat>)
    requires WellFormed(nodes) && forall m :: 0 <= m < |s| ==> s[m] < |nodes|
    ensures forall x :: x in s ==> SizeOf(nodes, x) <= SumSizes(nodes, s)
    ensures (forall m :: 0 <= m < |s| ==> SizeOf(nodes, s[m]) < SmallLimit) ==>
      SumSizes(nodes, s) <= |s| * (SmallLimit - 1)
  {
    if s != [] {
      SumSizesBounds(nodes, s[1..]);
      assert forall x :: x in s ==> x == s[0] || x in s[1..];
    }
  }

  /** The fold of part 2: the least size at least `need` among the listed nodes,
      starting from `least`. */
  function LeastAtLeast(nodes: seq<Node>, s: seq<nat>, need: int, least: int): (r: int)
    requires WellFormed(nodes) && forall m :: 0 <= m < |s| ==> s[m] < |nodes|
    ensures r <= least
    ensures r == least || exists m :: 0 <= m < |s| && SizeOf(nodes, s[m]) == r && r >= need
    ensures forall m :: 0 <= m < |s| && SizeOf(nodes, s[m]) >= need ==> r <= SizeOf(nodes, s[m])
  {
    if s == [] then least
    else
      var size := SizeOf(nodes, s[0]);
      var next := if size < need then least else if size < least then size else least;
      var r := LeastAtLeast(nodes, s[1..], need, next);
      LeastAtLeastStep(nodes, s, need, least, next, r);
      r
  }

  /** The scan of `s[1..]` from `next` answers for `s` from `least`. */
  lemma LeastAtLeastStep(nodes: seq<Node>, s: seq<nat>, need: int, least: int, next: int, r: int)
    requires WellFormed(nodes) && s != [] && forall m :: 0 <= m < |s| ==> s[m] < |nodes|
    requires next == if SizeOf(nodes, s[0]) < need then least else if SizeOf(nodes, s[0]) < least then SizeOf(nodes, s[0]) else least
    requires r <= next
    requires r == next || exists m :: 0 <= m < |s[1..]| && SizeOf(nodes, s[1..][m]) == r && r >= need
    requires forall m :: 0 <= m < |s[1..]| && SizeOf(nodes, s[1..][m]) >= need ==> r <= SizeOf(nodes, s[1..][m])
    ensures r <= least
    ensures r == least || exists m :: 0 <= m < |s| && SizeOf(nodes, s[m]) == r && r >= need
    ensures forall m :: 0 <= m < |s| && SizeOf(nodes, s[m]) >= need ==> r <= SizeOf(nodes, s[m])
  {
    if r != next {
      var m :| 0 <= m < |s[1..]| && SizeOf(nodes, s[1..][m]) == r && r >= need;
      assert s[m + 1] == s[1..][m];
    }
    assert forall m :: 1 <= m < |s| ==> s[m] == s[1..][m - 1];
  }

  /** Part 2: the size of the smallest directory whose deletion leaves the
      required free space. The root frees everything, so it always qualifies. */
  function Part2Solution(nodes: seq<Node>): (r: int)
    requires WellFormed(nodes)
    ensures exists j :: IsDirectory(nodes, j) && SizeOf(nodes, j) == r
    ensures r >= RequiredSpace - (TotalSpace - SizeOf(nodes, 0))
    ensures forall j :: IsDirectory(nodes, j) && SizeOf(nodes, j) >= RequiredSpace - (TotalSpace - SizeOf(nodes, 0)) ==>
      r <= SizeOf(nodes, j)
  {
    var rootSize := SizeOf(nodes, 0);
    var toDelete := RequiredSpace - (TotalSpace - rootSize);
    var directories := Directories(nodes);
    var r := LeastAtLeast(nodes, directories, toDelete, rootSize);
    LeastDirectory(nodes, directories, toDelete, r);
    r
  }

  /** Every directory below the root, in traversal order. */
  function Directories(nodes: seq<Node>): (r: seq<nat>)
    requires WellFormed(nodes)
    ensures forall x :: x in r <==> 0 < x < |nodes| && nodes[x].kind.Directory?
    ensures forall m :: 0 <= m < |r| ==> r[m] < |nodes|
  {
    RootTraversal(nodes);
    Query(nodes, 0, (x: nat) => x < |nodes| && nodes[x].kind.Directory?)
  }

  /** Scanning every directory below the root from the root's size finds the
      smallest directory, root included, of at least `toDelete`. */
  lemma LeastDirectory(nodes: seq<Node>, directories: seq<nat>, toDelete: int, r: int)
    requires WellFormed(nodes)
    requires forall x :: x in directories <==> 0 < x < |nodes| && nodes[x].kind.Directory?
    requires forall m :: 0 <= m < |directories| ==> directories[m] < |nodes|
    requires r == LeastAtLeast(nodes, directories, toDelete, SizeOf(nodes, 0))
    ensures exists j :: IsDirectory(nodes, j) && SizeOf(nodes, j) == r
    ensures forall j :: IsDirectory(nodes, j) && SizeOf(nodes, j) >= toDelete ==> r <= SizeOf(nodes, j)
  {
    assert IsDirectory(nodes, 0);
    forall j | IsDirectory(nodes, j) && SizeOf(nodes, j) >= toDelete
      ensures r <= SizeOf(nodes, j)
    {
      if j != 0 {
        assert j in directories;
      }
    }
    if r != SizeOf(nodes, 0) {
      var m :| 0 <= m < |directories| && SizeOf(nodes, directories[m]) == r && r >= toDelete;
      assert directories[m] in directories;
      assert IsDirectory(nodes, directories[m]);
    }
  }

  /** One line of the terminal session, as the source tells them apart. A
      listing line may lack its name field. */
  datatype Line = Cd(target: string) | Ls | DirEntry(name: Option<string>) | FileEntry(size: nat, name: Option<string>)

  /** The second field of a listing line, if there is one. */
  function NameField(fields: seq<string>): Option<string> {
    if |fields| >= 2 then Some(fields[1]) else None
  }

  /** `$ cd` takes the last space-separated field as the target; `$ ls` is
      skipped; `dir x` names a directory; any other line is `size name`, whose
      size goes through `Number`: an empty field is 0, a numeral its value,
      and anything else is refused. */
  function ParseLine(line: string): (r: Result<Line>)
    ensures StartsWith(line, "$ cd") ==> r == Ok(Cd(Split(line, ' ')[|Split(line, ' ')| - 1]))
    ensures !StartsWith(line, "$ cd") && StartsWith(line, "$ ls") ==> r == Ok(Ls)
    ensures !StartsWith(line, "$ cd") && !StartsWith(line, "$ ls") && StartsWith(line, "dir") ==>
      r == Ok(DirEntry(NameField(Split(line, ' '))))
    ensures !StartsWith(line, "$ cd") && !StartsWith(line, "$ ls") && !StartsWith(line, "dir") ==>
      (r.Ok? <==> Split(line, ' ')[0] == [] || AllDigits(Split(line, ' ')[0]))
    ensures r.Ok? && r.value.FileEntry? ==>
      !StartsWith(line, "$ cd") && !StartsWith(line, "$ ls") && !StartsWith(line, "dir") &&
      r.value.name == NameField(Split(line, ' ')) &&
      (Split(line, ' ')[0] == [] ==> r.value.size == 0) &&
      (Split(line, ' ')[0] != [] ==> ParseNat(Split(line, ' ')[0]) == Some(r.value.size))
  {
    var fields := Split(line, ' ');
    if StartsWith(line, "$ cd") then Ok(Cd(fields[|fields| - 1]))
    else if StartsWith(line, "$ ls") then Ok(Ls)
    else if StartsWith(line, "dir") then Ok(DirEntry(NameField(fields)))
    else if fields[0] == [] then Ok(FileEntry(0, NameField(fields)))
    else match ParseNat(fields[0])
      case None => Err("file size is not a number: " + line)
      case Some(size) => Ok(FileEntry(size, NameField(fields)))
  }

  /** A field without spaces, when there is one. */
  predicate NoSpace(name: Option<string>) {
    name.Some? ==> ' ' !in name.value
  }

  /** A line the session could print: names and targets hold no spaces. */
  predicate Printable(l: Line) {
    match l
    case Cd(target) => ' ' !in target
    case Ls => true
    case DirEntry(name) => NoSpace(name)
    case FileEntry(_, name) => NoSpace(name)
  }

  /** A line as the terminal prints it. */
  function LineString(l: Line): string {
    var tail := if l.DirEntry? || l.FileEntry? then (if l.name.Some? then " " + l.name.value else "") else "";
    match l
    case Cd(target) => "$ cd " + target
    case Ls => "$ ls"
    case DirEntry(_) => "dir" + tail
    case FileEntry(size, _) => ShowNat(size) + tail
  }

  /** Splitting `head` followed by an optional ` name` gives `head` and, when
      present, the name. */
  lemma SplitNamed(head: string, name: Option<string>)
    requires ' ' !in head && NoSpace(name)
    ensures var line := head + (if name.Some? then " " + name.value else "");
      Split(line, ' ')[0] == head && NameField(Split(line, ' ')) == name
  {
    if name.Some? {
      SplitAtFirstSeparator(head, ' ', name.value);
      SplitWithoutSeparator(name.value, ' ');
      assert head + (" " + name.value) == head + [' '] + name.value;
      assert Split(head + [' '] + name.value, ' ') == [head, name.value];
    } else {
      assert head + "" == head;
      SplitWithoutSeparator(head, ' ');
    }
  }

  /** A printed `cd` line reads back as the same target. */
  lemma ParsePrintedCd(target: string)
    requires ' ' !in target
    ensures ParseLine("$ cd " + target) == Ok(Cd(target))
  {
    var line := "$ cd " + target;
    assert line == "$" + [' '] + ("cd" + [' '] + target);
    SplitAtFirstSeparator("$", ' ', "cd" + [' '] + target);
    SplitAtFirstSeparator("cd", ' ', target);
    SplitWithoutSeparator(target, ' ');
    assert Split(line, ' ') == ["$", "cd", target];
    assert line[..4] == "$ cd";
  }

  /** A printed `dir` line reads back as the same, possibly missing, name. */
  lemma ParsePrintedDir(name: Option<string>)
    requires NoSpace(name)
    ensures ParseLine(LineString(DirEntry(name))) == Ok(DirEntry(name))
  {
    var line := LineString(DirEntry(name));
    SplitNamed("dir", name);
    assert line[..3] == "dir";
    assert line[1] == 'i';
  }

  /** A printed file line reads back as the same size and name. */
  lemma ParsePrintedFile(size: nat, name: Option<string>)
    requires NoSpace(name)
    ensures ParseLine(LineString(FileEntry(size, name))) == Ok(FileEntry(size, name))
  {
    var digits := ShowNat(size);
    var line := LineString(FileEntry(size, name));
    assert ' ' !in digits;
    SplitNamed(digits, name);
    ShowNatRoundTrip(size);
    assert line[0] == digits[0] && IsDigit(digits[0]);
    assert !StartsWith(line, "$ cd") && !StartsWith(line, "$ ls") && !StartsWith(line, "dir");
  }

  /** Reading back a printed line gives the line. */
  lemma ParsePrintedLine(l: Line)
    requires Printable(l)
    ensures ParseLine(LineString(l)) == Ok(l)
  {
    match l
    case Cd(target) => ParsePrintedCd(target);
    case Ls => assert LineString(l)[..4] == "$ ls" != "$ cd";
    case DirEntry(name) => ParsePrintedDir(name);
    case FileEntry(size, name) => ParsePrintedFile(size, name);
  }

  /** The tree built so far and the directory the session is in. */
  datatype Session = Session(nodes: seq<Node>, cursor: nat)

  ghost predicate SessionOk(session: Session) {
    WellFormed(session.nodes) && IsDirectory(session.nodes, session.cursor)
  }

  /** The effect of one line: `cd /` returns to the root, `cd x` enters what
      `get(x)` finds and fails unless it is a directory, `ls` does nothing, and
      `dir`/file lines add a node to the current directory. */
  function Step(session: Session, line: Line): (r: Result<Session>)
    requires SessionOk(session)
    ensures r.Ok? ==> SessionOk(r.value)
    ensures r.Err? <==> (line.Cd? && line.target != "/" &&
      (Get(session.nodes, session.cursor, line.target).None? ||
       !IsDirectory(session.nodes, Get(session.nodes, session.cursor, line.target).value)))
    ensures line.Cd? && line.target == "/" ==> r == Ok(Session(session.nodes, 0))
    ensures line.Cd? && r.Ok? ==> r.value.nodes == session.nodes
    ensures line.Cd? && line.target != "/" && r.Ok? ==>
      r.value.cursor == Get(session.nodes, session.cursor, line.target).value
    ensures line.Ls? ==> r == Ok(session)
    ensures line.DirEntry? ==> (r.Ok? && r.value.cursor == session.cursor &&
      r.value.nodes == Added(session.nodes, session.cursor, Node(line.name, session.cursor, Directory([]))))
    ensures line.FileEntry? ==> (r.Ok? && r.value.cursor == session.cursor &&
      r.value.nodes == Added(session.nodes, session.cursor, Node(line.name, session.cursor, File(line.size))))
  {
    var nodes, cursor := session.nodes, session.cursor;
    match line
    case Cd(name) =>
      if name == "/" then Ok(Session(nodes, 0))
      else (match Get(nodes, cursor, name)
        case Some(j) => if IsDirectory(nodes, j) then Ok(Session(nodes, j)) else Err("not a directory: " + name)
        case None => Err("not a directory: " + name))
    case Ls => Ok(session)
    case DirEntry(name) => Ok(Session(Added(nodes, cursor, Node(name, cursor, Directory([]))), cursor))
    case FileEntry(size, name) => Ok(Session(Added(nodes, cursor, Node(name, cursor, File(size))), cursor))
  }

  /** The session after replaying the lines from a tree holding only the root. */
  function Replay(lines: seq<Line>): (r: Result<Session>)
    ensures r.Ok? ==> SessionOk(r.value)
  {
    if lines == [] then Ok(Session([Node(Some("/"), 0, Directory([]))], 0))
    else match Replay(lines[..|lines| - 1])
      case Err(e) => Err(e)
      case Ok(session) => Step(session, lines[|lines| - 1])
  }

  /** Once a replay fails, replaying more lines fails too. */
  lemma {:induction false} ReplayFailureSticks(lines: seq<Line>, i: nat)
    requires i <= |lines| && Replay(lines[..i]).Err?
    ensures Replay(lines).Err?
    decreases |lines| - i
  {
    if i < |lines| {
      assert lines[..i + 1][..i] == lines[..i];
      ReplayFailureSticks(lines, i + 1);
    } else {
      assert lines[..i] == lines;
    }
  }

  /** The number of `dir` and file lines. */
  function EntryCount(lines: seq<Line>): nat {
    if lines == [] then 0
    else EntryCount(lines[..|lines| - 1]) + (if lines[|lines| - 1].DirEntry? || lines[|lines| - 1].FileEntry? then 1 else 0)
  }

  /** A replay that succeeds holds one node per `dir` or file line, plus the root. */
  lemma {:induction false} ReplayNodeCount(lines: seq<Line>)
    requires Replay(lines).Ok?
    ensures |Replay(lines).value.nodes| == EntryCount(lines) + 1
    decreases |lines|
  {
    if lines != [] {
      ReplayNodeCount(lines[..|lines| - 1]);
    }
  }

  /** One line of the session applied to the tree: the body of the source's
      loop over the terminal output. */
  method Execute(fileSystem: FileSystem, directory: nat, line: Line) returns (ok: bool, next: nat)
    requires fileSystem.Valid() && IsDirectory(fileSystem.nodes, directory)
    modifies fileSystem
    ensures ok <==> Step(Session(old(fileSystem.nodes), directory), line).Ok?
    ensures ok ==> Step(Session(old(fileSystem.nodes), directory), line).value == Session(fileSystem.nodes, next)
  {
    next := directory;
    ok := true;
    match line
    case Cd(name) =>
      if name == "/" {
        next := 0;
      } else {
        var result := Get(fileSystem.nodes, directory, name);
        if result.None? || !IsDirectory(fileSystem.nodes, result.value) {
          ok := false;
          return;
        }
        next := result.value;
      }
    case Ls =>
    case DirEntry(name) =>
      fileSystem.AddChild(directory, Node(name, directory, Directory([])));
    case FileEntry(size, name) =>
      fileSystem.AddChild(directory, Node(name, directory, File(size)));
  }

  /** `FileSystem.fromCommands`: replays the session into a new file system,
      failing where `cd` does not reach a directory. */
  method FromCommands(lines: seq<Line>) returns (r: Result<FileSystem>)
    ensures r.Err? <==> Replay(lines).Err?
    ensures r.Ok? ==> fresh(r.value) && r.value.Valid() && r.value.nodes == Replay(lines).value.nodes
  {
    var fileSystem := new FileSystem();
    var directory: nat := 0;
    assert lines[..0] == [];
    for i := 0 to |lines|
      invariant fresh(fileSystem) && fileSystem.Valid()
      invariant Replay(lines[..i]) == Ok(Session(fileSystem.nodes, directory))
    {
      assert lines[..i + 1][..i] == lines[..i];
      var ok;
      ok, directory := Execute(fileSystem, directory, lines[i]);
      if !ok {
        ReplayFailureSticks(lines, i + 1);
        return Err("not a directory: " + lines[i].target);
      }
    }
    assert lines[..|lines|] == lines;
    r := Ok(fileSystem);
  }

  /** The session's lines, each parsed, failing on the first that does not parse. */
  function ParseLines(lines: seq<string>): (r: Result<seq<Line>>)
    ensures r.Ok? <==> forall k :: 0 <= k < |lines| ==> ParseLine(lines[k]).Ok?
    ensures r.Ok? ==> |r.value| == |lines|
    ensures r.Ok? ==> forall k :: 0 <= k < |lines| ==> ParseLine(lines[k]) == Ok(r.value[k])
  {
    if lines == [] then Ok([])
    else match ParseLine(lines[0])
      case Err(e) => Err(e)
      case Ok(first) =>
        match ParseLines(lines[1..])
        case Err(e) => Err(e)
        case Ok(rest) => Ok([first] + rest)
  }

  /** `Day7`: the file system built from the session's lines, then both parts
      asked of it. It fails exactly when a line does not parse or a `cd` does
      not reach a directory. */
  method Solve(input: seq<string>) returns (part1: Result<nat>, part2: Result<int>)
    ensures part1.Ok? <==> ParseLines(input).Ok? && Replay(ParseLines(input).value).Ok?
    ensures part2.Ok? <==> part1.Ok?
    ensures part1.Ok? ==> var nodes := Replay(ParseLines(input).value).value.nodes;
      part1.value == Part1Solution(nodes) && part2.value == Part2Solution(nodes)
  {
    var lines := ParseLines(input);
    if lines.Err? {
      return Err(lines.message), Err(lines.message);
    }
    var built := FromCommands(lines.value);
    if built.Err? {
      return Err(built.message), Err(built.message);
    }
    var fileSystem := built.value;
    part1 := Ok(Part1Solution(fileSystem.nodes));
    part2 := Ok(Part2Solution(fileSystem.nodes));
  }
}
