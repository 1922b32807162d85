/**
 * The recursive walks the Git view makes over the change tree. Each is a
 * pre-order, left-to-right walk that lists the nodes where one test holds
 * and goes into the children of the nodes where another holds:
 *
 *  - `get_leaf_nodes` lists the childless nodes and always goes down;
 *  - `init_select_nodes`, inside `select_lfs_nodes`, lists the childless
 *    files that should go to Git LFS and always goes down;
 *  - `expand_children` lists, and goes into, the nodes with at most five
 *    children.
 */
module TreeWalks {
  import opened Wrappers
  import opened Strings
  import opened ChangeTree

  /**
   * Which of the three walks is meant. The LFS walk carries its test of a
   * childless node, `LfsOf` below; keeping the test behind a function value
   * keeps the string functions out of the reasoning about the other walks.
   */
  datatype Walk = LeafWalk | LfsWalk(wanted: Key -> bool) | ExpandWalk

  /**
   * A file goes to LFS by default when its id does not end in ".xlsx" and,
   * with its id lower-cased, contains "/dataset/" (slashes on both sides),
   * or its size reaches the threshold, or Git LFS already tracks it. The
   * root has no size, so it never passes on size.
   */
  predicate LfsFile(t: Tree, lfsFiles: map<string, bool>, limit: nat, k: Key)
  {
    && !EndsWith(NodeId(k), ".xlsx")
    && (|| Contains(Lower(NodeId(k)), "/dataset/")
        || (k in t.nodes && t.nodes[k].size >= limit)
        || NodeId(k) in lfsFiles)
  }

  /** A childless node that passes the file test is an LFS candidate. */
  predicate LfsCandidate(t: Tree, lfsFiles: map<string, bool>, limit: nat, k: Key)
  {
    Children(t, k) == [] && LfsFile(t, lfsFiles, limit, k)
  }

  /** The walk of `select_lfs_nodes` with the given LFS file map and byte threshold. */
  function LfsOf(t: Tree, lfsFiles: map<string, bool>, limit: nat): (w: Walk)
    ensures w.LfsWalk? && forall k :: w.wanted(k) == LfsFile(t, lfsFiles, limit, k)
  {
    LfsWalk(k => LfsFile(t, lfsFiles, limit, k))
  }

  /** The test that puts a node on the walk's list. */
  predicate Keep(t: Tree, w: Walk, k: Key)
  {
    match w
    case LeafWalk => Children(t, k) == []
    case LfsWalk(wanted) => Children(t, k) == [] && wanted(k)
    case ExpandWalk => |Children(t, k)| <= 5
  }

  /** The test that takes the walk into a node's children. */
  predicate Descend(t: Tree, w: Walk, k: Key)
  {
    match w
    case LeafWalk => true
    case LfsWalk(_) => true
    case ExpandWalk => |Children(t, k)| <= 5
  }

  /**
   * The walk of the subtree at `k`: `k` itself when `Keep` holds of it, then,
   * when `Descend` holds of it, the walks of its children from left to right.
   */
  function Collect(t: Tree, k: Key, w: Walk): (r: seq<Key>)
    requires Linked(t) && InTree(t, k)
    decreases MaxLen(t.nodes.Keys) - |k|, |Children(t, k)| + 1
  {
    (if Keep(t, w, k) then [k] else []) + (if Descend(t, w, k) then CollectFrom(t, k, 0, w) else [])
  }

  /** The walks of the children of `k` from the `i`-th on, concatenated. */
  function CollectFrom(t: Tree, k: Key, i: nat, w: Walk): (r: seq<Key>)
    requires Linked(t) && InTree(t, k) && i <= |Children(t, k)|
    decreases MaxLen(t.nodes.Keys) - |k|, |Children(t, k)| - i
  {
    if i == |Children(t, k)| then []
    else
      var c := Children(t, k)[i];
      ChildFacts(t, k, i);
      Collect(t, c, w) + CollectFrom(t, k, i + 1, w)
  }

  /** One step along the children: the walk of the `i`-th child, then the rest. */
  lemma CollectFromStep(t: Tree, k: Key, i: nat, w: Walk)
    requires Linked(t) && InTree(t, k) && i < |Children(t, k)|
    ensures Children(t, k)[i] in t.nodes && |Children(t, k)[i]| == |k| + 1
    ensures CollectFrom(t, k, i, w) == Collect(t, Children(t, k)[i], w) + CollectFrom(t, k, i + 1, w)
  {
    ChildFacts(t, k, i);
  }

  /** Past the last child there is nothing left to walk. */
  lemma CollectFromEnd(t: Tree, k: Key, w: Walk)
    requires Linked(t) && InTree(t, k)
    ensures CollectFrom(t, k, |Children(t, k)|, w) == []
  {
  }

  // ---------------------------------------------------------------- a loop over the children

  /**
   * A loop over the children of `k` that appends each child's walk to the
   * list it started from, `base`, has reached the `i`-th child with `r`.
   */
  ghost predicate Partway(t: Tree, k: Key, w: Walk, i: nat, base: seq<Key>, r: seq<Key>)
  {
    && Linked(t) && InTree(t, k) && i <= |Children(t, k)|
    && r + CollectFrom(t, k, i, w) == base + CollectFrom(t, k, 0, w)
  }

  lemma PartwayStart(t: Tree, k: Key, w: Walk, base: seq<Key>)
    requires Linked(t) && InTree(t, k)
    ensures Partway(t, k, w, 0, base, base)
  {
  }

  /** Appending the walk of the `i`-th child moves the loop on by one. */
  lemma PartwayStep(t: Tree, k: Key, w: Walk, i: nat, base: seq<Key>, r: seq<Key>, r': seq<Key>)
    requires Partway(t, k, w, i, base, r) && i < |Children(t, k)|
    requires Children(t, k)[i] in t.nodes && r' == r + Collect(t, Children(t, k)[i], w)
    ensures Partway(t, k, w, i + 1, base, r')
  {
    CollectFromStep(t, k, i, w);
    Regroup(r, Collect(t, Children(t, k)[i], w), CollectFrom(t, k, i + 1, w), CollectFrom(t, k, i, w), base + CollectFrom(t, k, 0, w));
  }

  /** After the last child the walks of all children have been appended. */
  lemma PartwayEnd(t: Tree, k: Key, w: Walk, base: seq<Key>, r: seq<Key>)
    requires Partway(t, k, w, |Children(t, k)|, base, r)
    ensures r == base + CollectFrom(t, k, 0, w)
  {
    CollectFromEnd(t, k, w);
    assert r + [] == r;
  }

  /** A childless node is its own walk of the leaves. */
  lemma LeafWalkAtLeaf(t: Tree, k: Key)
    requires Linked(t) && InTree(t, k) && Children(t, k) == []
    ensures Collect(t, k, LeafWalk) == [k]
  {
    assert CollectFrom(t, k, 0, LeafWalk) == [];
  }

  /** The walk of the leaves below a node with children is the walk of its children. */
  lemma LeafWalkAtInner(t: Tree, k: Key)
    requires Linked(t) && InTree(t, k) && Children(t, k) != []
    ensures Collect(t, k, LeafWalk) == CollectFrom(t, k, 0, LeafWalk)
  {
    assert Collect(t, k, LeafWalk) == [] + CollectFrom(t, k, 0, LeafWalk);
  }

  /** The walk of `expand_children` stops at a node with more than five children. */
  lemma ExpandWalkClosed(t: Tree, k: Key)
    requires Linked(t) && InTree(t, k) && |Children(t, k)| > 5
    ensures Collect(t, k, ExpandWalk) == []
  {
  }

  /** At a node with at most five children it lists the node, then walks the children. */
  lemma ExpandWalkOpen(t: Tree, k: Key)
    requires Linked(t) && InTree(t, k) && |Children(t, k)| <= 5
    ensures Collect(t, k, ExpandWalk) == [k] + CollectFrom(t, k, 0, ExpandWalk)
  {
  }

  /** The LFS walk lists the node when it is a candidate, then walks the children. */
  lemma LfsWalkAt(t: Tree, k: Key, w: Walk)
    requires Linked(t) && InTree(t, k) && w.LfsWalk?
    ensures Collect(t, k, w) == (if Keep(t, w, k) then [k] else []) + CollectFrom(t, k, 0, w)
  {
  }

  /** The same loop when it appends the ids of the nodes rather than their keys. */
  ghost predicate IdsPartway(t: Tree, k: Key, w: Walk, i: nat, base: seq<string>, r: seq<string>)
  {
    && Linked(t) && InTree(t, k) && i <= |Children(t, k)|
    && r + Ids(CollectFrom(t, k, i, w)) == base + Ids(CollectFrom(t, k, 0, w))
  }

  lemma IdsPartwayStart(t: Tree, k: Key, w: Walk, base: seq<string>)
    requires Linked(t) && InTree(t, k)
    ensures IdsPartway(t, k, w, 0, base, base)
  {
  }

  lemma IdsPartwayStep(t: Tree, k: Key, w: Walk, i: nat, base: seq<string>, r: seq<string>, r': seq<string>)
    requires IdsPartway(t, k, w, i, base, r) && i < |Children(t, k)|
    requires Children(t, k)[i] in t.nodes && r' == r + Ids(Collect(t, Children(t, k)[i], w))
    ensures IdsPartway(t, k, w, i + 1, base, r')
  {
    CollectFromStep(t, k, i, w);
    IdsConcat(Collect(t, Children(t, k)[i], w), CollectFrom(t, k, i + 1, w));
    Regroup(r, Ids(Collect(t, Children(t, k)[i], w)), Ids(CollectFrom(t, k, i + 1, w)), Ids(CollectFrom(t, k, i, w)), base + Ids(CollectFrom(t, k, 0, w)));
  }

  lemma IdsPartwayEnd(t: Tree, k: Key, w: Walk, base: seq<string>, r: seq<string>)
    requires IdsPartway(t, k, w, |Children(t, k)|, base, r)
    ensures r == base + Ids(CollectFrom(t, k, 0, w))
  {
    CollectFromEnd(t, k, w);
    assert Ids([]) == [];
    assert r + [] == r;
  }

  /** A walk lists only nodes of the subtree at `k` where `Keep` holds. */
  lemma {:induction false} CollectSound(t: Tree, k: Key, w: Walk)
    requires Linked(t) && InTree(t, k)
    ensures forall l | l in Collect(t, k, w) :: InTree(t, l) && IsPrefix(k, l) && Keep(t, w, l)
    decreases MaxLen(t.nodes.Keys) - |k|, |Children(t, k)| + 1
  {
    if Descend(t, w, k) {
      CollectFromSound(t, k, 0, w);
    }
  }

  /** The walks of the children of `k` list only nodes strictly below `k`. */
  lemma {:induction false} CollectFromSound(t: Tree, k: Key, i: nat, w: Walk)
    requires Linked(t) && InTree(t, k) && i <= |Children(t, k)|
    ensures forall l | l in CollectFrom(t, k, i, w) ::
      l in t.nodes && |l| > |k| && IsPrefix(k, l) && Keep(t, w, l)
    decreases MaxLen(t.nodes.Keys) - |k|, |Children(t, k)| - i
  {
    if i < |Children(t, k)| {
      var c := Children(t, k)[i];
      ChildFacts(t, k, i);
      CollectSound(t, c, w);
      CollectFromSound(t, k, i + 1, w);
      forall l | l in Collect(t, c, w) ensures |l| > |k| && IsPrefix(k, l) {
        assert l[..|k|] == c[..|k|];
      }
    }
  }

  /** A walk lists no node twice. */
  lemma {:induction false} CollectNoDup(t: Tree, k: Key, w: Walk)
    requires Linked(t) && InTree(t, k)
    ensures NoDup(Collect(t, k, w))
    decreases MaxLen(t.nodes.Keys) - |k|, |Children(t, k)| + 1
  {
    var first: seq<Key> := if Keep(t, w, k) then [k] else [];
    var rest: seq<Key> := if Descend(t, w, k) then CollectFrom(t, k, 0, w) else [];
    if Descend(t, w, k) {
      CollectFromNoDup(t, k, 0, w);
      CollectFromSound(t, k, 0, w);
    }
    NoDupConcat(first, rest);
  }

  lemma {:induction false} CollectFromNoDup(t: Tree, k: Key, i: nat, w: Walk)
    requires Linked(t) && InTree(t, k) && i <= |Children(t, k)|
    ensures NoDup(CollectFrom(t, k, i, w))
    decreases MaxLen(t.nodes.Keys) - |k|, |Children(t, k)| - i
  {
    if i < |Children(t, k)| {
      var c := Children(t, k)[i];
      ChildFacts(t, k, i);
      CollectNoDup(t, c, w);
      CollectFromNoDup(t, k, i + 1, w);
      WalksApart(t, k, i, i + 1, w);
      NoDupConcat(Collect(t, c, w), CollectFrom(t, k, i + 1, w));
    }
  }

  /** Everything in the walk of a child `c` of `k` lies below `c`. */
  lemma ChildWalkBelow(t: Tree, k: Key, c: Key, w: Walk)
    requires Linked(t) && c in t.nodes && ChildOf(k, c)
    ensures forall l | l in Collect(t, c, w) :: |l| > |k| && l[..|k| + 1] == c
  {
    CollectSound(t, c, w);
    forall l | l in Collect(t, c, w) ensures |l| > |k| && l[..|k| + 1] == c {
      assert l[..|k| + 1] == l[..|c|];
    }
  }

  /** No node of `a` is a node of `b`. */
  predicate Apart(a: seq<Key>, b: seq<Key>)
  {
    forall l | l in a :: l !in b
  }

  lemma ApartConcat(a: seq<Key>, b: seq<Key>, c: seq<Key>)
    requires Apart(a, b) && Apart(a, c)
    ensures Apart(a, b + c)
  {
  }

  /** Two children at different positions are different children. */
  lemma ChildrenDiffer(t: Tree, k: Key, i: nat, j: nat)
    requires Linked(t) && InTree(t, k) && i < j < |Children(t, k)|
    ensures Children(t, k)[i] != Children(t, k)[j]
  {
    assert ListsChildren(t, k);
  }

  /** The walks of two different children of `k` share no node. */
  lemma ChildWalksApart(t: Tree, k: Key, i: nat, j: nat, w: Walk)
    requires Linked(t) && InTree(t, k) && i < j < |Children(t, k)|
    ensures Children(t, k)[i] in t.nodes && Children(t, k)[j] in t.nodes
    ensures Apart(Collect(t, Children(t, k)[i], w), Collect(t, Children(t, k)[j], w))
  {
    var cs := Children(t, k);
    ChildFacts(t, k, i);
    ChildFacts(t, k, j);
    ChildrenDiffer(t, k, i, j);
    ChildWalkBelow(t, k, cs[i], w);
    ChildWalkBelow(t, k, cs[j], w);
    var a, b := Collect(t, cs[i], w), Collect(t, cs[j], w);
    forall l | l in a ensures l !in b {
      assert l[..|k| + 1] == cs[i];
    }
  }

  /** The walk of the `i`-th child shares no node with the walks of the `j`-th child on, for `i < j`. */
  lemma {:induction false} WalksApart(t: Tree, k: Key, i: nat, j: nat, w: Walk)
    requires Linked(t) && InTree(t, k) && i < j <= |Children(t, k)|
    ensures Children(t, k)[i] in t.nodes
    ensures Apart(Collect(t, Children(t, k)[i], w), CollectFrom(t, k, j, w))
    decreases |Children(t, k)| - j
  {
    ChildFacts(t, k, i);
    if j < |Children(t, k)| {
      WalksApart(t, k, i, j + 1, w);
      WalksApartStep(t, k, i, j, w);
    } else {
      CollectFromEnd(t, k, w);
    }
  }

  lemma WalksApartStep(t: Tree, k: Key, i: nat, j: nat, w: Walk)
    requires Linked(t) && InTree(t, k) && i < j < |Children(t, k)|
    requires Children(t, k)[i] in t.nodes
    requires Apart(Collect(t, Children(t, k)[i], w), CollectFrom(t, k, j + 1, w))
    ensures Apart(Collect(t, Children(t, k)[i], w), CollectFrom(t, k, j, w))
  {
    ChildWalksApart(t, k, i, j, w);
    CollectFromStep(t, k, j, w);
    ApartConcat(Collect(t, Children(t, k)[i], w), Collect(t, Children(t, k)[j], w), CollectFrom(t, k, j + 1, w));
  }

  /** The ancestors of a node are nodes, and each is listed among its parent's children. */
  lemma {:induction false} AncestorsInTree(t: Tree, l: Key, n: nat)
    requires Valid(t) && l in t.nodes && 1 <= n <= |l|
    ensures l[..n] in t.nodes && l[..n] in Children(t, l[..n - 1])
    decreases |l| - n
  {
    if n == |l| {
      assert l[..n] == l;
      assert Listed(t, l);
    } else {
      AncestorsInTree(t, l, n + 1);
      var m := l[..n + 1];
      assert Listed(t, m);
      assert Parent(m) == l[..n];
      assert l[..n] != [];
      assert l[..n] in t.nodes;
      assert Listed(t, l[..n]);
      assert Parent(l[..n]) == l[..n - 1];
    }
  }

  /** Everything listed by the walk of the `j`-th child is listed by the walk from the `i`-th. */
  lemma {:induction false} CollectFromIncludes(t: Tree, k: Key, i: nat, j: nat, w: Walk)
    requires Linked(t) && InTree(t, k) && i <= j < |Children(t, k)|
    ensures Children(t, k)[j] in t.nodes
    ensures forall l | l in Collect(t, Children(t, k)[j], w) :: l in CollectFrom(t, k, i, w)
    decreases j - i
  {
    ChildFacts(t, k, i);
    ChildFacts(t, k, j);
    var here := Collect(t, Children(t, k)[i], w);
    var rest := CollectFrom(t, k, i + 1, w);
    assert CollectFrom(t, k, i, w) == here + rest;
    if i < j {
      CollectFromIncludes(t, k, i + 1, j, w);
      forall l | l in rest ensures l in here + rest { }
    } else {
      forall l | l in here ensures l in here + rest { }
    }
  }

  /** `Descend` holds at every prefix of `l` whose length is at least `d`, short of `l` itself. */
  ghost predicate DescendsFrom(t: Tree, w: Walk, d: nat, l: Key)
  {
    forall n :: d <= n < |l| ==> Descend(t, w, l[..n])
  }

  /** A walk reaches a node only through nodes where `Descend` holds. */
  lemma {:induction false} CollectPath(t: Tree, k: Key, w: Walk)
    requires Linked(t) && InTree(t, k)
    ensures forall l | l in Collect(t, k, w) :: DescendsFrom(t, w, |k|, l)
    decreases MaxLen(t.nodes.Keys) - |k|, |Children(t, k)| + 1
  {
    if Descend(t, w, k) {
      CollectFromPath(t, k, 0, w);
      CollectFromSound(t, k, 0, w);
      forall l | l in CollectFrom(t, k, 0, w) ensures DescendsFrom(t, w, |k|, l) {
        DescendsFromParent(t, w, k, l);
      }
    }
  }

  /** A path that descends below `k` and passes through `k`, where `Descend` holds, descends from `k`. */
  lemma DescendsFromParent(t: Tree, w: Walk, k: Key, l: Key)
    requires Descend(t, w, k) && |l| > |k| && IsPrefix(k, l) && DescendsFrom(t, w, |k| + 1, l)
    ensures DescendsFrom(t, w, |k|, l)
  {
    forall n | |k| <= n < |l| ensures Descend(t, w, l[..n]) {
      if n == |k| {
        assert l[..n] == k;
      }
    }
  }

  lemma {:induction false} CollectFromPath(t: Tree, k: Key, i: nat, w: Walk)
    requires Linked(t) && InTree(t, k) && i <= |Children(t, k)|
    ensures forall l | l in CollectFrom(t, k, i, w) :: DescendsFrom(t, w, |k| + 1, l)
    decreases MaxLen(t.nodes.Keys) - |k|, |Children(t, k)| - i
  {
    if i < |Children(t, k)| {
      ChildFacts(t, k, i);
      CollectPath(t, Children(t, k)[i], w);
      CollectFromPath(t, k, i + 1, w);
    }
  }

  /**
   * The walk from `k` reaches every node below `k` where `Keep` holds,
   * provided `Descend` held at every node from `k` down to it.
   */
  lemma {:induction false} CollectComplete(t: Tree, k: Key, l: Key, w: Walk)
    requires Valid(t) && InTree(t, k) && l in t.nodes && IsPrefix(k, l) && Keep(t, w, l)
    requires DescendsFrom(t, w, |k|, l)
    ensures l in Collect(t, k, w)
    decreases |l| - |k|, 1
  {
    if l != k {
      assert l[..|k|] == k;
      assert Descend(t, w, l[..|k|]);
      CollectFromComplete(t, k, l, w);
    }
  }

  /** The walks of the children of `k` reach every node strictly below `k` where `Keep` holds, through nodes where `Descend` holds. */
  lemma {:induction false} CollectFromComplete(t: Tree, k: Key, l: Key, w: Walk)
    requires Valid(t) && InTree(t, k) && l in t.nodes && |l| > |k| && IsPrefix(k, l) && Keep(t, w, l)
    requires DescendsFrom(t, w, |k| + 1, l)
    ensures l in CollectFrom(t, k, 0, w)
    decreases |l| - |k|, 0
  {
    var m := l[..|k| + 1];
    AncestorsInTree(t, l, |k| + 1);
    assert l[..|k|] == k;
    assert m in Children(t, k);
    var j :| 0 <= j < |Children(t, k)| && Children(t, k)[j] == m;
    assert IsPrefix(m, l) by { assert l[..|m|] == m; }
    CollectComplete(t, m, l, w);
    CollectFromIncludes(t, k, 0, j, w);
  }

  // ---------------------------------------------------------------- the three walks

  /** `get_leaf_nodes` from `k` lists exactly the childless nodes at or below `k`. */
  lemma LeavesExactly(t: Tree, k: Key, l: Key)
    requires Valid(t) && InTree(t, k)
    ensures l in Collect(t, k, LeafWalk) <==> InTree(t, l) && IsPrefix(k, l) && Children(t, l) == []
  {
    CollectSound(t, k, LeafWalk);
    if InTree(t, l) && IsPrefix(k, l) && Children(t, l) == [] && l != k {
      assert l in t.nodes;
      CollectComplete(t, k, l, LeafWalk);
    }
  }

  /** Every subtree has a leaf, so `get_leaf_nodes` always lists at least one node. */
  lemma {:induction false} LeavesNonEmpty(t: Tree, k: Key)
    requires Linked(t) && InTree(t, k)
    ensures |Collect(t, k, LeafWalk)| >= 1
    decreases MaxLen(t.nodes.Keys) - |k|
  {
    if Children(t, k) != [] {
      var c := Children(t, k)[0];
      ChildFacts(t, k, 0);
      LeavesNonEmpty(t, c);
      assert CollectFrom(t, k, 0, LeafWalk) == Collect(t, c, LeafWalk) + CollectFrom(t, k, 1, LeafWalk);
    }
  }

  /** The walk `select_lfs_nodes` makes from the root's children lists exactly the LFS candidates. */
  lemma LfsExactly(t: Tree, lfsFiles: map<string, bool>, limit: nat, l: Key)
    requires Valid(t)
    ensures l in CollectFrom(t, [], 0, LfsOf(t, lfsFiles, limit)) <==> l in t.nodes && LfsCandidate(t, lfsFiles, limit, l)
  {
    var w := LfsOf(t, lfsFiles, limit);
    CollectFromSound(t, [], 0, w);
    if l in t.nodes && LfsCandidate(t, lfsFiles, limit, l) {
      NodeIdStored(t, l);
      CollectFromComplete(t, [], l, w);
    }
  }

  /** Every prefix of `l` from length `d` up to `l` itself has at most five children. */
  ghost predicate Narrow(t: Tree, d: nat, l: Key)
  {
    forall n :: d <= n <= |l| ==> |Children(t, l[..n])| <= 5
  }

  /**
   * `expand_children`, started at each of the root's children, opens
   * exactly the nodes that, like every ancestor of theirs below the root,
   * have at most five children.
   */
  lemma ExpandExactly(t: Tree, l: Key)
    requires Valid(t)
    ensures l in CollectFrom(t, [], 0, ExpandWalk) <==> l in t.nodes && Narrow(t, 1, l)
  {
    CollectFromSound(t, [], 0, ExpandWalk);
    CollectFromPath(t, [], 0, ExpandWalk);
    if l in CollectFrom(t, [], 0, ExpandWalk) {
      assert DescendsFrom(t, ExpandWalk, 1, l) && Keep(t, ExpandWalk, l);
      forall n | 1 <= n <= |l| ensures |Children(t, l[..n])| <= 5 {
        if n == |l| {
          assert l[..n] == l;
        } else {
          assert Descend(t, ExpandWalk, l[..n]);
        }
      }
    }
    if l in t.nodes && Narrow(t, 1, l) {
      NodeIdStored(t, l);
      assert l[..|l|] == l;
      assert forall n | 1 <= n < |l| :: Descend(t, ExpandWalk, l[..n]);
      CollectFromComplete(t, [], l, ExpandWalk);
    }
  }
}
