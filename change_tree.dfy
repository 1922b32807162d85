/**
 * The change tree of the Git view: status entries from `git status -z -u`
 * folded into a prefix tree whose nodes carry the summed sizes of the
 * entries beneath them.
 *
 * The tree is kept arena-style: every node other than the root lives in a
 * map keyed by the list of path segments that leads to it, and a node's
 * `children` are the keys of its children in insertion order. The root
 * (id ".", name "Changes") has no size and is not stored as a node; its
 * children are `roots`. A node's parent is the key without its last
 * segment, so no back-pointers are stored.
 */
module ChangeTree {
  import opened Wrappers
  import opened Strings

  /** One line of the porcelain status: the two-character code, the path, its size in bytes. */
  datatype Entry = Entry(code: string, path: string, size: nat)

  /** The path segments leading from the root to a node; the root is `[]`. */
  type Key = seq<string>

  /** The three icons a changed file can show. */
  datatype Icon = IndeterminateCheckBox | EditSquare | AddBox

  datatype TreeNode = TreeNode(
    id: string,
    name: string,
    children: seq<Key>,
    size: nat,
    code: Option<string>,
    icon: Option<Icon>)

  datatype Tree = Tree(roots: seq<Key>, nodes: map<Key, TreeNode>)

  const RootId: string := "."

  /** `path.split('/')`. */
  function Segments(path: string): (r: seq<string>)
    ensures |r| >= 1 && SlashFree(r)
  {
    Split(path, "/")
  }

  predicate SlashFree(k: Key)
  {
    forall j :: 0 <= j < |k| ==> IndexOf(k[j], "/") == -1
  }

  /** The id of the node at `k`: its segments joined by '/', with no "./" in front. */
  function NodeId(k: Key): string
  {
    if k == [] then RootId else Join(k, "/")
  }

  /** Two nodes of the tree never share an id. */
  lemma IdsDistinct(k1: Key, k2: Key)
    requires |k1| >= 1 && |k2| >= 1 && SlashFree(k1) && SlashFree(k2)
    ensures NodeId(k1) == NodeId(k2) ==> k1 == k2
  {
    UnborderedDelimiters();
    SplitJoin(k1, "/");
    SplitJoin(k2, "/");
  }

  /** Two children of one parent with the same id are the same child. */
  lemma SiblingIds(parent: Key, x: string, y: string)
    requires Join(parent + [x], "/") == Join(parent + [y], "/")
    ensures x == y
  {
    if |parent| >= 1 {
      JoinSnoc(parent, x, "/");
      JoinSnoc(parent, y, "/");
      var p := Join(parent, "/") + "/";
      assert (p + x)[|p|..] == x && (p + y)[|p|..] == y;
    } else {
      assert parent + [x] == [x] && parent + [y] == [y];
    }
  }

  /** The icon for a status code: tested for " D" and " M" with the leading space. */
  function IconOf(code: string): (r: Icon)
    ensures r == IndeterminateCheckBox <==> Contains(code, " D")
    ensures r == EditSquare <==> !Contains(code, " D") && Contains(code, " M")
    ensures r == AddBox <==> !Contains(code, " D") && !Contains(code, " M")
  {
    if Contains(code, " D") then IndeterminateCheckBox
    else if Contains(code, " M") then EditSquare
    else AddBox
  }

  /**
   * On a two-character code the icon tests are exact matches: only a
   * worktree-side deletion " D" or modification " M" gets its own icon;
   * every other code, staged changes such as "D " and "M " included, shows
   * as added.
   */
  lemma IconOfCode(code: string)
    requires |code| == 2
    ensures IconOf(code) == IndeterminateCheckBox <==> code == " D"
    ensures IconOf(code) == EditSquare <==> code == " M"
    ensures IconOf(code) == AddBox <==> code != " D" && code != " M"
  {
    forall t: string, j | |t| == 2 && OccursAt(code, t, j) ensures j == 0 && code == t {
      assert code[j..j + 2] == code;
    }
    if code == " D" { assert OccursAt(code, " D", 0); }
    if code == " M" { assert OccursAt(code, " M", 0); }
  }

  /** The icon field that goes with a code field. */
  function IconFor(code: Option<string>): Option<Icon>
  {
    if code.Some? then Some(IconOf(code.value)) else None
  }

  // ---------------------------------------------------------------- shape

  predicate IsPrefix(k: Key, l: Key)
  {
    |k| <= |l| && l[..|k|] == k
  }

  predicate ChildOf(k: Key, c: Key)
  {
    |c| == |k| + 1 && c[..|k|] == k
  }

  function Parent(k: Key): Key
    requires |k| >= 1
  {
    k[..|k| - 1]
  }

  predicate InTree(t: Tree, k: Key)
  {
    k == [] || k in t.nodes
  }

  /** The children of the node at `k` (the root's are `roots`). */
  function Children(t: Tree, k: Key): seq<Key>
  {
    if k == [] then t.roots else if k in t.nodes then t.nodes[k].children else []
  }

  /** A node's id is its joined key, its name the last segment, its icon follows its code. */
  predicate NodeShape(k: Key, n: TreeNode)
  {
    && |k| >= 1
    && SlashFree(k)
    && n.id == Join(k, "/")
    && n.name == k[|k| - 1]
    && n.icon == IconFor(n.code)
  }

  /** The children of `k` are distinct nodes, each one segment below `k`. */
  predicate ListsChildren(t: Tree, k: Key)
  {
    && NoDup(Children(t, k))
    && forall c | c in Children(t, k) :: c in t.nodes && ChildOf(k, c)
  }

  /** Looking down: every node is well formed and lists well-formed children. */
  predicate Linked(t: Tree)
  {
    && ListsChildren(t, [])
    && forall k {:trigger ListsChildren(t, k)} | k in t.nodes :: ListsChildren(t, k)
  }

  /** The node at `k`, when there is one, is well formed. */
  predicate ShapedAt(t: Tree, k: Key)
  {
    k in t.nodes ==> NodeShape(k, t.nodes[k])
  }

  predicate Shaped(t: Tree)
  {
    forall k {:trigger ShapedAt(t, k)} | k in t.nodes :: ShapedAt(t, k)
  }

  /** Looking up: every node is listed among its parent's children. */
  predicate Up(t: Tree)
  {
    forall k {:trigger Listed(t, k)} | k in t.nodes :: Listed(t, k)
  }

  /** `k` is not the root and its parent lists it. */
  predicate Listed(t: Tree, k: Key)
  {
    |k| >= 1 && k in Children(t, Parent(k))
  }

  predicate Valid(t: Tree)
  {
    Linked(t) && Shaped(t) && Up(t)
  }

  /** The longest key in a set: a bound on the depth of the tree. */
  ghost function MaxLen(ks: set<Key>): (m: nat)
    ensures forall k | k in ks :: |k| <= m
  {
    if ks == {} then 0
    else
      var k :| k in ks;
      var m := MaxLen(ks - {k});
      if |k| > m then |k| else m
  }

  /** The `i`-th child of `k` is a node one segment below `k`. */
  lemma ChildFacts(t: Tree, k: Key, i: nat)
    requires Linked(t) && InTree(t, k) && i < |Children(t, k)|
    ensures Children(t, k)[i] in t.nodes && ChildOf(k, Children(t, k)[i])
  {
    assert ListsChildren(t, k);
  }

  /** A node with the same children and a well-formed shape can replace the one at `c`. */
  lemma ReplaceValid(t: Tree, c: Key, n: TreeNode)
    requires Valid(t) && c in t.nodes && n.children == t.nodes[c].children && NodeShape(c, n)
    ensures Valid(t.(nodes := t.nodes[c := n]))
  {
    var r := t.(nodes := t.nodes[c := n]);
    assert forall q :: Children(r, q) == Children(t, q);
    forall q | q in r.nodes ensures ListsChildren(r, q) {
      assert ListsChildren(t, q);
    }
    forall q | q in r.nodes ensures Listed(r, q) {
      assert Listed(t, q);
    }
    forall q | q in r.nodes ensures ShapedAt(r, q) {
      if q != c { assert ShapedAt(t, q); }
    }
  }

  // ---------------------------------------------------------------- building

  /** `current.push(node)`: a new childless node `c` goes last among the children of `p`. */
  function Attach(t: Tree, p: Key, c: Key, n: TreeNode): (r: Tree)
    requires InTree(t, p)
  {
    var nodes := t.nodes[c := n];
    if p == [] then Tree(t.roots + [c], nodes)
    else Tree(t.roots, nodes[p := t.nodes[p].(children := t.nodes[p].children + [c])])
  }

  /** What attaching `c` below `p` does to the children lists. */
  lemma AttachChildren(t: Tree, p: Key, c: Key, n: TreeNode)
    requires InTree(t, p) && ChildOf(p, c) && c !in t.nodes && n.children == []
    ensures Children(Attach(t, p, c, n), p) == Children(t, p) + [c]
    ensures Children(Attach(t, p, c, n), c) == []
    ensures forall q | q != p :: Children(Attach(t, p, c, n), q) == Children(t, q)
  {
  }

  /** Attaching a new, well-formed, childless node one segment below an existing one keeps the tree valid. */
  lemma AttachValid(t: Tree, p: Key, c: Key, n: TreeNode)
    requires Valid(t) && InTree(t, p) && ChildOf(p, c) && c !in t.nodes
    requires NodeShape(c, n) && n.children == []
    ensures Valid(Attach(t, p, c, n))
  {
    AttachChildren(t, p, c, n);
    AttachLinked(t, p, c, n);
    AttachShaped(t, p, c, n);
    AttachUp(t, p, c, n);
  }

  lemma AttachLinked(t: Tree, p: Key, c: Key, n: TreeNode)
    requires Linked(t) && InTree(t, p) && ChildOf(p, c) && c !in t.nodes && n.children == []
    ensures Linked(Attach(t, p, c, n))
  {
    var r := Attach(t, p, c, n);
    AttachChildren(t, p, c, n);
    assert ListsChildren(t, p);
    NoDupConcat(Children(t, p), [c]);
    assert ListsChildren(r, p);
    forall q | q in r.nodes ensures ListsChildren(r, q) {
      if q != p && q != c { assert ListsChildren(t, q); }
    }
    if p != [] { assert ListsChildren(t, []); }
  }

  lemma AttachShaped(t: Tree, p: Key, c: Key, n: TreeNode)
    requires Shaped(t) && InTree(t, p) && NodeShape(c, n)
    ensures Shaped(Attach(t, p, c, n))
  {
    var r := Attach(t, p, c, n);
    forall q | q in r.nodes ensures ShapedAt(r, q) {
      if p != [] && q == p {
        assert ShapedAt(t, p) && r.nodes[p] == t.nodes[p].(children := t.nodes[p].children + [c]);
      } else if q == c {
        assert r.nodes[c] == n;
      } else {
        assert ShapedAt(t, q) && r.nodes[q] == t.nodes[q];
      }
    }
  }

  lemma AttachUp(t: Tree, p: Key, c: Key, n: TreeNode)
    requires Up(t) && InTree(t, p) && ChildOf(p, c) && c !in t.nodes && n.children == []
    ensures Up(Attach(t, p, c, n))
  {
    var r := Attach(t, p, c, n);
    AttachChildren(t, p, c, n);
    forall q | q in r.nodes ensures Listed(r, q) {
      if q == c {
        assert Parent(c) == p;
      } else {
        assert Listed(t, q);
      }
    }
  }

  /** `current.filter(n => n.id === id)[0]`: the first of the keys `cs` whose node has the id. */
  function FindChild(t: Tree, cs: seq<Key>, id: string): (r: Option<Key>)
    requires forall c | c in cs :: c in t.nodes
    ensures r.Some? ==> r.value in cs && t.nodes[r.value].id == id
    ensures r.None? ==> forall c | c in cs :: t.nodes[c].id != id
  {
    if cs == [] then None
    else if t.nodes[cs[0]].id == id then Some(cs[0])
    else FindChild(t, cs[1..], id)
  }

  /**
   * Looking a segment's node up by id among its parent's children finds it
   * exactly when the node is in the tree, and then finds that very node.
   */
  lemma FindChildByKey(t: Tree, p: Key, c: Key)
    requires Valid(t) && InTree(t, p) && ChildOf(p, c) && SlashFree(c)
    ensures forall x | x in Children(t, p) :: x in t.nodes
    ensures var r := FindChild(t, Children(t, p), Join(c, "/"));
      (r.Some? <==> c in t.nodes) && (r.Some? ==> r.value == c)
  {
    assert ListsChildren(t, p);
    var r := FindChild(t, Children(t, p), Join(c, "/"));
    if r.Some? {
      assert ShapedAt(t, r.value);
      IdsDistinct(r.value, c);
    }
    if c in t.nodes {
      assert Listed(t, c) && Parent(c) == p;
      assert ShapedAt(t, c);
    }
  }

  /** The node for segment `s` of an entry, after the entry is counted: size added, code and icon set on the last segment. */
  function Account(n: TreeNode, e: Entry, last: bool): TreeNode
  {
    var n := n.(size := n.size + e.size);
    if last then n.(code := Some(e.code), icon := Some(IconOf(e.code))) else n
  }

  // ---------------------------------------------------------------- what the build computes

  /** The path of `e` passes through the node at `k`. */
  predicate Through(e: Entry, k: Key)
  {
    |k| >= 1 && IsPrefix(k, Segments(e.path))
  }

  /** The path of some entry passes through `k`. */
  predicate Reached(es: seq<Entry>, k: Key)
  {
    |es| > 0 && (Reached(es[..|es| - 1], k) || Through(es[|es| - 1], k))
  }

  /** The total size of the entries whose paths pass through `k`. */
  function SizeThrough(es: seq<Entry>, k: Key): nat
  {
    if es == [] then 0
    else SizeThrough(es[..|es| - 1], k) + (if Through(es[|es| - 1], k) then es[|es| - 1].size else 0)
  }

  /** The code of the last entry whose path ends at `k`. */
  function LastCode(es: seq<Entry>, k: Key): (r: Option<string>)
    ensures r.Some? ==> Reached(es, k) || k == []
  {
    if es == [] then None
    else if Segments(es[|es| - 1].path) == k then Some(es[|es| - 1].code)
    else LastCode(es[..|es| - 1], k)
  }

  /** Reached means some entry passes through. */
  lemma {:induction false} ReachedSome(es: seq<Entry>, k: Key)
    ensures Reached(es, k) <==> exists i :: 0 <= i < |es| && Through(es[i], k)
  {
    if es != [] {
      var front := es[..|es| - 1];
      ReachedSome(front, k);
      assert forall i :: 0 <= i < |front| ==> front[i] == es[i];
    }
  }

  /** A key no entry reaches has collected no size and no code. */
  lemma {:induction false} NotReached(es: seq<Entry>, k: Key)
    requires !Reached(es, k) && |k| >= 1
    ensures SizeThrough(es, k) == 0 && LastCode(es, k) == None
  {
    if es != [] {
      NotReached(es[..|es| - 1], k);
      assert !Through(es[|es| - 1], k);
      assert IsPrefix(k, k);
    }
  }

  /**
   * The children of `k` after one more entry, with segments `segs`, has been
   * walked `s` segments deep: the child on its path goes last when it is new.
   */
  function Grow(prev: seq<Key>, segs: seq<string>, k: Key, s: nat): seq<Key>
    requires s <= |segs|
  {
    if |k| < s && segs[..|k|] == k && segs[..|k| + 1] !in prev then prev + [segs[..|k| + 1]] else prev
  }

  /**
   * The children `k` gets from the entries: the distinct keys one segment
   * below `k` that the entries' paths pass through, in the order of the
   * first entry reaching each one.
   */
  function ChildOrder(es: seq<Entry>, k: Key): seq<Key>
  {
    if es == [] then []
    else
      var segs := Segments(es[|es| - 1].path);
      Grow(ChildOrder(es[..|es| - 1], k), segs, k, |segs|)
  }

  /**
   * The tree summarises the entries: its nodes are exactly the path
   * prefixes of the entries; each node's children are listed in the order
   * the entries first reach them; each node's size is the sum of the sizes
   * of the entries through it; each node's code is the code of the last
   * entry ending at it, and none when no entry ends there.
   */
  ghost predicate Summarises(t: Tree, es: seq<Entry>)
  {
    && Valid(t)
    && (forall k :: k in t.nodes <==> Reached(es, k))
    && (forall k {:trigger OrderedAt(t, es, k)} :: OrderedAt(t, es, k))
    && (forall k | k in t.nodes :: t.nodes[k].size == SizeThrough(es, k))
    && (forall k | k in t.nodes :: t.nodes[k].code == LastCode(es, k))
  }

  /** The children of `k` are the ones the entries give it, in that order. */
  ghost predicate OrderedAt(t: Tree, es: seq<Entry>, k: Key)
  {
    Children(t, k) == ChildOrder(es, k)
  }

  /** A key is among the children `k` gets exactly when it is one segment below `k` and some entry passes through it. */
  lemma {:induction false} ChildOrderMembers(es: seq<Entry>, k: Key, c: Key)
    ensures c in ChildOrder(es, k) <==> ChildOf(k, c) && Reached(es, c)
  {
    if es != [] {
      var front, e := es[..|es| - 1], es[|es| - 1];
      var segs := Segments(e.path);
      ChildOrderMembers(front, k, c);
      if ChildOf(k, c) && Through(e, c) {
        assert segs[..|k|] == c[..|k|];
      }
      if |k| < |segs| && segs[..|k|] == k && c == segs[..|k| + 1] {
        assert Through(e, c);
      }
    }
  }

  /** A key no entry passes through gets no children. */
  lemma {:induction false} ChildOrderUnreached(es: seq<Entry>, k: Key)
    requires |k| >= 1 && !Reached(es, k)
    ensures ChildOrder(es, k) == []
  {
    if es != [] {
      var segs := Segments(es[|es| - 1].path);
      ChildOrderUnreached(es[..|es| - 1], k);
      assert !Through(es[|es| - 1], k);
      assert |k| < |segs| ==> segs[..|k|] != k;
    }
  }

  /**
   * A later entry never reorders the children earlier entries created:
   * the children `k` gets from the first `i` entries come first, in the
   * same order.
   */
  lemma {:induction false} ChildOrderStable(es: seq<Entry>, k: Key, i: nat)
    requires i <= |es|
    ensures ChildOrder(es[..i], k) <= ChildOrder(es, k)
  {
    if i < |es| {
      var front := es[..|es| - 1];
      assert front[..i] == es[..i];
      ChildOrderStable(front, k, i);
    } else {
      assert es[..i] == es;
    }
  }

  /**
   * In a tree summarising the entries, a node's children are ordered by
   * the first entry reaching them: those reached by the first `i` entries
   * come first, in the order they were reached, and they are exactly the
   * keys one segment below the node that those entries pass through.
   */
  lemma ChildrenByFirstReach(t: Tree, es: seq<Entry>, k: Key, i: nat)
    requires Summarises(t, es) && i <= |es|
    ensures ChildOrder(es[..i], k) <= Children(t, k)
    ensures forall c :: c in ChildOrder(es[..i], k) <==> ChildOf(k, c) && Reached(es[..i], c)
  {
    assert OrderedAt(t, es, k);
    ChildOrderStable(es, k, i);
    forall c ensures c in ChildOrder(es[..i], k) <==> ChildOf(k, c) && Reached(es[..i], c) {
      ChildOrderMembers(es[..i], k, c);
    }
  }

  /** `k` is one of the first `s` prefixes of the path of `e`. */
  predicate Partly(e: Entry, s: nat, k: Key)
  {
    1 <= |k| <= s && IsPrefix(k, Segments(e.path))
  }

  /** The tree summarises the entries `es` and the first `s` segments of `e`. */
  ghost predicate Folded(t: Tree, es: seq<Entry>, e: Entry, s: nat)
  {
    Valid(t) && KeysFolded(t, es, e, s) && OrderFolded(t, es, e, s) && SizesFolded(t, es, e, s) && CodesFolded(t, es, e, s)
  }

  ghost predicate OrderFolded(t: Tree, es: seq<Entry>, e: Entry, s: nat)
  {
    s <= |Segments(e.path)| && forall k {:trigger GrownAt(t, es, e, s, k)} :: GrownAt(t, es, e, s, k)
  }

  ghost predicate GrownAt(t: Tree, es: seq<Entry>, e: Entry, s: nat, k: Key)
  {
    s <= |Segments(e.path)| && Children(t, k) == Grow(ChildOrder(es, k), Segments(e.path), k, s)
  }

  ghost predicate KeysFolded(t: Tree, es: seq<Entry>, e: Entry, s: nat)
  {
    forall k :: k in t.nodes <==> Reached(es, k) || Partly(e, s, k)
  }

  ghost predicate SizesFolded(t: Tree, es: seq<Entry>, e: Entry, s: nat)
  {
    forall k | k in t.nodes :: t.nodes[k].size == SizeThrough(es, k) + (if Partly(e, s, k) then e.size else 0)
  }

  ghost predicate CodesFolded(t: Tree, es: seq<Entry>, e: Entry, s: nat)
  {
    forall k | k in t.nodes ::
      t.nodes[k].code == if s == |Segments(e.path)| && k == Segments(e.path) then Some(e.code) else LastCode(es, k)
  }

  lemma FoldStart(t: Tree, es: seq<Entry>, e: Entry)
    requires Summarises(t, es)
    ensures Folded(t, es, e, 0)
  {
    forall k ensures GrownAt(t, es, e, 0, k) {
      assert OrderedAt(t, es, k);
    }
  }

  lemma FoldEnd(t: Tree, es: seq<Entry>, e: Entry)
    requires Folded(t, es, e, |Segments(e.path)|)
    ensures Summarises(t, es + [e])
  {
    var es' := es + [e];
    assert es'[..|es'| - 1] == es;
    forall k ensures Partly(e, |Segments(e.path)|, k) <==> Through(e, k) { }
    forall k | k in t.nodes ensures t.nodes[k].code == LastCode(es', k) {
      if k == Segments(e.path) { }
    }
    forall k ensures OrderedAt(t, es', k) {
      assert GrownAt(t, es, e, |Segments(e.path)|, k);
    }
  }

  /** One segment's step of the build keeps the tree summarising what has been folded in. */
  lemma FoldStep(t: Tree, es: seq<Entry>, e: Entry, s: nat, t1: Tree, t': Tree)
    requires s < |Segments(e.path)| && Folded(t, es, e, s)
    requires t1 == if Segments(e.path)[..s + 1] in t.nodes then t
      else Attach(t, Segments(e.path)[..s], Segments(e.path)[..s + 1],
                  TreeNode(Join(Segments(e.path)[..s + 1], "/"), Segments(e.path)[s], [], 0, None, None))
    requires Segments(e.path)[..s + 1] in t1.nodes
    requires t' == t1.(nodes := t1.nodes[Segments(e.path)[..s + 1] :=
      Account(t1.nodes[Segments(e.path)[..s + 1]], e, s == |Segments(e.path)| - 1)])
    ensures Folded(t', es, e, s + 1)
  {
    var segs := Segments(e.path);
    var c := segs[..s + 1];
    var last := s == |segs| - 1;
    AttachStep(t, es, e, s, t1);
    ReplaceValid(t1, c, Account(t1.nodes[c], e, last));
    PartlyStep(e, s);
    FoldStepKeys(t, t1, t', es, e, s, c);
    assert InTree(t, segs[..s]) by {
      if s > 0 { assert Partly(e, s, segs[..s]); }
    }
    FoldStepOrder(t, t1, t', es, e, s);
    FoldStepSizes(t, t1, t', es, e, s, c);
    FoldStepCodes(t, t1, t', es, e, s, c);
  }

  /** The first half of a step: the node for segment `s` is found or freshly attached. */
  lemma AttachStep(t: Tree, es: seq<Entry>, e: Entry, s: nat, t1: Tree)
    requires s < |Segments(e.path)| && Folded(t, es, e, s)
    requires t1 == if Segments(e.path)[..s + 1] in t.nodes then t
      else Attach(t, Segments(e.path)[..s], Segments(e.path)[..s + 1],
                  TreeNode(Join(Segments(e.path)[..s + 1], "/"), Segments(e.path)[s], [], 0, None, None))
    ensures var c := Segments(e.path)[..s + 1];
      && Valid(t1) && Keeps(t, t1, c) && NodeShape(c, t1.nodes[c])
      && (c !in t.nodes ==> t1.nodes[c].size == 0 && t1.nodes[c].code == None && SizeThrough(es, c) == 0 && LastCode(es, c) == None)
  {
    var segs := Segments(e.path);
    var p, c := segs[..s], segs[..s + 1];
    if c in t.nodes {
      assert Keeps(t, t1, c) && ShapedAt(t, c);
    } else {
      assert ChildOf(p, c);
      assert InTree(t, p) by {
        if s > 0 { assert Partly(e, s, p); }
      }
      NewNodeShape(segs, s);
      AttachValid(t, p, c, TreeNode(Join(c, "/"), segs[s], [], 0, None, None));
      AttachKeeps(t, p, c, TreeNode(Join(c, "/"), segs[s], [], 0, None, None));
      NotReached(es, c);
    }
  }

  /** The first `s + 1` prefixes are the first `s` and one more. */
  lemma PartlyStep(e: Entry, s: nat)
    requires s < |Segments(e.path)|
    ensures forall k :: Partly(e, s + 1, k) <==> Partly(e, s, k) || k == Segments(e.path)[..s + 1]
  {
    var segs := Segments(e.path);
    var c := segs[..s + 1];
    assert |c| == s + 1 && segs[..|c|] == c;
    assert Partly(e, s + 1, c);
    forall k | Partly(e, s + 1, k) && !Partly(e, s, k) ensures k == c {
      assert |k| == s + 1 && k == segs[..|k|];
    }
  }

  /** The node created for segment `s` is well formed. */
  lemma NewNodeShape(segs: seq<string>, s: nat)
    requires SlashFree(segs) && s < |segs|
    ensures NodeShape(segs[..s + 1], TreeNode(Join(segs[..s + 1], "/"), segs[s], [], 0, None, None))
  {
    var c := segs[..s + 1];
    assert forall j :: 0 <= j < |c| ==> c[j] == segs[j];
  }

  /** The data `t1` keeps from `t`: every node of `t` is in `t1` with its size and code, and `c` is the only new key. */
  ghost predicate Keeps(t: Tree, t1: Tree, c: Key)
  {
    && t1.nodes.Keys == t.nodes.Keys + {c}
    && forall k | k in t.nodes :: t1.nodes[k].size == t.nodes[k].size && t1.nodes[k].code == t.nodes[k].code
  }

  lemma AttachKeeps(t: Tree, p: Key, c: Key, n: TreeNode)
    requires InTree(t, p) && c != p && c !in t.nodes
    ensures Keeps(t, Attach(t, p, c, n), c)
  {
    var r := Attach(t, p, c, n);
    assert r.nodes.Keys == t.nodes.Keys + {c};
  }

  lemma FoldStepKeys(t: Tree, t1: Tree, t': Tree, es: seq<Entry>, e: Entry, s: nat, c: Key)
    requires s < |Segments(e.path)| && c == Segments(e.path)[..s + 1]
    requires KeysFolded(t, es, e, s)
    requires Keeps(t, t1, c)
    requires c !in t.nodes ==> t1.nodes[c].size == 0 && t1.nodes[c].code == None && SizeThrough(es, c) == 0 && LastCode(es, c) == None
    requires t' == t1.(nodes := t1.nodes[c := Account(t1.nodes[c], e, s == |Segments(e.path)| - 1)])
    requires forall k :: Partly(e, s + 1, k) <==> Partly(e, s, k) || k == c
    ensures KeysFolded(t', es, e, s + 1)
  {
  }

  /** The node for segment `s` is either among its parent's children already or goes last among them. */
  lemma FoldStepOrder(t: Tree, t1: Tree, t': Tree, es: seq<Entry>, e: Entry, s: nat)
    requires s < |Segments(e.path)| && Valid(t) && KeysFolded(t, es, e, s) && OrderFolded(t, es, e, s)
    requires t1 == if Segments(e.path)[..s + 1] in t.nodes then t
      else Attach(t, Segments(e.path)[..s], Segments(e.path)[..s + 1],
                  TreeNode(Join(Segments(e.path)[..s + 1], "/"), Segments(e.path)[s], [], 0, None, None))
    requires InTree(t, Segments(e.path)[..s])
    requires Segments(e.path)[..s + 1] in t1.nodes
    requires t' == t1.(nodes := t1.nodes[Segments(e.path)[..s + 1] :=
      Account(t1.nodes[Segments(e.path)[..s + 1]], e, s == |Segments(e.path)| - 1)])
    ensures OrderFolded(t', es, e, s + 1)
  {
    var segs := Segments(e.path);
    var p, c := segs[..s], segs[..s + 1];
    assert ChildOf(p, c);
    assert !Partly(e, s, c);
    ChildOrderMembers(es, p, c);
    if c !in t.nodes {
      AttachChildren(t, p, c, TreeNode(Join(c, "/"), segs[s], [], 0, None, None));
      ChildOrderUnreached(es, c);
    }
    var next := s + 1;
    forall k ensures GrownAt(t', es, e, next, k) {
      assert GrownAt(t, es, e, s, k);
      assert Children(t', k) == Children(t1, k);
      if k == p {
        assert segs[..|k|] == k;
      } else if k != c {
        assert |k| == s ==> segs[..|k|] != k;
      }
    }
  }

  lemma FoldStepSizes(t: Tree, t1: Tree, t': Tree, es: seq<Entry>, e: Entry, s: nat, c: Key)
    requires s < |Segments(e.path)| && c == Segments(e.path)[..s + 1]
    requires SizesFolded(t, es, e, s)
    requires Keeps(t, t1, c)
    requires c !in t.nodes ==> t1.nodes[c].size == 0 && t1.nodes[c].code == None && SizeThrough(es, c) == 0 && LastCode(es, c) == None
    requires t' == t1.(nodes := t1.nodes[c := Account(t1.nodes[c], e, s == |Segments(e.path)| - 1)])
    requires forall k :: Partly(e, s + 1, k) <==> Partly(e, s, k) || k == c
    ensures SizesFolded(t', es, e, s + 1)
  {
    assert !Partly(e, s, c);
    forall k | k in t'.nodes
      ensures t'.nodes[k].size == SizeThrough(es, k) + (if Partly(e, s + 1, k) then e.size else 0)
    {
      if k != c { assert k in t.nodes; }
    }
  }

  lemma FoldStepCodes(t: Tree, t1: Tree, t': Tree, es: seq<Entry>, e: Entry, s: nat, c: Key)
    requires s < |Segments(e.path)| && c == Segments(e.path)[..s + 1]
    requires CodesFolded(t, es, e, s)
    requires Keeps(t, t1, c)
    requires c !in t.nodes ==> t1.nodes[c].size == 0 && t1.nodes[c].code == None && SizeThrough(es, c) == 0 && LastCode(es, c) == None
    requires t' == t1.(nodes := t1.nodes[c := Account(t1.nodes[c], e, s == |Segments(e.path)| - 1)])
    requires forall k :: Partly(e, s + 1, k) <==> Partly(e, s, k) || k == c
    ensures CodesFolded(t', es, e, s + 1)
  {
    var segs := Segments(e.path);
    forall k | k in t'.nodes
      ensures t'.nodes[k].code == if s + 1 == |segs| && k == segs then Some(e.code) else LastCode(es, k)
    {
      if k != c {
        assert k in t.nodes;
      } else if s + 1 == |segs| {
        assert c == segs;
      }
    }
  }

  /**
   * `build_change_tree`: fold the status entries, in order, into a tree.
   * For each segment of an entry's path the node whose id is the path up
   * to that segment is looked up among the current node's children and
   * created when missing; its size grows by the entry's size, and the node
   * of the last segment takes the entry's code and icon.
   */
  method BuildTree(status: seq<Entry>) returns (root: Tree)
    ensures Summarises(root, status)
  {
    root := Tree([], map[]);
    var e := 0;
    while e < |status|
      invariant e <= |status|
      invariant Summarises(root, status[..e])
    {
      root := AddEntry(root, status[..e], status[e]);
      assert status[..e + 1] == status[..e] + [status[e]];
      e := e + 1;
    }
    assert status[..e] == status;
  }

  /** The body of the `status.forEach` callback: one entry walked into the tree, segment by segment. */
  method AddEntry(t: Tree, ghost es: seq<Entry>, entry: Entry) returns (root: Tree)
    requires Summarises(t, es)
    ensures Summarises(root, es + [entry])
  {
    root := t;
    var segments := Segments(entry.path);
    FoldStart(root, es, entry);
    var s := 0;
    while s < |segments|
      invariant s <= |segments|
      invariant Folded(root, es, entry, s)
    {
      root := AddSegment(root, es, entry, s);
      s := s + 1;
    }
    FoldEnd(root, es, entry);
  }

  /**
   * One pass of the segment loop: the node whose id is the path up to
   * segment `s` is looked up among the current children and pushed when
   * missing; its size grows by the entry's size, and on the last segment
   * it takes the entry's code and icon.
   */
  method AddSegment(t: Tree, ghost es: seq<Entry>, entry: Entry, s: nat) returns (root: Tree)
    requires s < |Segments(entry.path)| && Folded(t, es, entry, s)
    ensures Folded(root, es, entry, s + 1)
  {
    var segments := Segments(entry.path);
    var parent, key := segments[..s], segments[..s + 1];
    var subpath := Join(key, "/");
    StepFacts(t, es, entry, s);
    var node := FindChild(t, Children(t, parent), subpath);
    root := t;
    if node.None? {
      root := Attach(root, parent, key, TreeNode(subpath, segments[s], [], 0, None, None));
    }
    ghost var attached := root;
    root := root.(nodes := root.nodes[key := Account(root.nodes[key], entry, s == |segments| - 1)]);
    FoldStep(t, es, entry, s, attached, root);
  }

  /** What the lookup at segment `s` needs: the parent is in the tree, and the lookup by id finds the node at the key exactly when it exists. */
  lemma StepFacts(t: Tree, es: seq<Entry>, e: Entry, s: nat)
    requires s < |Segments(e.path)| && Valid(t) && KeysFolded(t, es, e, s)
    ensures var segs := Segments(e.path);
      && InTree(t, segs[..s]) && ChildOf(segs[..s], segs[..s + 1])
      && (forall x | x in Children(t, segs[..s]) :: x in t.nodes)
      && var r := FindChild(t, Children(t, segs[..s]), Join(segs[..s + 1], "/"));
         (r.Some? <==> segs[..s + 1] in t.nodes)
  {
    var segs := Segments(e.path);
    var parent, key := segs[..s], segs[..s + 1];
    assert ChildOf(parent, key) && SlashFree(key);
    assert InTree(t, parent) by {
      if s > 0 { assert Partly(e, s, parent); }
    }
    FindChildByKey(t, parent, key);
  }

  // ---------------------------------------------------------------- what each node holds

  /**
   * Every segment of every entry has its node: the id is the path up to and
   * including that segment joined by '/', with no "./" in front, and the
   * name is the segment.
   */
  lemma PathNodes(t: Tree, es: seq<Entry>, i: nat, s: nat)
    requires Summarises(t, es) && i < |es| && s < |Segments(es[i].path)|
    ensures var segs := Segments(es[i].path);
      && segs[..s + 1] in t.nodes
      && t.nodes[segs[..s + 1]].id == Join(segs[..s + 1], "/")
      && t.nodes[segs[..s + 1]].name == segs[s]
  {
    var segs := Segments(es[i].path);
    var k := segs[..s + 1];
    assert Through(es[i], k);
    ReachedSome(es, k);
    assert ShapedAt(t, k);
  }

  /** `k` is where the path of some entry ends. */
  predicate EndsAt(es: seq<Entry>, k: Key)
  {
    exists i | 0 <= i < |es| :: Segments(es[i].path) == k
  }

  /** The code of `k` comes from the last entry ending there, and there is one exactly when some entry ends there. */
  lemma {:induction false} LastCodeEnds(es: seq<Entry>, k: Key)
    ensures LastCode(es, k).Some? <==> EndsAt(es, k)
    ensures LastCode(es, k).Some? ==> exists j | 0 <= j < |es| ::
      Segments(es[j].path) == k && LastCode(es, k).value == es[j].code
      && forall m | j < m < |es| :: Segments(es[m].path) != k
  {
    if es != [] {
      var front := es[..|es| - 1];
      LastCodeEnds(front, k);
      assert forall i | 0 <= i < |front| :: front[i] == es[i];
      if Segments(es[|es| - 1].path) != k && LastCode(es, k).Some? {
        var j :| 0 <= j < |front| && Segments(front[j].path) == k && LastCode(front, k).value == front[j].code
          && forall m | j < m < |front| :: Segments(front[m].path) != k;
        assert Segments(es[j].path) == k;
      }
    }
  }

  /**
   * Only the node where an entry's path ends gets a type, the code of the
   * last such entry, and with it the icon for that code; a node that is
   * only passed through has neither.
   */
  lemma TypeOnlyAtEnds(t: Tree, es: seq<Entry>, k: Key)
    requires Summarises(t, es) && k in t.nodes
    ensures t.nodes[k].code.Some? <==> EndsAt(es, k)
    ensures t.nodes[k].code.None? ==> t.nodes[k].icon.None?
    ensures t.nodes[k].code.Some? ==> t.nodes[k].icon == Some(IconOf(t.nodes[k].code.value))
    ensures t.nodes[k].code.Some? ==>
      exists j | 0 <= j < |es| :: Segments(es[j].path) == k && t.nodes[k].code.value == es[j].code
  {
    LastCodeEnds(es, k);
    assert ShapedAt(t, k);
  }

  // ---------------------------------------------------------------- sizes add up

  /** The sizes of all entries, added up. */
  function TotalSize(es: seq<Entry>): nat
  {
    if es == [] then 0 else TotalSize(es[..|es| - 1]) + es[|es| - 1].size
  }

  /** The sizes of the nodes at `ks`, added up. */
  function SumSizes(t: Tree, ks: seq<Key>): nat
    requires forall k | k in ks :: k in t.nodes
  {
    if ks == [] then 0 else t.nodes[ks[0]].size + SumSizes(t, ks[1..])
  }

  /** `SizeThrough` over the keys `ks`, added up. */
  function SumThrough(ks: seq<Key>, es: seq<Entry>): nat
  {
    if ks == [] then 0 else SizeThrough(es, ks[0]) + SumThrough(ks[1..], es)
  }

  /** The size of `e` once for each of the keys `ks` its path passes through. */
  function SumHere(ks: seq<Key>, e: Entry): nat
  {
    if ks == [] then 0 else (if Through(e, ks[0]) then e.size else 0) + SumHere(ks[1..], e)
  }

  /** Splitting off the last entry: its size counts once for each key its path passes through. */
  lemma {:induction false} SumThroughLast(ks: seq<Key>, es: seq<Entry>)
    requires es != []
    ensures SumThrough(ks, es) == SumThrough(ks, es[..|es| - 1]) + SumHere(ks, es[|es| - 1])
  {
    if ks != [] {
      SumThroughLast(ks[1..], es);
    }
  }

  /** A one-segment key is passed through exactly when it is the path's first segment. */
  lemma ThroughFirst(e: Entry, k: Key)
    requires |k| == 1
    ensures Through(e, k) <==> k == [Segments(e.path)[0]]
  {
    var segs := Segments(e.path);
    assert segs[..1] == [segs[0]];
  }

  /** Among one-segment keys, only the path's first segment is passed through. */
  lemma {:induction false} SumHereMissing(ks: seq<Key>, e: Entry)
    requires forall k | k in ks :: |k| == 1
    requires [Segments(e.path)[0]] !in ks
    ensures SumHere(ks, e) == 0
  {
    if ks != [] {
      assert ks[0] in ks;
      ThroughFirst(e, ks[0]);
      assert forall k | k in ks[1..] :: k in ks;
      SumHereMissing(ks[1..], e);
    }
  }

  lemma {:induction false} SumHereOnce(ks: seq<Key>, e: Entry)
    requires NoDup(ks) && forall k | k in ks :: |k| == 1
    requires [Segments(e.path)[0]] in ks
    ensures SumHere(ks, e) == e.size
  {
    var first := [Segments(e.path)[0]];
    var rest := ks[1..];
    assert forall k | k in rest :: k in ks;
    ThroughFirst(e, ks[0]);
    if ks[0] == first {
      assert first !in rest by {
        forall j | 0 <= j < |rest| ensures rest[j] != first {
          assert rest[j] == ks[j + 1];
        }
      }
      SumHereMissing(rest, e);
    } else {
      assert ks[0] in ks;
      ThroughFirst(e, ks[0]);
      assert first in rest;
      assert NoDup(rest) by {
        forall i, j | 0 <= i < j < |rest| ensures rest[i] != rest[j] {
          assert rest[i] == ks[i + 1] && rest[j] == ks[j + 1];
        }
      }
      SumHereOnce(rest, e);
    }
  }

  /** When every entry's first segment is one of the keys, exactly once, the keys' sizes add up to the total. */
  lemma {:induction false} SumThroughTotal(ks: seq<Key>, es: seq<Entry>)
    requires NoDup(ks) && forall k | k in ks :: |k| == 1
    requires forall i | 0 <= i < |es| :: [Segments(es[i].path)[0]] in ks
    ensures SumThrough(ks, es) == TotalSize(es)
  {
    if es == [] {
      SumThroughEmpty(ks, es);
    } else {
      var front, e := es[..|es| - 1], es[|es| - 1];
      forall i | 0 <= i < |front| ensures [Segments(front[i].path)[0]] in ks {
        assert front[i] == es[i];
      }
      SumThroughTotal(ks, front);
      SumThroughLast(ks, es);
      SumHereOnce(ks, e);
    }
  }

  lemma {:induction false} SumThroughEmpty(ks: seq<Key>, es: seq<Entry>)
    requires es == []
    ensures SumThrough(ks, es) == 0
  {
    if ks != [] {
      SumThroughEmpty(ks[1..], es);
    }
  }

  lemma {:induction false} SumSizesThrough(t: Tree, ks: seq<Key>, es: seq<Entry>)
    requires forall k | k in ks :: k in t.nodes && t.nodes[k].size == SizeThrough(es, k)
    ensures SumSizes(t, ks) == SumThrough(ks, es)
  {
    if ks != [] {
      assert ks[0] in ks;
      assert forall k | k in ks[1..] :: k in ks;
      SumSizesThrough(t, ks[1..], es);
    }
  }

  /** The sizes of the top-level nodes add up to the sizes of all entries. */
  lemma TopLevelSizes(t: Tree, es: seq<Entry>)
    requires Summarises(t, es)
    ensures forall k | k in t.roots :: k in t.nodes
    ensures SumSizes(t, t.roots) == TotalSize(es)
  {
    assert ListsChildren(t, []);
    forall i | 0 <= i < |es| ensures [Segments(es[i].path)[0]] in t.roots {
      var k := [Segments(es[i].path)[0]];
      ThroughFirst(es[i], k);
      ReachedSome(es, k);
      assert Listed(t, k);
      assert Parent(k) == [];
    }
    SumThroughTotal(t.roots, es);
    SumSizesThrough(t, t.roots, es);
  }

  // ---------------------------------------------------------------- ids

  /** The ids of the nodes at `ks`, in order. */
  function Ids(ks: seq<Key>): seq<string>
  {
    seq(|ks|, i requires 0 <= i < |ks| => NodeId(ks[i]))
  }

  lemma IdsOne(k: Key)
    ensures Ids([k]) == [NodeId(k)]
  {
    assert Ids([k])[0] == NodeId(k);
  }

  lemma IdsConcat(a: seq<Key>, b: seq<Key>)
    ensures Ids(a + b) == Ids(a) + Ids(b)
  {
    assert |Ids(a + b)| == |Ids(a) + Ids(b)|;
    forall i | 0 <= i < |a + b| ensures Ids(a + b)[i] == (Ids(a) + Ids(b))[i] {
      if i < |a| {
        assert (a + b)[i] == a[i];
      } else {
        assert (a + b)[i] == b[i - |a|];
      }
    }
  }

  /** A node's stored id is the id of its key. */
  lemma NodeIdStored(t: Tree, k: Key)
    requires Shaped(t) && k in t.nodes
    ensures t.nodes[k].id == NodeId(k) && |k| >= 1
  {
    assert ShapedAt(t, k);
  }

  /** Distinct nodes have distinct ids, so a duplicate-free list of nodes has duplicate-free ids. */
  lemma IdsNoDup(t: Tree, ks: seq<Key>)
    requires Shaped(t) && NoDup(ks) && forall k | k in ks :: k in t.nodes
    ensures NoDup(Ids(ks))
  {
    forall i, j | 0 <= i < j < |ks| ensures Ids(ks)[i] != Ids(ks)[j] {
      assert ks[i] in ks && ks[j] in ks;
      assert ShapedAt(t, ks[i]) && ShapedAt(t, ks[j]);
      IdsDistinct(ks[i], ks[j]);
    }
  }

  /** A child is created only when no sibling has its id, so the ids of a node's children are all different. */
  lemma SiblingIdsUnique(t: Tree, k: Key)
    requires Valid(t) && InTree(t, k)
    ensures NoDup(Ids(Children(t, k)))
  {
    assert ListsChildren(t, k);
    IdsNoDup(t, Children(t, k));
  }
}
