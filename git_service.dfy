/**
 * The state the Git view keeps and the operations that change it: the
 * change tree built from `git status`, the tree's checkbox handler, the
 * default choice of files for Git LFS, the nodes opened at first, and the
 * LFS file list, branches and remotes read from Git. Git's output arrives
 * as parameters; what the operations do with it is in the module
 * `GitOutput`, and the walks over the tree are in `TreeWalks`.
 */
module GitService {
  import opened Wrappers
  import opened Strings
  import opened ChangeTree
  import opened TreeWalks
  import opened GitOutput
  import opened Selection

  /** The LFS threshold is given in MiB and compared with sizes in bytes. */
  const MiB: nat := 1024 * 1024

  /** The status records with their sizes pushed on, one size per record. */
  function StatusEntries(records: seq<StatusRecord>, sizes: seq<nat>): seq<Entry>
    requires |sizes| == |records|
  {
    seq(|records|, i requires 0 <= i < |records| => Entry(records[i].code, records[i].path, sizes[i]))
  }

  /** The loop of `parse_status` that pushes each file's size onto its status record. */
  method PushSizes(records: seq<StatusRecord>, sizes: seq<nat>) returns (status: seq<Entry>)
    requires |sizes| == |records|
    ensures |status| == |records|
    ensures forall i | 0 <= i < |records| :: status[i] == Entry(records[i].code, records[i].path, sizes[i])
  {
    status := [];
    for i := 0 to |records|
      invariant |status| == i
      invariant forall j | 0 <= j < i :: status[j] == Entry(records[j].code, records[j].path, sizes[j])
    {
      status := status + [Entry(records[i].code, records[i].path, sizes[i])];
    }
  }

  /** The test of `init_select_nodes`: a childless node that is no ".xlsx" file and lies in a dataset, is big enough or is tracked by LFS. */
  method IsLfsCandidate(t: Tree, k: Key, files: map<string, bool>, limit: nat) returns (candidate: bool)
    requires Shaped(t) && k in t.nodes
    ensures candidate == Keep(t, LfsOf(t, files, limit), k)
  {
    var node := t.nodes[k];
    NodeIdStored(t, k);
    candidate := |node.children| < 1 && !EndsWith(node.id, ".xlsx")
      && (Contains(Lower(node.id), "/dataset/") || node.size >= limit || node.id in files);
  }

  /** The ids `select_lfs_nodes` selects hold no duplicate. */
  lemma LfsSelectionNoDup(t: Tree, lfsFiles: map<string, bool>, limit: nat)
    requires ChangeTree.Valid(t)
    ensures NoDup(Ids(CollectFrom(t, [], 0, LfsOf(t, lfsFiles, limit))))
  {
    var ks := CollectFrom(t, [], 0, LfsOf(t, lfsFiles, limit));
    CollectFromSound(t, [], 0, LfsOf(t, lfsFiles, limit));
    CollectFromNoDup(t, [], 0, LfsOf(t, lfsFiles, limit));
    IdsNoDup(t, ks);
  }

  /** No id `select_lfs_nodes` selects ends in ".xlsx". */
  lemma LfsSelectionXlsxFree(t: Tree, lfsFiles: map<string, bool>, limit: nat)
    requires ChangeTree.Valid(t)
    ensures XlsxFree(Ids(CollectFrom(t, [], 0, LfsOf(t, lfsFiles, limit))))
  {
    var w := LfsOf(t, lfsFiles, limit);
    var ks := CollectFrom(t, [], 0, w);
    CollectFromSound(t, [], 0, w);
    forall i | 0 <= i < |ks| ensures !IsXlsx(Ids(ks)[i]) {
      assert ks[i] in ks;
      assert Keep(t, w, ks[i]);
      assert LfsFile(t, lfsFiles, limit, ks[i]);
    }
  }

  /** Together: the selection `select_lfs_nodes` makes keeps the selection invariant. */
  lemma LfsSelectionClean(t: Tree, lfsFiles: map<string, bool>, limit: nat)
    requires ChangeTree.Valid(t)
    ensures NoDup(Ids(CollectFrom(t, [], 0, LfsOf(t, lfsFiles, limit))))
    ensures XlsxFree(Ids(CollectFrom(t, [], 0, LfsOf(t, lfsFiles, limit))))
  {
    LfsSelectionNoDup(t, lfsFiles, limit);
    LfsSelectionXlsxFree(t, lfsFiles, limit);
  }

  /**
   * `get_leaf_nodes(nodes, node)`: appends to `nodes` the childless nodes
   * of the subtree at `node`, the root when none is given. Only the
   * default reads the state, so the tree is passed in.
   */
  method GetLeafNodes(t: Tree, nodes: seq<Key>, node: Option<Key>) returns (r: seq<Key>)
    requires Linked(t) && (node.Some? ==> InTree(t, node.value))
    ensures r == nodes + Collect(t, if node.Some? then node.value else [], LeafWalk)
  {
    var k := if node.Some? then node.value else [];
    r := LeafNodesFrom(t, nodes, k);
  }

  /**
   * The recursion of `get_leaf_nodes`, which always passes a node: a
   * childless node is pushed, otherwise its children are tried from left
   * to right.
   */
  method LeafNodesFrom(t: Tree, nodes: seq<Key>, k: Key) returns (r: seq<Key>)
    requires Linked(t) && InTree(t, k)
    ensures r == nodes + Collect(t, k, LeafWalk)
    decreases MaxLen(t.nodes.Keys) - |k|
  {
    var children := Children(t, k);
    if |children| < 1 {
      r := nodes + [k];
      LeafWalkAtLeaf(t, k);
      return;
    }
    PartwayStart(t, k, LeafWalk, nodes);
    r := nodes;
    for i := 0 to |children|
      invariant Partway(t, k, LeafWalk, i, nodes, r)
    {
      CollectFromStep(t, k, i, LeafWalk);
      var r' := LeafNodesFrom(t, r, children[i]);
      PartwayStep(t, k, LeafWalk, i, nodes, r, r');
      r := r';
    }
    PartwayEnd(t, k, LeafWalk, nodes, r);
    LeafWalkAtInner(t, k);
  }

  class GitState {
    var remotes: map<string, Remote>
    var branches: Branches
    var lfsFiles: map<string, bool>
    /** The size from which a file goes to LFS by default, in MiB. */
    var lfsSizeLimit: nat
    var rebaseInProgress: bool
    var changeTree: Tree
    var expanded: seq<string>
    var selected: seq<string>

    /** The tree is well formed, and the selection holds no id twice and no ".xlsx" id. */
    ghost predicate Valid()
      reads this
    {
      ChangeTree.Valid(changeTree) && NoDup(selected) && XlsxFree(selected)
    }

    /** The walk `select_lfs_nodes` makes with the current LFS list and threshold. */
    function LfsCurrent(): Walk
      reads this`changeTree, this`lfsFiles, this`lfsSizeLimit
    {
      LfsOf(changeTree, lfsFiles, lfsSizeLimit * MiB)
    }

    constructor()
      ensures Valid()
      ensures changeTree == Tree([], map[]) && selected == [] && expanded == []
      ensures lfsFiles == map[] && lfsSizeLimit == 1 && remotes == map[]
      ensures branches == Branches([], None) && !rebaseInProgress
    {
      remotes := map[];
      branches := Branches([], None);
      lfsFiles := map[];
      lfsSizeLimit := 1;
      rebaseInProgress := false;
      changeTree := Tree([], map[]);
      expanded := [];
      selected := [];
    }

    // -------------------------------------------------------------- the change tree

    /** `build_change_tree`: the tree of the entries becomes the current tree. */
    method BuildChangeTree(status: seq<Entry>) returns (root: Tree)
      modifies this`changeTree
      ensures changeTree == root && Summarises(root, status)
    {
      root := BuildTree(status);
      changeTree := root;
    }

    /**
     * The handler of a node's checkbox: when every leaf below the node is
     * selected they are all unselected, otherwise they are all selected.
     */
    method Toggle(k: Key)
      requires Valid() && k in changeTree.nodes
      modifies this`selected
      ensures Valid()
      ensures var leaves := Ids(Collect(changeTree, k, LeafWalk));
        selected == Toggled(old(selected), leaves)
    {
      var leafNodes := GetLeafNodes(changeTree, [], Some(k));
      assert leafNodes == Collect(changeTree, k, LeafWalk);
      var leaves := Ids(leafNodes);
      var n := CountIn(leaves, selected);
      if n == |leaves| {
        Unselect(leaves);
      } else {
        Select(leaves);
      }
    }

    /** `unselect`: each id is looked up and, when found, spliced out. */
    method Unselect(ids: seq<string>)
      requires NoDup(selected) && XlsxFree(selected)
      modifies this`selected
      ensures selected == Without(old(selected), ids)
      ensures NoDup(selected) && XlsxFree(selected)
    {
      ghost var before := selected;
      WithoutNone(before, []);
      for i := 0 to |ids|
        invariant selected == Without(before, ids[..i])
        invariant NoDup(selected)
      {
        var idx := Find(selected, ids[i]);
        ghost var s := selected;
        if idx >= 0 {
          selected := selected[..idx] + selected[idx + 1..];
        }
        SpliceStep(before, ids, i, s, idx, selected);
      }
      assert ids[..|ids|] == ids;
      ClearLeaves(before, ids);
    }

    /** `select`: each id not yet selected is pushed, then every ".xlsx" id is filtered out. */
    method Select(ids: seq<string>)
      requires NoDup(selected)
      modifies this`selected
      ensures selected == NoXlsx(Added(old(selected), ids))
      ensures NoDup(selected) && XlsxFree(selected)
    {
      ghost var before := selected;
      for i := 0 to |ids|
        invariant selected == Added(before, ids[..i])
      {
        var idx := Find(selected, ids[i]);
        if idx < 0 {
          selected := selected + [ids[i]];
        }
        assert ids[..i + 1][..i] == ids[..i];
      }
      assert ids[..|ids|] == ids;
      selected := NoXlsx(selected);
      AddLeaves(before, ids);
    }

    // -------------------------------------------------------------- Git LFS

    /**
     * `update_lfs_files`: when the listing could be read, the map is
     * rebuilt from it line by line; otherwise it stays as it was.
     */
    method UpdateLfsFiles(ok: bool, out: string)
      modifies this`lfsFiles
      ensures lfsFiles == if ok then LfsMap(Split(out, "\n")) else old(lfsFiles)
    {
      if !ok {
        return;
      }
      lfsFiles := map[];
      var lines := Split(out, "\n");
      for i := 0 to |lines|
        invariant lfsFiles == LfsMap(lines[..i])
      {
        var e := LfsLine(lines[i]);
        lfsFiles := lfsFiles[e.0 := e.1];
        assert lines[..i + 1][..i] == lines[..i];
      }
      assert lines[..|lines|] == lines;
    }

    /**
     * `select_lfs_nodes`: after the LFS list is read again, the selection
     * is replaced by the LFS candidates, found by a walk from each of the
     * root's children in turn.
     */
    method SelectLfsNodes(ok: bool, out: string)
      requires ChangeTree.Valid(changeTree)
      modifies this`lfsFiles, this`selected
      ensures lfsFiles == if ok then LfsMap(Split(out, "\n")) else old(lfsFiles)
      ensures selected == Ids(CollectFrom(changeTree, [], 0, LfsCurrent()))
      ensures Valid()
    {
      UpdateLfsFiles(ok, out);
      SelectCandidates();
    }

    /** The loop of `select_lfs_nodes`: the selection is cleared and the walk is made from each of the root's children. */
    method SelectCandidates()
      requires ChangeTree.Valid(changeTree)
      modifies this`selected
      ensures selected == Ids(CollectFrom(changeTree, [], 0, LfsCurrent()))
      ensures Valid()
    {
      selected := [];
      var t, files, limit := changeTree, lfsFiles, lfsSizeLimit * MiB;
      ghost var w := LfsOf(t, files, limit);
      var roots := t.roots;
      IdsPartwayStart(t, [], w, []);
      for i := 0 to |roots|
        invariant IdsPartway(t, [], w, i, [], selected)
      {
        CollectFromStep(t, [], i, w);
        ghost var before := selected;
        InitSelectNodes(t, roots[i], files, limit);
        IdsPartwayStep(t, [], w, i, [], before, selected);
      }
      IdsPartwayEnd(t, [], w, [], selected);
      LfsSelectionClean(t, files, limit);
    }

    /**
     * `init_select_nodes`, a closure of `select_lfs_nodes`: the node's id
     * is pushed when it is a candidate, then its children are walked. It
     * goes down through the nodes themselves and never reads the tree from
     * the state, so the tree is passed in; the LFS list and the threshold,
     * which nothing changes during the walk, are passed in as well.
     */
    method InitSelectNodes(t: Tree, k: Key, files: map<string, bool>, limit: nat)
      requires Linked(t) && Shaped(t) && k in t.nodes
      modifies this`selected
      ensures selected == old(selected) + Ids(Collect(t, k, LfsOf(t, files, limit)))
      decreases MaxLen(t.nodes.Keys) - |k|
    {
      ghost var w := LfsOf(t, files, limit);
      var children := Children(t, k);
      var candidate := IsLfsCandidate(t, k, files, limit);
      ghost var pushed: seq<string> := if candidate then [t.nodes[k].id] else [];
      if candidate {
        selected := selected + [t.nodes[k].id];
      }
      NodeIdStored(t, k);
      ghost var first: seq<Key> := if candidate then [k] else [];
      LfsWalkAt(t, k, w);
      IdsConcat(first, CollectFrom(t, k, 0, w));
      IdsOne(k);
      assert Ids(first) == pushed;
      ghost var base := selected;
      IdsPartwayStart(t, k, w, base);
      for i := 0 to |children|
        invariant IdsPartway(t, k, w, i, base, selected)
      {
        CollectFromStep(t, k, i, w);
        ghost var before := selected;
        InitSelectNodes(t, children[i], files, limit);
        IdsPartwayStep(t, k, w, i, base, before, selected);
      }
      IdsPartwayEnd(t, k, w, base, selected);
      Assoc(old(selected), pushed, Ids(CollectFrom(t, k, 0, w)));
    }

    // -------------------------------------------------------------- what is opened at first

    /** The opened node ids become the root's and those of the nodes `expand_children` reaches from the root's children. */
    method ExpandChildren()
      requires ChangeTree.Valid(changeTree)
      modifies this`expanded
      ensures expanded == [RootId] + Ids(CollectFrom(changeTree, [], 0, ExpandWalk))
    {
      expanded := [RootId];
      var t := changeTree;
      var roots := t.roots;
      IdsPartwayStart(t, [], ExpandWalk, [RootId]);
      for i := 0 to |roots|
        invariant changeTree == t
        invariant IdsPartway(t, [], ExpandWalk, i, [RootId], expanded)
      {
        CollectFromStep(t, [], i, ExpandWalk);
        ghost var before := expanded;
        ExpandFrom(t, roots[i]);
        IdsPartwayStep(t, [], ExpandWalk, i, [RootId], before, expanded);
      }
      IdsPartwayEnd(t, [], ExpandWalk, [RootId], expanded);
    }

    /**
     * `expand_children`, a closure of `parse_status`: a node with more than
     * five children stays closed and so does all below it; otherwise it
     * opens and its children are tried. It never reads the tree from the
     * state, so the tree is passed in.
     */
    method ExpandFrom(t: Tree, k: Key)
      requires Linked(t) && Shaped(t) && k in t.nodes
      modifies this`expanded
      ensures expanded == old(expanded) + Ids(Collect(t, k, ExpandWalk))
      decreases MaxLen(t.nodes.Keys) - |k|
    {
      var node := t.nodes[k];
      var children := Children(t, k);
      NodeIdStored(t, k);
      if |children| > 5 {
        ExpandWalkClosed(t, k);
        return;
      }
      expanded := expanded + [node.id];
      ExpandWalkOpen(t, k);
      IdsConcat([k], CollectFrom(t, k, 0, ExpandWalk));
      IdsOne(k);
      ghost var base := expanded;
      IdsPartwayStart(t, k, ExpandWalk, base);
      for i := 0 to |children|
        invariant IdsPartway(t, k, ExpandWalk, i, base, expanded)
      {
        CollectFromStep(t, k, i, ExpandWalk);
        ghost var before := expanded;
        ExpandFrom(t, children[i]);
        IdsPartwayStep(t, k, ExpandWalk, i, base, before, expanded);
      }
      IdsPartwayEnd(t, k, ExpandWalk, base, expanded);
      Assoc(old(expanded), [node.id], Ids(CollectFrom(t, k, 0, ExpandWalk)));
    }

    // -------------------------------------------------------------- reading git status

    /**
     * `parse_status`, with the output of `git status`, of
     * `git status -z -u`, the file sizes and the LFS listing given: the
     * rebase flag is set, the tree is rebuilt, the LFS selection is made
     * and the first nodes are opened. The records are read pairwise, so the
     * original path of a rename or copy is not taken for a record of its
     * own (see `GitOutput.PorcelainSplitsRename`).
     */
    method ParseStatus(statusOut: string, porcelainOut: string, sizes: seq<nat>, lfsOk: bool, lfsOut: string)
      requires |sizes| == |ParsePorcelainPairs(porcelainOut)|
      modifies this`rebaseInProgress, this`changeTree, this`lfsFiles, this`selected, this`expanded
      ensures rebaseInProgress == RebaseInProgress(statusOut)
      ensures Summarises(changeTree, StatusEntries(ParsePorcelainPairs(porcelainOut), sizes))
      ensures lfsFiles == if lfsOk then LfsMap(Split(lfsOut, "\n")) else old(lfsFiles)
      ensures selected == Ids(CollectFrom(changeTree, [], 0, LfsCurrent()))
      ensures expanded == [RootId] + Ids(CollectFrom(changeTree, [], 0, ExpandWalk))
      ensures Valid()
    {
      rebaseInProgress := StartsWith(statusOut, "interactive rebase in progress");
      var status := PushSizes(ParsePorcelainPairs(porcelainOut), sizes);
      assert status == StatusEntries(ParsePorcelainPairs(porcelainOut), sizes);
      var root := BuildChangeTree(status);
      SelectLfsNodes(lfsOk, lfsOut);
      ExpandChildren();
    }

    // -------------------------------------------------------------- branches and remotes

    /** `get_branches`: every line but the last is a branch; the starred one is current. */
    method GetBranches(out: string) returns (b: Branches)
      modifies this`branches
      ensures b == BranchesOf(Rows(out)) && branches == b
    {
      var rows := Rows(out);
      var list: seq<string> := [];
      var current: Option<string> := None;
      for i := 0 to |rows|
        invariant Branches(list, current) == BranchesOf(rows[..i])
      {
        var name := Drop(rows[i], 2);
        list := list + [name];
        if |rows[i]| > 0 && rows[i][0] == '*' {
          current := Some(name);
        }
        assert rows[..i + 1][..i] == rows[..i];
      }
      assert rows[..|rows|] == rows;
      b := Branches(list, current);
      branches := b;
    }

    /**
     * `get_remotes`: the remotes are cleared and every line but the last
     * is read as a remote. The result says whether all lines could be
     * read; at the first without a tab `get_remotes` throws, with the remotes
     * read until then left in place.
     */
    method GetRemotes(out: string) returns (ok: bool)
      modifies this`remotes
      ensures (remotes, ok) == RemotesOf(Rows(out))
    {
      remotes := map[];
      var rows := Rows(out);
      var i := 0;
      while i < |rows|
        invariant i <= |rows|
        invariant RemotesOf(rows[..i]) == (remotes, true)
      {
        var r := RemoteRow(rows[i]);
        assert rows[..i + 1][..i] == rows[..i];
        if r.None? {
          RemotesStop(rows, i + 1);
          ok := false;
          return;
        }
        remotes := remotes[r.value.0 := Remote(r.value.1, false)];
        i := i + 1;
      }
      assert rows[..i] == rows;
      ok := true;
    }
  }
}
