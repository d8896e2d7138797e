/** The application state of the archive browser: the node tree and the
    search filter, with the operations the tree view calls (expanding a folder,
    toggling a selection, selecting all or none, setting the filter). The
    node tree lives in a sequence field that the methods reassign. */
module GuiState {
  import opened Common
  import opened Text
  import opened SelectionTree
  import opened TreeBuild
  import opened TreeCount

  /** `j` is `root` or lies in the subtree of one of the first `k` of `children`. */
  ghost predicate Covered(tree: Tree, root: nat, children: seq<nat>, k: nat, j: nat)
    requires k <= |children|
  {
    j == root || exists m :: 0 <= m < k && InSubtree(tree, children[m], j)
  }

  class AppState {
    var tree: seq<Node>
    var searchFilter: string

    /** The tree is linked consistently and every folder agrees with its children. */
    ghost predicate Valid()
      reads this
    {
      Structured(tree) && TriState(tree)
    }

    /** `AppState::new`: no nodes and no filter. */
    constructor ()
      ensures tree == [] && searchFilter == []
      ensures Valid()
    {
      tree := [];
      searchFilter := [];
    }

    /** `build_tree_from_paths`: the folder prefixes, the entry lists under each parent path
        sorted folders first and by lower-cased name, a root folder with the empty path,
        then the walk below it. Below the root there is one folder node per folder prefix
        and one file node per input path. */
    method BuildTreeFromPaths(paths: seq<string>, rootName: string)
      modifies this`tree
      ensures Structured(tree) && TriState(tree)
      ensures |tree| >= 1 && tree[0] == Node([], rootName, 0, true, true, true, false, tree[0].children, None)
      ensures forall i :: 1 <= i < |tree| ==>
        && tree[i].expanded && tree[i].selected && !tree[i].partiallySelected
        && tree[i].parent.Some?
        && tree[i].depth == |Split(tree[i].path, Sep)|
      ensures forall i :: 0 <= i < |tree| ==> OrderedChildren(tree, i)
      ensures TotalCount(tree) == |paths|
      ensures forall f :: IsFolder(paths, f) ==> multiset(Labels(tree[1..]))[FolderEntry(f)] == 1
      ensures forall i :: 1 <= i < |tree| && tree[i].isFolder ==> IsFolder(paths, tree[i].path)
      ensures forall e: Entry :: !e.isFolder ==> multiset(Labels(tree[1..]))[e] == multiset(FileEntries(paths))[e]
    {
      tree := [];
      var folders := CollectFolders(paths);
      var grouped, order := GroupChildren(folders, paths);
      var cm := SortChildren(grouped);
      GroupedKeysGrow(paths, folders, order, grouped, cm);
      var root := Node([], rootName, 0, true, true, true, false, [], None);
      tree := [root];
      BuildTreeDfs(cm, [], 0, MaxLen(paths));
      WalkedBelow([root], tree, 0, Get(cm, []), cm, 0, MaxLen(paths));
      LaidOrdered(tree, cm);
      BuildGathered(paths, order, cm);
      BuiltTotal(tree, paths, order);
      BuiltNodes(tree, paths, order);
    }

    /** `build_tree_dfs`: each entry listed under `parentPath`, in order, becomes a node
        below `parentIdx`, and a folder's own entries follow it at once. */
    method BuildTreeDfs(cm: ChildrenMap, parentPath: string, parentIdx: nat, ghost bound: nat)
      requires Structured(tree) && parentIdx < |tree| && tree[parentIdx].path == parentPath
      requires KeysGrow(cm, bound) && |parentPath| <= bound
      modifies this`tree
      ensures Structured(tree)
      ensures WalkDone(old(tree), tree, parentIdx, Get(cm, parentPath), |Get(cm, parentPath)|, cm, |parentPath|, bound)
      decreases bound - |parentPath|
    {
      ghost var t0 := tree;
      var children := Get(cm, parentPath);
      assert children[..0] == [] && tree[|t0|..] == [];
      assert tree[parentIdx].children[|t0[parentIdx].children|..] == [];
      if parentPath !in cm {
        return;
      }
      var k := 0;
      while k < |children|
        invariant Structured(tree)
        invariant WalkDone(t0, tree, parentIdx, children, k, cm, |parentPath|, bound)
      {
        var entry := children[k];
        var idx := |tree|;
        ghost var before := tree;
        AttachStructured(tree, parentIdx, NewNode(entry, parentIdx));
        tree := Attach(tree, parentIdx, NewNode(entry, parentIdx));
        ghost var attached := tree;
        if entry.isFolder {
          BuildTreeDfs(cm, entry.fullPath, idx, bound);
        }
        WalkStep(t0, before, attached, tree, parentIdx, children, k, cm, |parentPath|, bound);
        k := k + 1;
      }
    }

    /** `toggle_expand`: flips `expanded` of a folder in range; otherwise nothing changes.
        Selection and links are untouched. */
    method ToggleExpand(index: nat)
      modifies this`tree
      ensures tree == ExpandToggled(old(tree), index)
      ensures old(Valid()) ==> Valid()
    {
      ghost var t0 := tree;
      if index < |tree| && tree[index].isFolder {
        tree := tree[index := tree[index].(expanded := !tree[index].expanded)];
      }
      ExpandToggledProperties(t0, index);
      if Structured(t0) {
        SameLinksStructured(t0, tree);
      }
    }

    /** `toggle_select`: the subtree of `index` takes the opposite of the node's selection
        and loses every partial mark, then the ancestors are recounted from their
        children; an index out of range changes nothing. The tri-state rule is kept. */
    method ToggleSelect(index: nat)
      requires Structured(tree)
      modifies this`tree
      ensures Structured(tree) && SameLinks(old(tree), tree)
      ensures old(TriState(tree)) ==> TriState(tree)
      ensures index >= |old(tree)| ==> tree == old(tree)
      ensures index < |old(tree)| ==>
        var marked := SelectSubtree(old(tree), index, !old(tree)[index].selected);
        Structured(marked) && tree == Propagated(marked, index)
      ensures index < |old(tree)| ==> forall j :: 0 <= j < |tree| && InSubtree(old(tree), index, j) ==>
        tree[j].selected == !old(tree)[index].selected && !tree[j].partiallySelected
      ensures index < |old(tree)| ==> forall j :: 0 <= j < |tree| && !InSubtree(old(tree), index, j) && !Above(old(tree), j, index) ==>
        tree[j] == old(tree)[j]
    {
      if index < |tree| {
        ghost var t0 := tree;
        var newState := !tree[index].selected;
        SetSelectedRecursive(index, newState);
        ghost var t1 := tree;
        SameLinksStructured(t0, t1);
        UpdateParentSelection(index);
        SameLinksStructured(t1, tree);
        if TriState(t0) {
          SelectSubtreeTriState(t0, index, newState);
          PropagatedTriState(t1, index);
        }
        forall j | 0 <= j < |tree| && InSubtree(t0, index, j)
          ensures tree[j].selected == newState && !tree[j].partiallySelected
        {
          SubtreeOrder(t0, index, j);
          PropagatedTouchesAncestors(t1, index, j);
          SameLinksSubtree(t0, t1, j, index);
          if Above(t1, j, index) {
            SubtreeOrder(t1, j, index);
          }
        }
        forall j | 0 <= j < |tree| && !InSubtree(t0, index, j) && !Above(t0, j, index)
          ensures tree[j] == t0[j]
        {
          PropagatedTouchesAncestors(t1, index, j);
          SameLinksSubtree(t0, t1, j, index);
        }
      }
    }

    /** `set_selected_recursive`: the node and its subtree, child by child. */
    method SetSelectedRecursive(index: nat, selected: bool)
      requires Structured(tree) && index < |tree|
      modifies this`tree
      ensures tree == SelectSubtree(old(tree), index, selected)
      decreases |tree| - index
    {
      ghost var t0 := tree;
      tree := tree[index := Marked(tree[index], selected)];
      var children := tree[index].children;
      var k := 0;
      while k < |children|
        invariant 0 <= k <= |children|
        invariant SameLinks(t0, tree)
        invariant forall j :: 0 <= j < |tree| ==>
          tree[j] == if Covered(t0, index, children, k, j) then Marked(t0[j], selected) else t0[j]
      {
        var child := children[k];
        ChildLink(t0, index, child);
        SameLinksStructured(t0, tree);
        ghost var before := tree;
        SetSelectedRecursive(child, selected);
        forall j | 0 <= j < |tree|
          ensures tree[j] == if Covered(t0, index, children, k + 1, j) then Marked(t0[j], selected) else t0[j]
        {
          SameLinksSubtree(t0, before, child, j);
          if InSubtree(t0, child, j) {
            assert Covered(t0, index, children, k + 1, j);
          } else if Covered(t0, index, children, k + 1, j) && j != index {
            var m :| 0 <= m < k + 1 && InSubtree(t0, children[m], j);
            assert m < k;
          }
        }
        k := k + 1;
      }
      forall j | 0 <= j < |tree|
        ensures Covered(t0, index, children, |children|, j) <==> InSubtree(t0, index, j)
      {
        assert children == t0[index].children;
        SubtreeViaChildren(t0, index, j);
        if j != index && InSubtree(t0, index, j) {
          var c :| c in children && InSubtree(t0, c, j);
          var m :| 0 <= m < |children| && children[m] == c;
          assert Covered(t0, index, children, |children|, j);
        }
        if j != index && Covered(t0, index, children, |children|, j) {
          var m :| 0 <= m < |children| && InSubtree(t0, children[m], j);
          assert children[m] in t0[index].children;
        }
      }
    }

    /** `update_parent_selection`: the parent recounted from its children, then its own
        parent, up to the root. */
    method UpdateParentSelection(index: nat)
      requires Structured(tree) && index < |tree|
      modifies this`tree
      ensures tree == Propagated(old(tree), index)
      decreases index
    {
      if tree[index].parent.Some? {
        var parentIdx := tree[index].parent.value;
        ParentLink(tree, index);
        var allSelected := AllChildrenSelected(tree, parentIdx);
        var anySelected := AnyChildSelected(tree, parentIdx);
        ghost var t0 := tree;
        tree := tree[parentIdx := tree[parentIdx].(selected := allSelected,
                                                   partiallySelected := anySelected && !allSelected)];
        assert tree == Recount(t0, parentIdx);
        SameLinksStructured(t0, tree);
        UpdateParentSelection(parentIdx);
      }
    }

    /** `select_all`: every node selected, none partial; the tri-state rule then holds
        and every file counts as selected. */
    method SelectAll()
      modifies this`tree
      ensures tree == MarkAll(old(tree), true)
      ensures old(Structured(tree)) ==> Valid()
      ensures SelectedCount(tree) == TotalCount(tree)
    {
      ghost var t0 := tree;
      var i := 0;
      while i < |tree|
        invariant 0 <= i <= |tree| == |t0|
        invariant forall j :: 0 <= j < |tree| ==> tree[j] == if j < i then Marked(t0[j], true) else t0[j]
      {
        tree := tree[i := Marked(tree[i], true)];
        i := i + 1;
      }
      if Structured(t0) {
        SameLinksStructured(t0, tree);
        MarkAllTriState(t0, true);
      }
      MarkAllCounts(t0, true);
    }

    /** `select_none`: every node cleared, none partial; the tri-state rule then holds and
        no file counts as selected. */
    method SelectNone()
      modifies this`tree
      ensures tree == MarkAll(old(tree), false)
      ensures old(Structured(tree)) ==> Valid()
      ensures SelectedCount(tree) == 0
    {
      ghost var t0 := tree;
      var i := 0;
      while i < |tree|
        invariant 0 <= i <= |tree| == |t0|
        invariant forall j :: 0 <= j < |tree| ==> tree[j] == if j < i then Marked(t0[j], false) else t0[j]
      {
        tree := tree[i := Marked(tree[i], false)];
        i := i + 1;
      }
      if Structured(t0) {
        SameLinksStructured(t0, tree);
        MarkAllTriState(t0, false);
      }
      MarkAllCounts(t0, false);
    }

    /** `set_search`. */
    method SetSearch(filter: string)
      modifies this`searchFilter
      ensures searchFilter == filter
    {
      searchFilter := filter;
    }
  }
}
