/** The tree view of the application state: an arena of nodes in a flat
    sequence, children as index lists and the parent as an optional index. This
    module holds the node type, the structural and selection invariants, the
    specifications of the selection updates (marking a subtree, recomputing the
    ancestors) and the read-only queries: search visibility and the selected
    files. */
module SelectionTree {
  import opened Common
  import opened Text
  import Search

  /** `InternalNode`. */
  datatype Node = Node(
    path: string,
    name: string,
    depth: int,
    isFolder: bool,
    expanded: bool,
    selected: bool,
    partiallySelected: bool,
    children: seq<nat>,
    parent: Option<nat>)

  type Tree = seq<Node>

  /** Node `i`'s parent comes before it and lists it among its children. */
  predicate ParentLinked(tree: Tree, i: nat)
    requires i < |tree|
  {
    tree[i].parent.Some? ==> tree[i].parent.value < i && i in tree[tree[i].parent.value].children
  }

  /** Node `i`'s children come after it and name it as their parent. */
  predicate ChildrenLinked(tree: Tree, i: nat)
    requires i < |tree|
  {
    forall c :: c in tree[i].children ==> i < c < |tree| && tree[c].parent == Some(i)
  }

  /** Parent and child links agree, and every link points from a smaller index to a
      larger one: a parent comes before its children. */
  predicate Structured(tree: Tree) {
    forall i :: 0 <= i < |tree| ==> ParentLinked(tree, i) && ChildrenLinked(tree, i)
  }

  lemma ChildLink(tree: Tree, i: nat, c: nat)
    requires Structured(tree) && i < |tree| && c in tree[i].children
    ensures i < c < |tree| && tree[c].parent == Some(i)
  {
    assert ChildrenLinked(tree, i);
  }

  lemma ParentLink(tree: Tree, i: nat)
    requires Structured(tree) && i < |tree| && tree[i].parent.Some?
    ensures tree[i].parent.value < i && i in tree[tree[i].parent.value].children
  {
    assert ParentLinked(tree, i);
  }

  /** Node `j` lies in the subtree of node `r`: following parents from `j` reaches `r`. */
  predicate InSubtree(tree: Tree, r: nat, j: nat)
    decreases j
  {
    j == r || (j < |tree| && tree[j].parent.Some? && tree[j].parent.value < j
               && InSubtree(tree, r, tree[j].parent.value))
  }

  /** `a` is a proper ancestor of `j`. */
  predicate Above(tree: Tree, a: nat, j: nat) {
    a != j && InSubtree(tree, a, j)
  }

  lemma {:induction false} SubtreeOrder(tree: Tree, r: nat, j: nat)
    requires InSubtree(tree, r, j)
    ensures r <= j
    decreases j
  {
    if j != r {
      SubtreeOrder(tree, r, tree[j].parent.value);
    }
  }

  /** Two trees with the same links. */
  predicate SameLinks(t: Tree, u: Tree) {
    |t| == |u| && forall j :: 0 <= j < |t| ==> t[j].children == u[j].children && t[j].parent == u[j].parent
  }

  lemma {:induction false} SameLinksSubtree(t: Tree, u: Tree, r: nat, j: nat)
    requires SameLinks(t, u)
    ensures InSubtree(t, r, j) == InSubtree(u, r, j)
    decreases j
  {
    if j != r && j < |t| && t[j].parent.Some? && t[j].parent.value < j {
      SameLinksSubtree(t, u, r, t[j].parent.value);
    }
  }

  lemma SameLinksStructured(t: Tree, u: Tree)
    requires SameLinks(t, u) && Structured(t)
    ensures Structured(u)
  {
    forall i | 0 <= i < |u|
      ensures ParentLinked(u, i) && ChildrenLinked(u, i)
    {
      if u[i].parent.Some? {
        ParentLink(t, i);
        var p := t[i].parent.value;
        assert u[p].children == t[p].children;
      }
      forall c | c in u[i].children
        ensures i < c < |u| && u[c].parent == Some(i)
      {
        ChildLink(t, i, c);
        assert t[c].parent == u[c].parent;
      }
    }
  }

  /** A node of the subtree of `r` other than `r` lies in the subtree of one of `r`'s
      children. */
  lemma {:induction false} SubtreeViaChildren(tree: Tree, r: nat, j: nat)
    requires Structured(tree) && r < |tree| && j < |tree|
    ensures InSubtree(tree, r, j) <==>
      j == r || exists c :: c in tree[r].children && InSubtree(tree, c, j)
    decreases j
  {
    if j != r && InSubtree(tree, r, j) {
      var p := tree[j].parent.value;
      ParentLink(tree, j);
      if p == r {
        assert InSubtree(tree, j, j);
      } else {
        SubtreeViaChildren(tree, r, p);
        var c :| c in tree[r].children && InSubtree(tree, c, p);
        SubtreeOrder(tree, c, p);
        assert InSubtree(tree, c, j);
      }
    }
    if exists c :: c in tree[r].children && InSubtree(tree, c, j) {
      var c :| c in tree[r].children && InSubtree(tree, c, j);
      ChildSubtree(tree, r, c, j);
    }
  }

  /** The subtree of a child lies inside the subtree of its parent. */
  lemma {:induction false} ChildSubtree(tree: Tree, r: nat, c: nat, j: nat)
    requires Structured(tree) && r < |tree| && c in tree[r].children && InSubtree(tree, c, j)
    ensures InSubtree(tree, r, j)
    decreases j
  {
    ChildLink(tree, r, c);
    if j != c {
      ChildSubtree(tree, r, c, tree[j].parent.value);
    }
  }

  // ---------------------------------------------------------------------
  // Selection

  /** The flags `set_selected_recursive` gives a node. */
  function Marked(n: Node, sel: bool): Node {
    n.(selected := sel, partiallySelected := false)
  }

  /** Every child selected and none partially selected (true for a node without
      children). */
  predicate AllChildrenSelected(tree: Tree, i: nat)
    requires i < |tree|
  {
    forall c :: c in tree[i].children && c < |tree| ==> tree[c].selected && !tree[c].partiallySelected
  }

  /** Some child selected or partially selected. */
  predicate AnyChildSelected(tree: Tree, i: nat)
    requires i < |tree|
  {
    exists c :: c in tree[i].children && c < |tree| && (tree[c].selected || tree[c].partiallySelected)
  }

  /** The tri-state rule at one node: a node with children is selected exactly when all of
      them are fully selected, and partially selected exactly when some but not all are
      selected or partial; a node without children is never partial. */
  predicate TriStateAt(tree: Tree, i: nat)
    requires i < |tree|
  {
    if tree[i].children != [] then
      && tree[i].selected == AllChildrenSelected(tree, i)
      && tree[i].partiallySelected == (AnyChildSelected(tree, i) && !AllChildrenSelected(tree, i))
    else
      !tree[i].partiallySelected
  }

  predicate TriState(tree: Tree) {
    forall i :: 0 <= i < |tree| ==> TriStateAt(tree, i)
  }

  /** The tri-state rule everywhere except, possibly, at the proper ancestors of `j`. */
  predicate TriStateBelow(tree: Tree, j: nat) {
    forall i :: 0 <= i < |tree| && !Above(tree, i, j) ==> TriStateAt(tree, i)
  }

  /** Under the tri-state rule a node is never both selected and partially selected. */
  lemma TriStateExclusive(tree: Tree, i: nat)
    requires TriState(tree) && i < |tree|
    ensures !(tree[i].selected && tree[i].partiallySelected)
  {
    assert TriStateAt(tree, i);
  }

  /** `set_selected_recursive(r, sel)`: every node of the subtree of `r` selected or
      cleared, none partial; every other node as it was. */
  function SelectSubtree(tree: Tree, r: nat, sel: bool): (t: Tree)
    ensures SameLinks(tree, t)
  {
    seq(|tree|, j requires 0 <= j < |tree| => if InSubtree(tree, r, j) then Marked(tree[j], sel) else tree[j])
  }

  /** Marking a subtree breaks the tri-state rule nowhere but above it. */
  lemma SelectSubtreeTriState(tree: Tree, r: nat, sel: bool)
    requires Structured(tree) && TriState(tree) && r < |tree|
    ensures TriStateBelow(SelectSubtree(tree, r, sel), r)
  {
    var t := SelectSubtree(tree, r, sel);
    forall i | 0 <= i < |t| && !Above(t, i, r)
      ensures TriStateAt(t, i)
    {
      SameLinksSubtree(tree, t, i, r);
      if InSubtree(tree, r, i) {
        MarkedNodeTriState(tree, r, sel, i);
      } else {
        UnmarkedNodeTriState(tree, r, sel, i);
      }
    }
  }

  /** Inside the marked subtree every node and all its children carry the same flags. */
  lemma MarkedNodeTriState(tree: Tree, r: nat, sel: bool, i: nat)
    requires Structured(tree) && i < |tree| && InSubtree(tree, r, i)
    ensures TriStateAt(SelectSubtree(tree, r, sel), i)
  {
    var t := SelectSubtree(tree, r, sel);
    forall c | c in tree[i].children
      ensures c < |tree| && t[c] == Marked(tree[c], sel)
    {
      ChildLink(tree, i, c);
      assert InSubtree(tree, r, c);
    }
    if tree[i].children != [] {
      var c0 := tree[i].children[0];
      assert c0 in tree[i].children;
      assert t[c0].selected == sel;
    }
  }

  /** Outside the marked subtree, and not above it, a node keeps its flags and so do its
      children. */
  lemma UnmarkedNodeTriState(tree: Tree, r: nat, sel: bool, i: nat)
    requires Structured(tree) && TriState(tree) && i < |tree| && r < |tree|
    requires !InSubtree(tree, r, i) && !Above(tree, i, r)
    ensures TriStateAt(SelectSubtree(tree, r, sel), i)
  {
    var t := SelectSubtree(tree, r, sel);
    forall c | c in tree[i].children
      ensures c < |tree| && t[c] == tree[c]
    {
      ChildLink(tree, i, c);
      if c == r {
        assert InSubtree(tree, i, r);
      }
    }
    assert TriStateAt(tree, i);
    assert t[i] == tree[i];
    assert AllChildrenSelected(t, i) == AllChildrenSelected(tree, i);
    assert AnyChildSelected(t, i) == AnyChildSelected(tree, i);
  }

  /** The flags `update_parent_selection` gives node `p` from its children. */
  function Recount(tree: Tree, p: nat): (t: Tree)
    requires p < |tree|
    ensures SameLinks(tree, t)
  {
    tree[p := tree[p].(selected := AllChildrenSelected(tree, p),
                       partiallySelected := AnyChildSelected(tree, p) && !AllChildrenSelected(tree, p))]
  }

  /** `update_parent_selection(j)`: the parent of `j` recounted, then its parent, up to
      the root. */
  function Propagated(tree: Tree, j: nat): (t: Tree)
    requires Structured(tree) && j < |tree|
    ensures SameLinks(tree, t)
    decreases j
  {
    match tree[j].parent
    case None => tree
    case Some(p) =>
      ParentLink(tree, j);
      SameLinksStructured(tree, Recount(tree, p));
      Propagated(Recount(tree, p), p)
  }

  /** Recounting the parent of `j` moves the possibly broken part one level up. */
  lemma RecountStep(tree: Tree, j: nat, p: nat)
    requires Structured(tree) && j < |tree| && tree[j].parent == Some(p) && p < j
    requires TriStateBelow(tree, j)
    ensures TriStateBelow(Recount(tree, p), p)
  {
    ParentLink(tree, j);
    var t := Recount(tree, p);
    forall i | 0 <= i < |t| && !Above(t, i, p)
      ensures TriStateAt(t, i)
    {
      SameLinksSubtree(tree, t, i, p);
      SameLinksSubtree(tree, t, i, j);
      forall c | c in tree[i].children
        ensures c != p
      {
        ChildLink(tree, i, c);
        assert InSubtree(tree, i, c);
      }
      if i == p {
        assert AllChildrenSelected(t, p) == AllChildrenSelected(tree, p);
        assert AnyChildSelected(t, p) == AnyChildSelected(tree, p);
      } else {
        assert !Above(tree, i, j);
        assert TriStateAt(tree, i);
        assert AllChildrenSelected(t, i) == AllChildrenSelected(tree, i);
        assert AnyChildSelected(t, i) == AnyChildSelected(tree, i);
      }
    }
  }

  /** Recounting every ancestor of `j` restores the tri-state rule everywhere. */
  lemma {:induction false} PropagatedTriState(tree: Tree, j: nat)
    requires Structured(tree) && j < |tree| && TriStateBelow(tree, j)
    ensures TriState(Propagated(tree, j))
    decreases j
  {
    match tree[j].parent
    case None =>
      forall i | 0 <= i < |tree|
        ensures TriStateAt(tree, i)
      {
        assert !Above(tree, i, j);
      }
    case Some(p) =>
      ParentLink(tree, j);
      RecountStep(tree, j, p);
      SameLinksStructured(tree, Recount(tree, p));
      PropagatedTriState(Recount(tree, p), p);
  }

  /** The upward pass changes only the selection flags of the proper ancestors of `j`. */
  lemma {:induction false} PropagatedTouchesAncestors(tree: Tree, j: nat, k: nat)
    requires Structured(tree) && j < |tree| && k < |tree|
    ensures Propagated(tree, j)[k] == tree[k] || Above(tree, k, j)
    ensures Propagated(tree, j)[k] == tree[k].(selected := Propagated(tree, j)[k].selected,
                                                partiallySelected := Propagated(tree, j)[k].partiallySelected)
    decreases j
  {
    match tree[j].parent
    case None =>
    case Some(p) =>
      ParentLink(tree, j);
      var t := Recount(tree, p);
      SameLinksStructured(tree, t);
      PropagatedTouchesAncestors(t, p, k);
      SameLinksSubtree(tree, t, k, p);
      if InSubtree(tree, k, p) {
        SubtreeOrder(tree, k, p);
        assert InSubtree(tree, k, j);
      }
  }

  // ---------------------------------------------------------------------
  // Whole-tree selection

  /** `select_all` (`sel` true) and `select_none` (`sel` false): every node marked. */
  function MarkAll(tree: Tree, sel: bool): (t: Tree)
    ensures SameLinks(tree, t)
  {
    seq(|tree|, j requires 0 <= j < |tree| => Marked(tree[j], sel))
  }

  /** Selecting all or none satisfies the tri-state rule. */
  lemma MarkAllTriState(tree: Tree, sel: bool)
    requires Structured(tree)
    ensures TriState(MarkAll(tree, sel))
  {
    var t := MarkAll(tree, sel);
    forall i | 0 <= i < |t|
      ensures TriStateAt(t, i)
    {
      assert t[i] == Marked(tree[i], sel);
      if t[i].children != [] {
        var c0 := t[i].children[0];
        ChildLink(tree, i, c0);
        assert t[c0].selected == sel;
      }
    }
  }

  // ---------------------------------------------------------------------
  // Queries

  /** `get_selected_files`: the paths of the selected non-folder nodes, in index order. */
  function SelectedFiles(tree: Tree): (r: seq<string>)
    ensures forall i :: 0 <= i < |tree| && !tree[i].isFolder && tree[i].selected ==> tree[i].path in r
    ensures forall p :: p in r ==> exists i :: 0 <= i < |tree| && !tree[i].isFolder && tree[i].selected && tree[i].path == p
  {
    if tree == [] then []
    else
      var last := tree[|tree| - 1];
      var r := SelectedFiles(tree[..|tree| - 1]) + (if !last.isFolder && last.selected then [last.path] else []);
      assert forall i :: 0 <= i < |tree| - 1 ==> tree[..|tree| - 1][i] == tree[i];
      r
  }

  /** `selected_count`: the selected file nodes, never more than the file nodes. */
  function SelectedCount(tree: Tree): (r: nat)
    ensures r <= TotalCount(tree)
  {
    if tree == [] then 0
    else SelectedCount(tree[..|tree| - 1]) + (if !tree[|tree| - 1].isFolder && tree[|tree| - 1].selected then 1 else 0)
  }

  /** `total_count`: the number of non-folder nodes. */
  function TotalCount(tree: Tree): (r: nat)
    ensures r <= |tree|
  {
    if tree == [] then 0
    else TotalCount(tree[..|tree| - 1]) + (if !tree[|tree| - 1].isFolder then 1 else 0)
  }

  /** One path per selected file, and never more selected files than files. */
  lemma {:induction false} SelectedCounts(tree: Tree)
    ensures |SelectedFiles(tree)| == SelectedCount(tree) <= TotalCount(tree)
  {
    if tree != [] {
      SelectedCounts(tree[..|tree| - 1]);
    }
  }

  /** After `select_all` every file is selected; after `select_none` none is. */
  lemma {:induction false} MarkAllCounts(tree: Tree, sel: bool)
    ensures SelectedCount(MarkAll(tree, sel)) == if sel then TotalCount(tree) else 0
    ensures TotalCount(MarkAll(tree, sel)) == TotalCount(tree)
  {
    if tree != [] {
      var t := MarkAll(tree, sel);
      assert t[..|t| - 1] == MarkAll(tree[..|tree| - 1], sel);
      MarkAllCounts(tree[..|tree| - 1], sel);
    }
  }

  /** `node_or_descendants_match`: the node's path or the path of some node below it
      passes the filter. An empty filter keeps every node, a node that passes is kept,
      and a childless node is kept only when it passes itself. */
  predicate NodeOrDescendantsMatch(tree: Tree, filter: string, i: nat): (r: bool)
    requires Structured(tree) && i < |tree|
    ensures filter == [] ==> r
    ensures Search.Matches(filter, tree[i].path) ==> r
    ensures tree[i].children == [] ==> (r <==> Search.Matches(filter, tree[i].path))
    decreases |tree| - i
  {
    || Search.Matches(filter, tree[i].path)
    || exists c :: c in tree[i].children && i < c < |tree| && NodeOrDescendantsMatch(tree, filter, c)
  }

  /** The recursive search is the same as asking whether some node of the subtree passes
      the filter. */
  lemma NodeOrDescendantsMatchSpec(tree: Tree, filter: string, i: nat)
    requires Structured(tree) && i < |tree|
    ensures NodeOrDescendantsMatch(tree, filter, i) <==>
      exists j :: 0 <= j < |tree| && InSubtree(tree, i, j) && Search.Matches(filter, tree[j].path)
  {
    if NodeOrDescendantsMatch(tree, filter, i) {
      MatchFoundInSubtree(tree, filter, i);
    }
    if exists j :: 0 <= j < |tree| && InSubtree(tree, i, j) && Search.Matches(filter, tree[j].path) {
      var j :| 0 <= j < |tree| && InSubtree(tree, i, j) && Search.Matches(filter, tree[j].path);
      SubtreeMatchFound(tree, filter, i, j);
    }
  }

  lemma {:induction false} MatchFoundInSubtree(tree: Tree, filter: string, i: nat)
    requires Structured(tree) && i < |tree| && NodeOrDescendantsMatch(tree, filter, i)
    ensures exists j :: 0 <= j < |tree| && InSubtree(tree, i, j) && Search.Matches(filter, tree[j].path)
    decreases |tree| - i
  {
    if Search.Matches(filter, tree[i].path) {
      assert InSubtree(tree, i, i);
    } else {
      var c :| c in tree[i].children && i < c < |tree| && NodeOrDescendantsMatch(tree, filter, c);
      MatchFoundInSubtree(tree, filter, c);
      var j :| 0 <= j < |tree| && InSubtree(tree, c, j) && Search.Matches(filter, tree[j].path);
      ChildSubtree(tree, i, c, j);
    }
  }

  lemma {:induction false} SubtreeMatchFound(tree: Tree, filter: string, i: nat, j: nat)
    requires Structured(tree) && i < |tree| && j < |tree|
    requires InSubtree(tree, i, j) && Search.Matches(filter, tree[j].path)
    ensures NodeOrDescendantsMatch(tree, filter, i)
    decreases |tree| - i
  {
    if j != i {
      SubtreeViaChildren(tree, i, j);
      var c :| c in tree[i].children && InSubtree(tree, c, j);
      ChildLink(tree, i, c);
      SubtreeMatchFound(tree, filter, c, j);
    }
  }

  /** `is_visible`: with a filter set, the node or one below it must pass it, and the
      parent must be expanded and visible itself. So the root is visible exactly when the
      filter is empty or something in the tree passes it, and a visible node's parent is
      an expanded, visible node. */
  predicate IsVisible(tree: Tree, filter: string, i: nat): (r: bool)
    requires Structured(tree) && i < |tree|
    ensures r ==> filter == [] || NodeOrDescendantsMatch(tree, filter, i)
    ensures tree[i].parent.None? ==> (r <==> filter == [] || NodeOrDescendantsMatch(tree, filter, i))
    ensures r && tree[i].parent.Some? ==>
      var p := tree[i].parent.value;
      p < i && tree[p].expanded && IsVisible(tree, filter, p)
    decreases i
  {
    && (filter == [] || NodeOrDescendantsMatch(tree, filter, i))
    && match tree[i].parent
       case None => true
       case Some(p) => ParentLink(tree, i); tree[p].expanded && IsVisible(tree, filter, p)
  }

  /** A node is visible exactly when its subtree has a match (or no filter is set) and
      every proper ancestor is expanded. */
  lemma {:induction false} IsVisibleSpec(tree: Tree, filter: string, i: nat)
    requires Structured(tree) && i < |tree|
    ensures IsVisible(tree, filter, i) <==>
      && (filter == [] || exists j :: 0 <= j < |tree| && InSubtree(tree, i, j) && Search.Matches(filter, tree[j].path))
      && (forall a :: 0 <= a < |tree| && Above(tree, a, i) ==> tree[a].expanded)
    decreases i
  {
    NodeOrDescendantsMatchSpec(tree, filter, i);
    match tree[i].parent
    case None =>
      forall a | 0 <= a < |tree|
        ensures !Above(tree, a, i)
      {
      }
    case Some(p) =>
      ParentLink(tree, i);
      IsVisibleSpec(tree, filter, p);
      forall a | 0 <= a < |tree|
        ensures Above(tree, a, i) <==> a == p || Above(tree, a, p)
      {
        AboveParent(tree, a, i);
      }
      if filter != [] && NodeOrDescendantsMatch(tree, filter, i) {
        NodeOrDescendantsMatchSpec(tree, filter, p);
        var j :| 0 <= j < |tree| && InSubtree(tree, i, j) && Search.Matches(filter, tree[j].path);
        ChildSubtree(tree, p, i, j);
      }
  }

  /** The proper ancestors of a node are its parent and the proper ancestors of the
      parent. */
  lemma AboveParent(tree: Tree, a: nat, i: nat)
    requires i < |tree| && tree[i].parent.Some? && tree[i].parent.value < i
    ensures Above(tree, a, i) <==> a == tree[i].parent.value || Above(tree, a, tree[i].parent.value)
  {
    var p := tree[i].parent.value;
    if InSubtree(tree, a, p) {
      SubtreeOrder(tree, a, p);
    }
  }

  // ---------------------------------------------------------------------
  // Expansion

  /** `toggle_expand(index)`: a folder in range flips `expanded`; anything else is left
      alone. */
  function ExpandToggled(tree: Tree, index: nat): (t: Tree)
    ensures SameLinks(tree, t)
  {
    if index < |tree| && tree[index].isFolder then
      tree[index := tree[index].(expanded := !tree[index].expanded)]
    else tree
  }

  /** Toggling twice restores the tree, and toggling never touches the selection. */
  lemma ExpandToggledProperties(tree: Tree, index: nat)
    ensures ExpandToggled(ExpandToggled(tree, index), index) == tree
    ensures forall j :: 0 <= j < |tree| ==>
      ExpandToggled(tree, index)[j] == tree[j].(expanded := ExpandToggled(tree, index)[j].expanded)
    ensures forall j :: 0 <= j < |tree| && j != index ==> ExpandToggled(tree, index)[j] == tree[j]
    ensures TriState(tree) ==> TriState(ExpandToggled(tree, index))
  {
    var t := ExpandToggled(tree, index);
    if TriState(tree) {
      forall i | 0 <= i < |t|
        ensures TriStateAt(t, i)
      {
        assert TriStateAt(tree, i);
        assert AllChildrenSelected(t, i) == AllChildrenSelected(tree, i);
        assert AnyChildSelected(t, i) == AnyChildSelected(tree, i);
      }
    }
  }
}
