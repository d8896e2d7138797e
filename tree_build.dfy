/** Building the node tree from flat archive paths: the folder prefixes of every
    path, the map from a parent path to its entries, the order of each entry list
    (folders first, then by lower-cased name) and the step that attaches one node
    under its parent. The depth-first walk that lays the nodes out is a method of
    the application state. */
module TreeBuild {
  import opened Common
  import opened Text
  import opened SelectionTree

  const Sep: char := '\\'

  /** One entry of the children map: display name, full '\\'-separated path, folder or file. */
  datatype Entry = Entry(name: string, fullPath: string, isFolder: bool)

  /** Parent path to the entries directly below it. */
  type ChildrenMap = map<string, seq<Entry>>

  /** The path with every '/' turned into '\\'. */
  function Normalize(path: string): (r: string)
    ensures |r| == |path| && '/' !in r
    ensures forall i :: 0 <= i < |path| && path[i] != '/' ==> r[i] == path[i]
  {
    ReplaceRemoves(path, '/', Sep);
    Replace(path, '/', Sep)
  }

  // ---------------------------------------------------------------------
  // Parent path and name

  /** Every component but the last, joined again: the text before the last separator,
      or empty when there is none. */
  function ParentKey(s: string): (r: string)
    ensures s != [] ==> |r| < |s|
    ensures s == [] ==> r == []
  {
    match LastIndexIn(s, {Sep})
    case None => []
    case Some(k) => s[..k]
  }

  /** The last component: the text after the last separator. */
  function BaseName(s: string): (r: string)
    ensures Sep !in r
  {
    match LastIndexIn(s, {Sep})
    case None => s
    case Some(k) => s[k + 1..]
  }

  /** A path is its parent path, a separator and its name; a path without separator is
      its own name below the empty parent. */
  lemma PathRebuilt(s: string)
    ensures Sep in s ==> s == ParentKey(s) + [Sep] + BaseName(s)
    ensures Sep !in s ==> ParentKey(s) == [] && BaseName(s) == s
  {
    match LastIndexIn(s, {Sep})
    case None =>
    case Some(k) =>
      assert s == s[..k] + [s[k]] + s[k + 1..];
  }

  /** `join` of at least one piece. */
  function Join(parts: seq<string>, c: char): (r: string)
    requires |parts| >= 1
    ensures |parts| == 1 ==> r == parts[0]
  {
    if |parts| == 1 then parts[0]
    else Join(parts[..|parts| - 1], c) + [c] + parts[|parts| - 1]
  }

  /** Splitting on a character and joining with it gives the text back. */
  lemma {:induction false} JoinSplit(s: string, c: char)
    ensures Join(Split(s, c), c) == s
    decreases |s|
  {
    match LastIndexIn(s, {c})
    case None =>
    case Some(k) =>
      var left := Split(s[..k], c);
      assert Split(s, c) == left + [s[k + 1..]];
      assert (left + [s[k + 1..]])[..|left|] == left;
      JoinSplit(s[..k], c);
      assert s == s[..k] + [c] + s[k + 1..];
  }

  /** `ParentKey` and `BaseName` are the source's `parts[..len - 1].join("\\")` and
      `parts.last()` of `split('\\')`. */
  lemma ParentKeyIsJoin(s: string)
    ensures var parts := Split(s, Sep);
      && BaseName(s) == parts[|parts| - 1]
      && ParentKey(s) == (if |parts| > 1 then Join(parts[..|parts| - 1], Sep) else [])
  {
    match LastIndexIn(s, {Sep})
    case None =>
    case Some(k) =>
      var left := Split(s[..k], Sep);
      assert Split(s, Sep) == left + [s[k + 1..]];
      assert (left + [s[k + 1..]])[..|left|] == left;
      JoinSplit(s[..k], Sep);
  }

  // ---------------------------------------------------------------------
  // Folder prefixes

  /** Position `m` ends a folder prefix of `s`: a separator with text before it. */
  predicate FolderCut(s: string, m: int) {
    0 < m < |s| && s[m] == Sep
  }

  /** The folder prefixes as the source collects them: every separator position,
      including one at position 0, which yields the empty prefix. */
  predicate FolderCutAsWritten(s: string, m: int) {
    0 <= m < |s| && s[m] == Sep
  }

  /** `f` is a folder prefix of one of the first `n` paths. */
  ghost predicate FolderOf(paths: seq<string>, n: nat, f: string)
    requires n <= |paths|
  {
    exists k, m :: 0 <= k < n && FolderCut(Normalize(paths[k]), m) && f == Normalize(paths[k])[..m]
  }

  ghost predicate IsFolder(paths: seq<string>, f: string) {
    FolderOf(paths, |paths|, f)
  }

  ghost predicate IsFolderAsWritten(paths: seq<string>, f: string) {
    exists k, m :: 0 <= k < |paths| && FolderCutAsWritten(Normalize(paths[k]), m) && f == Normalize(paths[k])[..m]
  }

  /** The folder prefixes as the source writes them: the first `i + 1` components of a
      normalized path, joined again, for every component but the last. */
  ghost predicate JoinedFolder(paths: seq<string>, f: string) {
    exists k: nat, i: nat :: k < |paths| && i + 1 < |Split(Normalize(paths[k]), Sep)|
      && f == JoinedPrefix(Normalize(paths[k]), i)
  }

  /** `parts[..=i].join("\\")` for the components `parts` of `s`. */
  function JoinedPrefix(s: string, i: nat): string
    requires i + 1 < |Split(s, Sep)|
  {
    Join(Split(s, Sep)[..i + 1], Sep)
  }

  /** Joining the first `i + 1` components of `s` gives the text before a separator. */
  lemma {:induction false} JoinedPrefixIsCut(s: string, i: nat) returns (m: nat)
    requires i + 1 < |Split(s, Sep)|
    ensures FolderCutAsWritten(s, m) && JoinedPrefix(s, i) == s[..m]
    decreases |s|
  {
    match LastIndexIn(s, {Sep})
    case None =>
      assert false;
    case Some(k) =>
      var left := Split(s[..k], Sep);
      assert Split(s, Sep) == left + [s[k + 1..]];
      if i + 1 == |left| {
        assert Split(s, Sep)[..i + 1] == left;
        JoinSplit(s[..k], Sep);
        m := k;
      } else {
        assert Split(s, Sep)[..i + 1] == left[..i + 1];
        m := JoinedPrefixIsCut(s[..k], i);
        assert s[..k][..m] == s[..m];
      }
  }

  /** The text before any separator of `s` is the join of its first components. */
  lemma {:induction false} CutIsJoinedPrefix(s: string, m: nat) returns (i: nat)
    requires FolderCutAsWritten(s, m)
    ensures i + 1 < |Split(s, Sep)| && JoinedPrefix(s, i) == s[..m]
    decreases |s|
  {
    match LastIndexIn(s, {Sep})
    case None =>
      assert false;
    case Some(k) =>
      var left := Split(s[..k], Sep);
      assert Split(s, Sep) == left + [s[k + 1..]];
      if m == k {
        i := |left| - 1;
        assert Split(s, Sep)[..i + 1] == left;
        JoinSplit(s[..k], Sep);
      } else {
        assert m < k;
        i := CutIsJoinedPrefix(s[..k], m);
        assert Split(s, Sep)[..i + 1] == left[..i + 1];
        assert s[..k][..m] == s[..m];
      }
  }

  /** The joined components are exactly the texts before a separator, and the corrected
      folder prefixes are those that are not empty. */
  lemma FolderPrefixesJoined(paths: seq<string>, f: string)
    ensures JoinedFolder(paths, f) <==> IsFolderAsWritten(paths, f)
    ensures IsFolder(paths, f) <==> IsFolderAsWritten(paths, f) && f != []
  {
    if JoinedFolder(paths, f) {
      var k: nat, i: nat :| k < |paths| && i + 1 < |Split(Normalize(paths[k]), Sep)|
        && f == JoinedPrefix(Normalize(paths[k]), i);
      var m := JoinedPrefixIsCut(Normalize(paths[k]), i);
      assert IsFolderAsWritten(paths, f);
    }
    if IsFolderAsWritten(paths, f) {
      var k, m :| 0 <= k < |paths| && FolderCutAsWritten(Normalize(paths[k]), m) && f == Normalize(paths[k])[..m];
      var i := CutIsJoinedPrefix(Normalize(paths[k]), m);
      assert JoinedFolder(paths, f);
      if f != [] {
        assert FolderCut(Normalize(paths[k]), m);
      }
    }
    if IsFolder(paths, f) {
      FolderKeyGrows(paths, f);
      var k, m :| 0 <= k < |paths| && FolderCut(Normalize(paths[k]), m) && f == Normalize(paths[k])[..m];
      assert FolderCutAsWritten(Normalize(paths[k]), m);
    }
  }

  /** `f` is a folder prefix of `s` ending before position `j`. */
  ghost predicate CutBefore(s: string, j: nat, f: string) {
    exists m :: m < j && FolderCut(s, m) && f == s[..m]
  }

  /** A folder is never empty, and its parent path is strictly shorter: walking from a
      folder to its children always moves to a longer path. */
  lemma FolderKeyGrows(paths: seq<string>, f: string)
    requires IsFolder(paths, f)
    ensures f != [] && |ParentKey(f)| < |f|
    ensures exists k :: 0 <= k < |paths| && |f| < |paths[k]|
  {
    var k, m :| 0 <= k < |paths| && FolderCut(Normalize(paths[k]), m) && f == Normalize(paths[k])[..m];
  }

  /** The first loop of `build_tree_from_paths`: the folder prefixes of every path. */
  method CollectFolders(paths: seq<string>) returns (folders: set<string>)
    ensures forall f :: f in folders <==> IsFolder(paths, f)
  {
    folders := {};
    var k := 0;
    while k < |paths|
      invariant k <= |paths|
      invariant forall f :: f in folders <==> FolderOf(paths, k, f)
    {
      var path := Normalize(paths[k]);
      var m := 0;
      while m < |path|
        invariant m <= |path|
        invariant forall f :: f in folders <==> FolderOf(paths, k, f) || CutBefore(path, m, f)
      {
        if m > 0 && path[m] == Sep {
          folders := folders + {path[..m]};
        }
        m := m + 1;
      }
      forall f
        ensures f in folders <==> FolderOf(paths, k + 1, f)
      {
        if CutBefore(path, m, f) {
          var m' :| m' < m && FolderCut(path, m') && f == path[..m'];
          assert FolderOf(paths, k + 1, f);
        }
        if FolderOf(paths, k + 1, f) && !FolderOf(paths, k, f) {
          var k', m' :| 0 <= k' < k + 1 && FolderCut(Normalize(paths[k']), m') && f == Normalize(paths[k'])[..m'];
          assert k' == k;
          assert CutBefore(path, m, f);
        }
      }
      k := k + 1;
    }
  }

  /** A path that starts with a separator: as written, its empty first component becomes a
      folder whose own parent path is the root's empty path, so the walk that starts at the
      root reaches the root's path again. The corrected prefixes leave it out. */
  lemma LeadingSeparatorAsWritten()
    ensures IsFolderAsWritten(["/a"], []) && ParentKey([]) == []
    ensures FolderEntry([]) in Direct(FolderEntries([[]]), [])
    ensures !IsFolder(["/a"], [])
  {
    var paths := ["/a"];
    assert Normalize(paths[0])[0] == Sep;
    assert FolderCutAsWritten(Normalize(paths[0]), 0) && [] == Normalize(paths[0])[..0];
    assert FolderEntries([[]]) == [FolderEntry([])];
  }

  // ---------------------------------------------------------------------
  // The children map

  function FolderEntry(f: string): Entry {
    Entry(BaseName(f), f, true)
  }

  function FileEntry(path: string): Entry {
    var n := Normalize(path);
    Entry(BaseName(n), n, false)
  }

  function FolderEntries(folders: seq<string>): (r: seq<Entry>)
    ensures |r| == |folders|
    ensures forall i :: 0 <= i < |folders| ==> r[i] == FolderEntry(folders[i])
  {
    seq(|folders|, i requires 0 <= i < |folders| => FolderEntry(folders[i]))
  }

  function FileEntries(paths: seq<string>): (r: seq<Entry>)
    ensures |r| == |paths|
    ensures forall i :: 0 <= i < |paths| ==> r[i] == FileEntry(paths[i])
  {
    seq(|paths|, i requires 0 <= i < |paths| => FileEntry(paths[i]))
  }

  /** The entries of `es` whose parent path is `key`, in order. */
  function Direct(es: seq<Entry>, key: string): (r: seq<Entry>)
    ensures forall e :: e in r <==> e in es && ParentKey(e.fullPath) == key
  {
    if es == [] then []
    else
      assert es == es[..|es| - 1] + [es[|es| - 1]];
      Direct(es[..|es| - 1], key) + (if ParentKey(es[|es| - 1].fullPath) == key then [es[|es| - 1]] else [])
  }

  lemma {:induction false} DirectAppend(a: seq<Entry>, b: seq<Entry>, key: string)
    ensures Direct(a + b, key) == Direct(a, key) + Direct(b, key)
    decreases |b|
  {
    if b != [] {
      assert (a + b)[..|a + b| - 1] == a + b[..|b| - 1];
      DirectAppend(a, b[..|b| - 1], key);
    } else {
      assert a + b == a;
    }
  }

  /** The map that appends each entry of `es`, in order, under its parent path. */
  function Grouped(es: seq<Entry>): ChildrenMap {
    if es == [] then map[]
    else
      var e := es[|es| - 1];
      var prev := Grouped(es[..|es| - 1]);
      prev[ParentKey(e.fullPath) := Get(prev, ParentKey(e.fullPath)) + [e]]
  }

  /** Grouping keeps, under each parent path, exactly the entries with that parent path,
      in their original order. */
  lemma {:induction false} GroupedIsDirect(es: seq<Entry>, key: string)
    ensures Get(Grouped(es), key) == Direct(es, key)
  {
    if es != [] {
      GroupedIsDirect(es[..|es| - 1], key);
    }
  }

  /** The entry list under `key`, empty when the key is absent. */
  function Get(cm: ChildrenMap, key: string): seq<Entry> {
    if key in cm then cm[key] else []
  }

  /** Every folder entry lies deeper than its key and no deeper than `bound`. */
  predicate KeysGrow(cm: ChildrenMap, bound: nat) {
    forall key, e :: key in cm && e in cm[key] && e.isFolder ==> |key| < |e.fullPath| <= bound
  }

  /** The second and third loops of `build_tree_from_paths`: each folder, in the order the
      set yields them, appended under its parent path; then each path, normalized, appended
      under its parent path. `order` is that iteration order. */
  method GroupChildren(folders: set<string>, paths: seq<string>)
    returns (cm: ChildrenMap, ghost order: seq<string>)
    ensures |order| == |folders| && (forall f :: f in order <==> f in folders)
    ensures forall i, j :: 0 <= i < j < |order| ==> order[i] != order[j]
    ensures cm == Grouped(FolderEntries(order) + FileEntries(paths))
  {
    cm := map[];
    order := [];
    var rest := folders;
    while rest != {}
      invariant rest <= folders && |order| + |rest| == |folders|
      invariant forall f :: f in order <==> f in folders - rest
      invariant forall i, j :: 0 <= i < j < |order| ==> order[i] != order[j]
      invariant cm == Grouped(FolderEntries(order))
      decreases |rest|
    {
      var f :| f in rest;
      assert f !in order;
      cm := cm[ParentKey(f) := Get(cm, ParentKey(f)) + [FolderEntry(f)]];
      assert FolderEntries(order + [f]) == FolderEntries(order) + [FolderEntry(f)];
      order := order + [f];
      rest := rest - {f};
    }
    ghost var es := FolderEntries(order);
    var k := 0;
    assert es + FileEntries(paths[..0]) == es;
    while k < |paths|
      invariant k <= |paths|
      invariant cm == Grouped(es + FileEntries(paths[..k]))
    {
      var path := Normalize(paths[k]);
      FileStep(es, paths, k);
      cm := cm[ParentKey(path) := Get(cm, ParentKey(path)) + [Entry(BaseName(path), path, false)]];
      k := k + 1;
    }
    assert paths[..k] == paths;
  }

  lemma FileStep(es: seq<Entry>, paths: seq<string>, k: nat)
    requires k < |paths|
    ensures var x := Grouped(es + FileEntries(paths[..k])); var e := FileEntry(paths[k]);
      Grouped(es + FileEntries(paths[..k + 1])) == x[ParentKey(e.fullPath) := Get(x, ParentKey(e.fullPath)) + [e]]
  {
    var x := es + FileEntries(paths[..k]);
    var e := FileEntry(paths[k]);
    assert FileEntries(paths[..k + 1]) == FileEntries(paths[..k]) + [e];
    assert es + FileEntries(paths[..k + 1]) == x + [e];
    assert (x + [e])[..|x|] == x;
  }

  // ---------------------------------------------------------------------
  // Order within an entry list

  /** Lexicographic order on code points, a prefix first. */
  predicate LexLe(a: string, b: string) {
    a == [] || (b != [] && (a[0] < b[0] || (a[0] == b[0] && LexLe(a[1..], b[1..]))))
  }

  lemma {:induction false} LexTotal(a: string, b: string)
    ensures LexLe(a, b) || LexLe(b, a)
  {
    if a != [] && b != [] && a[0] == b[0] {
      LexTotal(a[1..], b[1..]);
    }
  }

  lemma {:induction false} LexAntisymmetric(a: string, b: string)
    requires LexLe(a, b) && LexLe(b, a)
    ensures a == b
  {
    if a != [] {
      LexAntisymmetric(a[1..], b[1..]);
      assert a == [a[0]] + a[1..] && b == [b[0]] + b[1..];
    }
  }

  /** The comparator of the sort: a folder before a file, otherwise by lower-cased name. */
  predicate Before(a: Entry, b: Entry) {
    if a.isFolder != b.isFolder then a.isFolder else LexLe(Lower(a.name), Lower(b.name))
  }

  lemma BeforeTotal(a: Entry, b: Entry)
    ensures Before(a, b) || Before(b, a)
  {
    LexTotal(Lower(a.name), Lower(b.name));
  }

  predicate Ordered(es: seq<Entry>) {
    forall i :: 0 < i < |es| ==> Before(es[i - 1], es[i])
  }

  function Insert(e: Entry, es: seq<Entry>): (r: seq<Entry>)
    requires Ordered(es)
    ensures Ordered(r) && multiset(r) == multiset(es) + multiset{e}
    ensures r[0] == e || (es != [] && r[0] == es[0])
  {
    if es == [] || Before(e, es[0]) then [e] + es
    else
      BeforeTotal(e, es[0]);
      var tail := Insert(e, es[1..]);
      assert es == [es[0]] + es[1..];
      [es[0]] + tail
  }

  /** `sort_by` with the folder-first, name-order comparator; ties are left in an
      unspecified order. */
  function SortEntries(es: seq<Entry>): (r: seq<Entry>)
    ensures Ordered(r) && multiset(r) == multiset(es)
  {
    if es == [] then []
    else
      assert es == [es[0]] + es[1..];
      Insert(es[0], SortEntries(es[1..]))
  }

  /** The fourth loop of `build_tree_from_paths`: every entry list sorted in place. */
  method SortChildren(cm: ChildrenMap) returns (sorted: ChildrenMap)
    ensures sorted.Keys == cm.Keys
    ensures forall key :: key in cm ==> Ordered(sorted[key]) && multiset(sorted[key]) == multiset(cm[key])
  {
    sorted := cm;
    var rest := cm.Keys;
    while rest != {}
      invariant rest <= cm.Keys && sorted.Keys == cm.Keys
      invariant forall key :: key in cm && key !in rest ==> Ordered(sorted[key]) && multiset(sorted[key]) == multiset(cm[key])
      invariant forall key :: key in rest ==> sorted[key] == cm[key]
      decreases |rest|
    {
      var key :| key in rest;
      sorted := sorted[key := SortEntries(cm[key])];
      rest := rest - {key};
    }
  }

  // ---------------------------------------------------------------------
  // Attaching nodes

  /** The entry a node was made from. */
  function EntryOf(n: Node): Entry {
    Entry(n.name, n.path, n.isFolder)
  }

  /** `idxs` names nodes made from `es`, one for one and in order. */
  predicate ListsEntries(tree: Tree, idxs: seq<nat>, es: seq<Entry>) {
    |idxs| == |es| && forall q :: 0 <= q < |es| ==> idxs[q] < |tree| && EntryOf(tree[idxs[q]]) == es[q]
  }

  /** The node for entry `e` under `parent`: expanded, selected, not partial, no children yet,
      depth the number of components of its path. */
  function NewNode(e: Entry, parent: nat): (n: Node)
    ensures EntryOf(n) == e && n.children == [] && n.parent == Some(parent)
    ensures n.expanded && n.selected && !n.partiallySelected
    ensures n.depth == |Split(e.fullPath, Sep)|
  {
    Node(e.fullPath, e.name, |Split(e.fullPath, Sep)|, e.isFolder, true, true, false, [], Some(parent))
  }

  /** The tree after pushing `n` and listing it among `parent`'s children. */
  function Attach(tree: Tree, parent: nat, n: Node): (t: Tree)
    requires parent < |tree|
    ensures |t| == |tree| + 1 && t[|tree|] == n
    ensures forall i :: 0 <= i < |tree| && i != parent ==> t[i] == tree[i]
    ensures t[parent] == tree[parent].(children := tree[parent].children + [|tree|])
  {
    var t := tree + [n];
    t[parent := t[parent].(children := t[parent].children + [|tree|])]
  }

  /** Attaching a childless node below an existing one keeps the links consistent. */
  lemma AttachStructured(tree: Tree, parent: nat, n: Node)
    requires Structured(tree) && parent < |tree|
    requires n.parent == Some(parent) && n.children == []
    ensures Structured(Attach(tree, parent, n))
  {
    var t := Attach(tree, parent, n);
    forall i | 0 <= i < |t|
      ensures ParentLinked(t, i) && ChildrenLinked(t, i)
    {
      if i < |tree| {
        assert ParentLinked(tree, i) && ChildrenLinked(tree, i);
        if tree[i].parent.Some? {
          assert tree[i].parent.value < i;
          assert i in t[tree[i].parent.value].children;
        }
        forall c | c in t[i].children
          ensures i < c < |t| && t[c].parent == Some(i)
        {
          if c != |tree| {
            assert c in tree[i].children;
          }
        }
      }
    }
  }

  /** The entries the nodes of `ns` were made from, in order. */
  function Labels(ns: seq<Node>): (r: seq<Entry>)
    ensures |r| == |ns| && forall i :: 0 <= i < |ns| ==> r[i] == EntryOf(ns[i])
  {
    seq(|ns|, i requires 0 <= i < |ns| => EntryOf(ns[i]))
  }

  /** A node laid out by the walk: fresh flags, a parent, a depth that counts the
      components of its path, and, for a folder, children made one for one from the
      entries listed under its path; a file has no children. */
  predicate Laid(tree: Tree, cm: ChildrenMap, i: nat)
    requires i < |tree|
  {
    var n := tree[i];
    && n.expanded && n.selected && !n.partiallySelected && n.parent.Some?
    && n.depth == |Split(n.path, Sep)|
    && (if n.isFolder then ListsEntries(tree, n.children, Get(cm, n.path)) else n.children == [])
  }

  /** Growing the tree and changing only children lists keeps a node laid out. */
  lemma LaidFrame(t: Tree, u: Tree, cm: ChildrenMap, i: nat)
    requires i < |t| <= |u| && Laid(t, cm, i) && u[i] == t[i]
    requires forall j :: 0 <= j < |t| ==> EntryOf(u[j]) == EntryOf(t[j])
    ensures Laid(u, cm, i)
  {
    if t[i].isFolder {
      var es := Get(cm, t[i].path);
      forall q | 0 <= q < |es|
        ensures t[i].children[q] < |u| && EntryOf(u[t[i].children[q]]) == es[q]
      {
        assert t[i].children[q] < |t|;
      }
    }
  }

  /** Every entry the walk below a key produces: each entry of the list, and for a folder
      entry, again everything below its own path. */
  ghost function Gathered(cm: ChildrenMap, es: seq<Entry>, lo: nat, bound: nat): multiset<Entry>
    requires KeysGrow(cm, bound)
    requires forall e :: e in es && e.isFolder ==> lo < |e.fullPath| <= bound
    decreases bound - lo, |es|
  {
    if es == [] then multiset{}
    else
      var e := es[|es| - 1];
      assert forall x :: x in es[..|es| - 1] ==> x in es;
      Gathered(cm, es[..|es| - 1], lo, bound) + multiset{e}
        + (if e.isFolder then Gathered(cm, Get(cm, e.fullPath), |e.fullPath|, bound) else multiset{})
  }

  /** The longest path. */
  function MaxLen(paths: seq<string>): (r: nat)
    ensures forall k :: 0 <= k < |paths| ==> |paths[k]| <= r
  {
    if paths == [] then 0
    else
      var rest := MaxLen(paths[1..]);
      assert forall k :: 1 <= k < |paths| ==> paths[k] == paths[1..][k - 1];
      if |paths[0]| > rest then |paths[0]| else rest
  }

  /** After grouping and sorting, every folder entry lies deeper than its key and no
      deeper than the longest path, so the walk terminates. */
  lemma GroupedKeysGrow(paths: seq<string>, folders: set<string>, order: seq<string>,
                        cm: ChildrenMap, sorted: ChildrenMap)
    requires forall f :: f in folders <==> IsFolder(paths, f)
    requires forall f :: f in order <==> f in folders
    requires cm == Grouped(FolderEntries(order) + FileEntries(paths))
    requires sorted.Keys == cm.Keys
    requires forall key :: key in cm ==> multiset(sorted[key]) == multiset(cm[key])
    ensures KeysGrow(sorted, MaxLen(paths))
  {
    var all := FolderEntries(order) + FileEntries(paths);
    forall key, e | key in sorted && e in sorted[key] && e.isFolder
      ensures |key| < |e.fullPath| <= MaxLen(paths)
    {
      assert e in multiset(sorted[key]);
      assert e in cm[key];
      GroupedIsDirect(all, key);
      FolderEntryGrows(paths, folders, order, e);
    }
  }

  /** A folder entry among the entries of the build is deeper than its parent path and no
      longer than the longest path. */
  lemma FolderEntryGrows(paths: seq<string>, folders: set<string>, order: seq<string>, e: Entry)
    requires forall f :: f in folders <==> IsFolder(paths, f)
    requires forall f :: f in order <==> f in folders
    requires e in FolderEntries(order) + FileEntries(paths) && e.isFolder
    ensures |ParentKey(e.fullPath)| < |e.fullPath| <= MaxLen(paths)
  {
    var all := FolderEntries(order) + FileEntries(paths);
    var i :| 0 <= i < |all| && all[i] == e;
    assert i < |order|;
    FolderKeyGrows(paths, order[i]);
  }

  /** The children of node `i` come in the order of the sort: folders first, then by
      lower-cased name. */
  predicate OrderedChildren(tree: Tree, i: nat)
    requires i < |tree|
  {
    var cs := tree[i].children;
    forall q :: 0 < q < |cs| && cs[q - 1] < |tree| && cs[q] < |tree| ==>
      Before(EntryOf(tree[cs[q - 1]]), EntryOf(tree[cs[q]]))
  }

  lemma ListedOrdered(tree: Tree, i: nat, es: seq<Entry>)
    requires i < |tree| && ListsEntries(tree, tree[i].children, es) && Ordered(es)
    ensures OrderedChildren(tree, i)
  {
  }

  /** Once every node after the root is laid out over sorted entry lists, and the root is
      selected and lists the root entries, every node after the root is expanded, selected,
      not partial and as deep as its path has components; the tri-state rule holds; and
      every node's children are in sorted order. */
  lemma LaidOrdered(tree: Tree, cm: ChildrenMap)
    requires Structured(tree) && |tree| >= 1 && tree[0].selected && !tree[0].partiallySelected
    requires ListsEntries(tree, tree[0].children, Get(cm, []))
    requires AllLaid(tree, cm, 1, |tree|)
    requires forall key :: key in cm ==> Ordered(cm[key])
    ensures forall i :: 1 <= i < |tree| ==>
      && tree[i].expanded && tree[i].selected && !tree[i].partiallySelected
      && tree[i].parent.Some?
      && tree[i].depth == |Split(tree[i].path, Sep)|
    ensures TriState(tree)
    ensures forall i :: 0 <= i < |tree| ==> OrderedChildren(tree, i)
  {
    AllLaidMeans(tree, cm, 1, |tree|);
    forall i | 1 <= i < |tree|
      ensures tree[i].expanded && tree[i].parent.Some? && tree[i].depth == |Split(tree[i].path, Sep)|
    {
      assert Laid(tree, cm, i);
    }
    forall i | 0 <= i < |tree|
      ensures OrderedChildren(tree, i)
      ensures tree[i].selected && !tree[i].partiallySelected
    {
      if i == 0 {
        ListedOrdered(tree, 0, Get(cm, []));
      } else {
        assert Laid(tree, cm, i);
        if tree[i].isFolder {
          ListedOrdered(tree, i, Get(cm, tree[i].path));
        }
      }
    }
    AllSelectedTriState(tree);
  }

  /** With every node selected and none partial, the tri-state rule holds. */
  lemma AllSelectedTriState(tree: Tree)
    requires Structured(tree)
    requires forall i :: 0 <= i < |tree| ==> tree[i].selected && !tree[i].partiallySelected
    ensures TriState(tree)
  {
    assert MarkAll(tree, true) == tree;
    MarkAllTriState(tree, true);
  }

  /** `after` grows `attached` and changes at most the children of node `idx`. */
  predicate GrowsAt(attached: Tree, after: Tree, idx: nat) {
    && idx < |attached| <= |after|
    && (forall i :: 0 <= i < |attached| && i != idx ==> after[i] == attached[i])
    && after[idx] == attached[idx].(children := after[idx].children)
  }

  /** Attaching a node and then growing below it keeps every earlier node's entry and
      lists the new node after the parent's earlier children. */
  lemma AttachGrows(before: Tree, attached: Tree, after: Tree, p: nat, e: Entry)
    requires p < |before| && attached == Attach(before, p, NewNode(e, p))
    requires GrowsAt(attached, after, |before|)
    ensures forall j :: 0 <= j < |before| ==> EntryOf(after[j]) == EntryOf(before[j])
    ensures EntryOf(after[|before|]) == e
    ensures after[p] == before[p].(children := before[p].children + [|before|])
    ensures forall i :: 0 <= i < |before| && i != p ==> after[i] == before[i]
  {
  }

  lemma ListsEntriesStep(before: Tree, after: Tree, p: nat, c0: seq<nat>, children: seq<Entry>, k: nat)
    requires k < |children| && p < |before| < |after|
    requires |c0| <= |before[p].children| && before[p].children[..|c0|] == c0
    requires ListsEntries(before, before[p].children[|c0|..], children[..k])
    requires forall j :: 0 <= j < |before| ==> EntryOf(after[j]) == EntryOf(before[j])
    requires EntryOf(after[|before|]) == children[k]
    requires after[p].children == before[p].children + [|before|]
    ensures |c0| <= |after[p].children| && after[p].children[..|c0|] == c0
    ensures ListsEntries(after, after[p].children[|c0|..], children[..k + 1])
  {
    assert after[p].children[|c0|..] == before[p].children[|c0|..] + [|before|];
    assert after[p].children[..|c0|] == before[p].children[..|c0|];
  }

  /** Nodes `lo` to `hi` are laid out; recursive so that it unfolds only on demand. */
  ghost predicate AllLaid(tree: Tree, cm: ChildrenMap, lo: nat, hi: nat)
    requires hi <= |tree|
    decreases hi
  {
    hi <= lo || (AllLaid(tree, cm, lo, hi - 1) && Laid(tree, cm, hi - 1))
  }

  lemma {:induction false} AllLaidMeans(tree: Tree, cm: ChildrenMap, lo: nat, hi: nat)
    requires hi <= |tree|
    ensures AllLaid(tree, cm, lo, hi) <==> forall i :: lo <= i < hi ==> Laid(tree, cm, i)
    decreases hi
  {
    if hi > lo {
      AllLaidMeans(tree, cm, lo, hi - 1);
    }
  }

  lemma LaidStep(before: Tree, after: Tree, cm: ChildrenMap, n0: nat, e: Entry)
    requires n0 <= |before| < |after|
    requires AllLaid(before, cm, n0, |before|)
    requires forall i :: n0 <= i < |before| ==> after[i] == before[i]
    requires forall j :: 0 <= j < |before| ==> EntryOf(after[j]) == EntryOf(before[j])
    requires AllLaid(after, cm, |before| + 1, |after|)
    requires var n := after[|before|];
      && n.expanded && n.selected && !n.partiallySelected && n.parent.Some?
      && n.depth == |Split(n.path, Sep)| && EntryOf(n) == e
    requires e.isFolder ==> ListsEntries(after, after[|before|].children, Get(cm, e.fullPath))
    requires !e.isFolder ==> after[|before|].children == []
    ensures AllLaid(after, cm, n0, |after|)
  {
    AllLaidMeans(before, cm, n0, |before|);
    AllLaidMeans(after, cm, |before| + 1, |after|);
    forall i | n0 <= i < |before|
      ensures Laid(after, cm, i)
    {
      LaidFrame(before, after, cm, i);
    }
    assert Laid(after, cm, |before|);
    AllLaidMeans(after, cm, n0, |after|);
  }

  lemma GatheredStep(cm: ChildrenMap, children: seq<Entry>, k: nat, lo: nat, bound: nat)
    requires KeysGrow(cm, bound) && (forall e :: e in children && e.isFolder ==> lo < |e.fullPath| <= bound)
    requires k < |children|
    ensures forall e :: e in children[..k] ==> e in children
    ensures forall e :: e in children[..k + 1] ==> e in children
    ensures Gathered(cm, children[..k + 1], lo, bound) == Gathered(cm, children[..k], lo, bound) + multiset{children[k]}
      + if children[k].isFolder then Gathered(cm, Get(cm, children[k].fullPath), |children[k].fullPath|, bound)
        else multiset{}
  {
    assert children[..k + 1][..k] == children[..k];
  }

  lemma LabelsStep(before: Tree, after: Tree, cm: ChildrenMap, n0: nat, children: seq<Entry>, k: nat,
                   lo: nat, bound: nat)
    requires KeysGrow(cm, bound) && (forall e :: e in children && e.isFolder ==> lo < |e.fullPath| <= bound)
    requires k < |children| && n0 <= |before| < |after|
    requires forall j :: 0 <= j < |before| ==> EntryOf(after[j]) == EntryOf(before[j])
    requires EntryOf(after[|before|]) == children[k]
    requires multiset(Labels(before[n0..])) == Gathered(cm, children[..k], lo, bound)
    requires multiset(Labels(after[|before| + 1..])) ==
      if children[k].isFolder then Gathered(cm, Get(cm, children[k].fullPath), |children[k].fullPath|, bound)
      else multiset{}
    ensures multiset(Labels(after[n0..])) == Gathered(cm, children[..k + 1], lo, bound)
  {
    GatheredStep(cm, children, k, lo, bound);
    LabelsSplit(before, after, n0);
  }

  lemma LabelsSplit(before: Tree, after: Tree, n0: nat)
    requires n0 <= |before| < |after|
    requires forall j :: 0 <= j < |before| ==> EntryOf(after[j]) == EntryOf(before[j])
    ensures Labels(after[n0..]) == Labels(before[n0..]) + [EntryOf(after[|before|])] + Labels(after[|before| + 1..])
  {
  }

  /** What the walk below `path` has done to `t0` so far, for the first `k` entries of
      `children`: only node `p` changed among the old nodes, and only by appending children;
      those new children are made from the entries one for one; the new nodes are laid out;
      and their entries are everything the walk below those entries gathers. */
  ghost predicate WalkDone(t0: Tree, tree: Tree, p: nat, children: seq<Entry>, k: nat,
                           cm: ChildrenMap, lo: nat, bound: nat)
  {
    && KeysGrow(cm, bound) && (forall e :: e in children && e.isFolder ==> lo < |e.fullPath| <= bound)
    && k <= |children| && p < |t0| <= |tree|
    && (forall i :: 0 <= i < |t0| && i != p ==> tree[i] == t0[i])
    && tree[p] == t0[p].(children := tree[p].children)
    && |t0[p].children| <= |tree[p].children| && tree[p].children[..|t0[p].children|] == t0[p].children
    && ListsEntries(tree, tree[p].children[|t0[p].children|..], children[..k])
    && AllLaid(tree, cm, |t0|, |tree|)
    && multiset(Labels(tree[|t0|..])) == Gathered(cm, children[..k], lo, bound)
  }

  /** The walk below a fresh, childless node: its children are made from all the entries,
      and the nodes after it are everything the walk gathers. */
  lemma WalkedBelow(attached: Tree, after: Tree, idx: nat, es: seq<Entry>, cm: ChildrenMap, lo: nat, bound: nat)
    requires |attached| == idx + 1 && attached[idx].children == []
    requires WalkDone(attached, after, idx, es, |es|, cm, lo, bound)
    ensures ListsEntries(after, after[idx].children, es)
    ensures multiset(Labels(after[idx + 1..])) == Gathered(cm, es, lo, bound)
    ensures AllLaid(after, cm, idx + 1, |after|)
  {
    assert |attached| == idx + 1 && |attached[idx].children| == 0;
    assert es[..|es|] == es;
    assert after[idx].children[0..] == after[idx].children;
    assert after[|attached|..] == after[idx + 1..];
  }

  /** One round of the walk's loop, before its effect is known: node `|before|` made from
      `children[k]` and attached below `p`, then, for a folder, the walk below it. */
  ghost predicate StepTaken(t0: Tree, before: Tree, attached: Tree, after: Tree, p: nat,
                            children: seq<Entry>, k: nat, cm: ChildrenMap, lo: nat, bound: nat)
  {
    && WalkDone(t0, before, p, children, k, cm, lo, bound) && k < |children|
    && attached == Attach(before, p, NewNode(children[k], p))
    && (children[k].isFolder ==>
         WalkDone(attached, after, |before|, Get(cm, children[k].fullPath), |Get(cm, children[k].fullPath)|,
                  cm, |children[k].fullPath|, bound))
    && (!children[k].isFolder ==> after == attached)
  }

  lemma StepGrows(t0: Tree, before: Tree, attached: Tree, after: Tree, p: nat,
                  children: seq<Entry>, k: nat, cm: ChildrenMap, lo: nat, bound: nat)
    requires StepTaken(t0, before, attached, after, p, children, k, cm, lo, bound)
    ensures GrowsAt(attached, after, |before|)
    ensures |t0| <= |before| && p < |t0|
    ensures forall i :: 0 <= i < |t0| && i != p ==> after[i] == t0[i]
    ensures forall i :: |t0| <= i < |before| ==> after[i] == before[i]
    ensures forall j :: 0 <= j < |before| ==> EntryOf(after[j]) == EntryOf(before[j])
    ensures EntryOf(after[|before|]) == children[k]
    ensures after[p] == before[p].(children := before[p].children + [|before|])
  {
    var idx := |before|;
    if !children[k].isFolder {
      assert after[idx] == attached[idx].(children := after[idx].children);
    }
    AttachGrows(before, attached, after, p, children[k]);
  }

  lemma StepLists(t0: Tree, before: Tree, attached: Tree, after: Tree, p: nat,
                  children: seq<Entry>, k: nat, cm: ChildrenMap, lo: nat, bound: nat)
    requires StepTaken(t0, before, attached, after, p, children, k, cm, lo, bound)
    ensures p < |t0| <= |after|
    ensures after[p] == t0[p].(children := after[p].children)
    ensures |t0[p].children| <= |after[p].children| && after[p].children[..|t0[p].children|] == t0[p].children
    ensures ListsEntries(after, after[p].children[|t0[p].children|..], children[..k + 1])
  {
    StepGrows(t0, before, attached, after, p, children, k, cm, lo, bound);
    ListsEntriesStep(before, after, p, t0[p].children, children, k);
  }

  /** What the walk below a folder's node left behind, or nothing for a file. */
  ghost predicate BelowDone(attached: Tree, after: Tree, idx: nat, entry: Entry, cm: ChildrenMap, bound: nat)
    requires idx < |after| && KeysGrow(cm, bound)
  {
    if entry.isFolder then
      && ListsEntries(after, after[idx].children, Get(cm, entry.fullPath))
      && multiset(Labels(after[idx + 1..])) == Gathered(cm, Get(cm, entry.fullPath), |entry.fullPath|, bound)
      && AllLaid(after, cm, idx + 1, |after|)
    else
      after == attached
  }

  lemma StepBelow(attached: Tree, after: Tree, idx: nat, entry: Entry, cm: ChildrenMap, bound: nat)
    requires |attached| == idx + 1 && attached[idx].children == [] && KeysGrow(cm, bound)
    requires entry.isFolder ==>
      WalkDone(attached, after, idx, Get(cm, entry.fullPath), |Get(cm, entry.fullPath)|,
               cm, |entry.fullPath|, bound)
    requires !entry.isFolder ==> after == attached
    ensures idx < |after| && BelowDone(attached, after, idx, entry, cm, bound)
  {
    if entry.isFolder {
      WalkedBelow(attached, after, idx, Get(cm, entry.fullPath), cm, |entry.fullPath|, bound);
    }
  }

  lemma StepLaid(before: Tree, attached: Tree, after: Tree, p: nat, n0: nat, entry: Entry,
                 cm: ChildrenMap, bound: nat)
    requires p < n0 <= |before| && AllLaid(before, cm, n0, |before|) && KeysGrow(cm, bound)
    requires attached == Attach(before, p, NewNode(entry, p)) && GrowsAt(attached, after, |before|)
    requires BelowDone(attached, after, |before|, entry, cm, bound)
    ensures AllLaid(after, cm, n0, |after|)
  {
    var idx := |before|;
    AttachGrows(before, attached, after, p, entry);
    if !entry.isFolder {
      assert |after| == idx + 1;
      assert AllLaid(after, cm, idx + 1, |after|);
    }
    assert after[idx] == NewNode(entry, p).(children := after[idx].children);
    LaidStep(before, after, cm, n0, entry);
  }

  lemma StepLabels(before: Tree, attached: Tree, after: Tree, p: nat, n0: nat,
                   children: seq<Entry>, k: nat, cm: ChildrenMap, lo: nat, bound: nat)
    requires KeysGrow(cm, bound) && (forall e :: e in children && e.isFolder ==> lo < |e.fullPath| <= bound)
    requires k < |children| && p < n0 <= |before|
    requires multiset(Labels(before[n0..])) == Gathered(cm, children[..k], lo, bound)
    requires attached == Attach(before, p, NewNode(children[k], p)) && GrowsAt(attached, after, |before|)
    requires BelowDone(attached, after, |before|, children[k], cm, bound)
    ensures multiset(Labels(after[n0..])) == Gathered(cm, children[..k + 1], lo, bound)
  {
    var idx := |before|;
    AttachGrows(before, attached, after, p, children[k]);
    if !children[k].isFolder {
      assert after[idx + 1..] == [];
    }
    LabelsStep(before, after, cm, n0, children, k, lo, bound);
  }

  /** One round of the walk's loop: node `idx` made from `children[k]` and attached below
      `p`, then, for a folder, the walk below it. */
  lemma WalkStep(t0: Tree, before: Tree, attached: Tree, after: Tree, p: nat,
                 children: seq<Entry>, k: nat, cm: ChildrenMap, lo: nat, bound: nat)
    requires WalkDone(t0, before, p, children, k, cm, lo, bound) && k < |children|
    requires attached == Attach(before, p, NewNode(children[k], p))
    requires children[k].isFolder ==>
      WalkDone(attached, after, |before|, Get(cm, children[k].fullPath), |Get(cm, children[k].fullPath)|,
               cm, |children[k].fullPath|, bound)
    requires !children[k].isFolder ==> after == attached
    ensures WalkDone(t0, after, p, children, k + 1, cm, lo, bound)
  {
    assert StepTaken(t0, before, attached, after, p, children, k, cm, lo, bound);
    StepGrows(t0, before, attached, after, p, children, k, cm, lo, bound);
    StepLists(t0, before, attached, after, p, children, k, cm, lo, bound);
    StepBelow(attached, after, |before|, children[k], cm, bound);
    StepLaid(before, attached, after, p, |t0|, children[k], cm, bound);
    StepLabels(before, attached, after, p, |t0|, children, k, cm, lo, bound);
  }
}
