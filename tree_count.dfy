/** What the build lays out, counted: below the root, one node per folder prefix and
    one per input path, so `total_count` of a freshly built tree is the number of
    paths. The walk reaches every entry lying below the root's empty path exactly as
    often as it occurs among the grouped entries. */
module TreeCount {
  import opened Common
  import opened Text
  import opened SelectionTree
  import opened TreeBuild

  // ---------------------------------------------------------------------
  // Ancestors

  /** `key` is the parent path of `p`, or of its parent path, and so on. */
  ghost predicate Reaches(p: string, key: string)
    decreases |p|
  {
    ParentKey(p) == key || (p != [] && Reaches(ParentKey(p), key))
  }

  /** Every path lies below the root's empty path. */
  lemma {:induction false} ReachesRoot(p: string)
    ensures Reaches(p, [])
    decreases |p|
  {
    if p != [] && ParentKey(p) != [] {
      ReachesRoot(ParentKey(p));
    }
  }

  /** A non-empty ancestor is strictly shorter. */
  lemma {:induction false} ReachesShorter(p: string, c: string)
    requires Reaches(p, c) && c != []
    ensures |c| < |p|
    decreases |p|
  {
    if ParentKey(p) != c {
      ReachesShorter(ParentKey(p), c);
    }
  }

  /** Whatever lies below `c` lies below the parent path of `c`. */
  lemma {:induction false} ReachesThrough(p: string, c: string)
    requires Reaches(p, c)
    ensures Reaches(p, ParentKey(c))
    decreases |p|
  {
    if ParentKey(p) == c {
      if p != [] {
        assert Reaches(c, ParentKey(c));
      }
    } else {
      ReachesThrough(ParentKey(p), c);
    }
  }

  /** The ancestor of `p`, or `p` itself, that sits directly below `key`. */
  ghost function AncestorBelow(p: string, key: string): (a: string)
    requires Reaches(p, key)
    ensures ParentKey(a) == key
    ensures a == p || Reaches(p, a)
    ensures p != [] ==> a != []
    decreases |p|
  {
    if ParentKey(p) == key then p
    else AncestorBelow(ParentKey(p), key)
  }

  /** The ancestors of a path form a chain: a non-empty ancestor directly below `key` is the
      only one, and then `p` itself is not directly below `key`. */
  lemma {:induction false} AncestorUnique(p: string, c: string, key: string)
    requires Reaches(p, c) && ParentKey(c) == key && c != []
    ensures ParentKey(p) != key && Reaches(p, key) && AncestorBelow(p, key) == c
    decreases |p|
  {
    var q := ParentKey(p);
    ReachesShorter(p, c);
    if q == c {
      assert Reaches(c, key);
    } else {
      AncestorUnique(q, c, key);
      ReachesShorter(q, c);
    }
  }

  /** An ancestor of a path or of one of its folder prefixes is again a folder prefix. */
  lemma {:induction false} CutAncestor(s: string, n: nat, a: string) returns (m: nat)
    requires n == |s| || FolderCut(s, n)
    requires a != [] && Reaches(s[..n], a)
    ensures m < n && FolderCut(s, m) && a == s[..m]
    decreases n
  {
    var p := s[..n];
    match LastIndexIn(p, {Sep})
    case None =>
      assert false;
    case Some(k) =>
      assert ParentKey(p) == s[..k];
      if k == 0 {
        assert false;
      } else if s[..k] == a {
        m := k;
      } else {
        m := CutAncestor(s, k, a);
      }
  }

  // ---------------------------------------------------------------------
  // Counting by entry

  /** The entries of `all` lying below `key`. */
  ghost function Under(all: seq<Entry>, key: string): multiset<Entry> {
    if all == [] then multiset{}
    else
      var e := all[|all| - 1];
      Under(all[..|all| - 1], key) + (if Reaches(e.fullPath, key) then multiset{e} else multiset{})
  }

  lemma {:induction false} UnderCount(all: seq<Entry>, key: string, x: Entry)
    ensures Under(all, key)[x] == if Reaches(x.fullPath, key) then multiset(all)[x] else 0
  {
    if all != [] {
      UnderCount(all[..|all| - 1], key, x);
      assert all == all[..|all| - 1] + [all[|all| - 1]];
    }
  }

  /** Below the root lies all of `all`. */
  lemma {:induction false} UnderRoot(all: seq<Entry>)
    ensures Under(all, []) == multiset(all)
  {
    forall x
      ensures Under(all, [])[x] == multiset(all)[x]
    {
      UnderCount(all, [], x);
      ReachesRoot(x.fullPath);
    }
  }

  /** Each entry of `es` and, for a folder, every entry of `all` below it. */
  ghost function Spread(all: seq<Entry>, es: seq<Entry>): multiset<Entry> {
    if es == [] then multiset{}
    else
      var e := es[|es| - 1];
      Spread(all, es[..|es| - 1]) + multiset{e} + (if e.isFolder then Under(all, e.fullPath) else multiset{})
  }

  /** `w` for each folder entry of `es` lying above `x`. */
  ghost function Hits(es: seq<Entry>, x: Entry, w: nat): nat {
    if es == [] then 0
    else
      var e := es[|es| - 1];
      Hits(es[..|es| - 1], x, w) + (if e.isFolder && Reaches(x.fullPath, e.fullPath) then w else 0)
  }

  /** `x` occurs in the spread once for each time it is listed, and, for each listed folder
      above it, as often as it occurs in `all`. */
  lemma {:induction false} SpreadCount(all: seq<Entry>, es: seq<Entry>, x: Entry)
    ensures Spread(all, es)[x] == multiset(es)[x] + Hits(es, x, multiset(all)[x])
  {
    if es != [] {
      var e := es[|es| - 1];
      SpreadCount(all, es[..|es| - 1], x);
      assert es == es[..|es| - 1] + [e];
      if e.isFolder {
        UnderCount(all, e.fullPath, x);
      }
    }
  }

  lemma {:induction false} HitsNone(es: seq<Entry>, x: Entry, w: nat)
    requires forall e :: e in es && e.isFolder ==> !Reaches(x.fullPath, e.fullPath)
    ensures Hits(es, x, w) == 0
  {
    if es != [] {
      HitsNone(es[..|es| - 1], x, w);
    }
  }

  lemma {:induction false} HitsZero(es: seq<Entry>, x: Entry)
    ensures Hits(es, x, 0) == 0
  {
    if es != [] {
      HitsZero(es[..|es| - 1], x);
    }
  }

  lemma {:induction false} HitsOnly(es: seq<Entry>, x: Entry, w: nat, v: Entry)
    requires v.isFolder && Reaches(x.fullPath, v.fullPath) && multiset(es)[v] <= 1
    requires forall e :: e in es && e.isFolder && Reaches(x.fullPath, e.fullPath) ==> e == v
    ensures Hits(es, x, w) == if v in es then w else 0
  {
    if es != [] {
      var init := es[..|es| - 1];
      assert es == init + [es[|es| - 1]];
      HitsOnly(init, x, w, v);
    }
  }

  lemma {:induction false} DirectCount(es: seq<Entry>, key: string, x: Entry)
    ensures multiset(Direct(es, key))[x] == if ParentKey(x.fullPath) == key then multiset(es)[x] else 0
  {
    if es != [] {
      var init, e := es[..|es| - 1], es[|es| - 1];
      DirectCount(init, key, x);
      assert multiset(es) == multiset(init) + multiset{e} by {
        assert es == init + [e];
      }
      var tail := if ParentKey(e.fullPath) == key then [e] else [];
      assert Direct(es, key) == Direct(init, key) + tail;
      assert multiset(Direct(es, key)) == multiset(Direct(init, key)) + multiset(tail);
    }
  }

  /** The entries of a build: every folder entry is the entry of its non-empty path and
      occurs once, and every non-empty ancestor of an entry is a folder entry. */
  ghost predicate Closed(all: seq<Entry>) {
    && (forall e :: e in all && e.isFolder ==> e.fullPath != [] && e == FolderEntry(e.fullPath) && multiset(all)[e] == 1)
    && (forall x, a :: x in all && a != [] && Reaches(x.fullPath, a) ==> FolderEntry(a) in all)
  }

  /** No folder directly below `key` lies above an entry that is not below `key`, or that is
      itself directly below `key`. */
  lemma {:induction false} HitsOutside(all: seq<Entry>, key: string, es: seq<Entry>, x: Entry, w: nat)
    requires Closed(all) && multiset(es) == multiset(Direct(all, key))
    requires !Reaches(x.fullPath, key) || ParentKey(x.fullPath) == key
    ensures Hits(es, x, w) == 0
  {
    forall e | e in es && e.isFolder
      ensures !Reaches(x.fullPath, e.fullPath)
    {
      assert e in multiset(Direct(all, key));
      if Reaches(x.fullPath, e.fullPath) {
        AncestorUnique(x.fullPath, e.fullPath, key);
      }
    }
    HitsNone(es, x, w);
  }

  /** An entry of `all` deeper below `key` has exactly one folder directly below `key`
      above it. */
  lemma {:induction false} HitsInside(all: seq<Entry>, key: string, es: seq<Entry>, x: Entry, w: nat)
    requires Closed(all) && multiset(es) == multiset(Direct(all, key))
    requires x in all && Reaches(x.fullPath, key) && ParentKey(x.fullPath) != key
    ensures Hits(es, x, w) == w
  {
    var a := AncestorBelow(x.fullPath, key);
    var v := FolderEntry(a);
    assert v in all;
    DirectCount(all, key, v);
    forall e | e in es && e.isFolder && Reaches(x.fullPath, e.fullPath)
      ensures e == v
    {
      assert e in multiset(Direct(all, key));
      AncestorUnique(x.fullPath, e.fullPath, key);
    }
    HitsOnly(es, x, w, v);
  }

  /** Listing the entries directly below `key`, and below each such folder everything
      under it, is everything under `key`, each entry exactly as often as in `all`. */
  lemma {:induction false} SpreadBelow(all: seq<Entry>, key: string, es: seq<Entry>)
    requires Closed(all) && multiset(es) == multiset(Direct(all, key))
    ensures Spread(all, es) == Under(all, key)
  {
    forall x
      ensures Spread(all, es)[x] == Under(all, key)[x]
    {
      var w := multiset(all)[x];
      SpreadCount(all, es, x);
      UnderCount(all, key, x);
      DirectCount(all, key, x);
      if !Reaches(x.fullPath, key) || ParentKey(x.fullPath) == key {
        HitsOutside(all, key, es, x, w);
      } else if x in all {
        HitsInside(all, key, es, x, w);
      } else {
        HitsZero(es, x);
      }
    }
  }

  // ---------------------------------------------------------------------
  // The walk gathers everything below its key

  /** The sorted map lists, under every key, the entries of `all` with that parent path. */
  ghost predicate Grounded(cm: ChildrenMap, all: seq<Entry>, bound: nat) {
    && KeysGrow(cm, bound) && Closed(all)
    && forall key :: multiset(Get(cm, key)) == multiset(Direct(all, key))
  }

  lemma {:induction false} GatheredUnder(cm: ChildrenMap, all: seq<Entry>, key: string, bound: nat)
    requires Grounded(cm, all, bound) && |key| <= bound
    ensures forall e :: e in Get(cm, key) && e.isFolder ==> |key| < |e.fullPath| <= bound
    ensures Gathered(cm, Get(cm, key), |key|, bound) == Under(all, key)
    decreases bound - |key|, 1, 0
  {
    GatheredSpread(cm, all, Get(cm, key), |key|, bound);
    SpreadBelow(all, key, Get(cm, key));
  }

  lemma {:induction false} GatheredSpread(cm: ChildrenMap, all: seq<Entry>, es: seq<Entry>, lo: nat, bound: nat)
    requires Grounded(cm, all, bound) && lo <= bound
    requires forall e :: e in es && e.isFolder ==> lo < |e.fullPath| <= bound
    ensures Gathered(cm, es, lo, bound) == Spread(all, es)
    decreases bound - lo, 0, |es|
  {
    if es != [] {
      var e := es[|es| - 1];
      assert forall x :: x in es[..|es| - 1] ==> x in es;
      GatheredSpread(cm, all, es[..|es| - 1], lo, bound);
      if e.isFolder {
        GatheredUnder(cm, all, e.fullPath, bound);
      }
    }
  }

  // ---------------------------------------------------------------------
  // The entries of a build

  lemma {:induction false} FolderCount(order: seq<string>, f: string)
    requires forall i, j :: 0 <= i < j < |order| ==> order[i] != order[j]
    ensures multiset(FolderEntries(order))[FolderEntry(f)] == if f in order then 1 else 0
  {
    if order != [] {
      var init := order[..|order| - 1];
      FolderCount(init, f);
      assert FolderEntries(order) == FolderEntries(init) + [FolderEntry(order[|order| - 1])];
      assert order == init + [order[|order| - 1]];
    }
  }

  /** A folder entry of a build is the entry of a non-empty folder prefix, listed once. */
  lemma {:induction false} BuildFolderOnce(paths: seq<string>, order: seq<string>, e: Entry)
    requires forall i, j :: 0 <= i < j < |order| ==> order[i] != order[j]
    requires forall f :: f in order <==> IsFolder(paths, f)
    requires e in FolderEntries(order) + FileEntries(paths) && e.isFolder
    ensures e.fullPath != [] && e == FolderEntry(e.fullPath)
    ensures multiset(FolderEntries(order) + FileEntries(paths))[e] == 1
  {
    var all := FolderEntries(order) + FileEntries(paths);
    var i :| 0 <= i < |all| && all[i] == e;
    assert i < |order|;
    FolderKeyGrows(paths, order[i]);
    FolderCount(order, order[i]);
    assert e !in FileEntries(paths);
  }

  /** A non-empty ancestor of an input path, or of one of its folder prefixes, is a folder. */
  lemma {:induction false} PathAncestor(paths: seq<string>, k: nat, n: nat, a: string)
    requires k < |paths| && (n == |Normalize(paths[k])| || FolderCut(Normalize(paths[k]), n))
    requires a != [] && Reaches(Normalize(paths[k])[..n], a)
    ensures IsFolder(paths, a)
  {
    var m := CutAncestor(Normalize(paths[k]), n, a);
  }

  /** A non-empty ancestor of a folder prefix is a folder prefix. */
  lemma {:induction false} FolderAncestor(paths: seq<string>, f: string, a: string)
    requires IsFolder(paths, f) && a != [] && Reaches(f, a)
    ensures IsFolder(paths, a)
  {
    var k, n :| 0 <= k < |paths| && FolderCut(Normalize(paths[k]), n) && f == Normalize(paths[k])[..n];
    PathAncestor(paths, k, n, a);
  }

  /** A non-empty ancestor of an entry of a build is a folder prefix. */
  lemma {:induction false} EntryAncestor(paths: seq<string>, order: seq<string>, x: Entry, a: string)
    requires forall f :: f in order <==> IsFolder(paths, f)
    requires x in FolderEntries(order) + FileEntries(paths) && a != [] && Reaches(x.fullPath, a)
    ensures IsFolder(paths, a)
  {
    var all := FolderEntries(order) + FileEntries(paths);
    var i :| 0 <= i < |all| && all[i] == x;
    if i < |order| {
      assert x == FolderEntry(order[i]) && order[i] in order;
      FolderAncestor(paths, order[i], a);
    } else {
      var k := i - |order|;
      var s := Normalize(paths[k]);
      assert x == FileEntry(paths[k]) && x.fullPath == s == s[..|s|];
      PathAncestor(paths, k, |s|, a);
    }
  }

  /** The folder entry of a non-empty ancestor of an entry of a build is an entry of the
      build. */
  lemma {:induction false} BuildAncestor(paths: seq<string>, order: seq<string>, x: Entry, a: string)
    requires forall f :: f in order <==> IsFolder(paths, f)
    requires x in FolderEntries(order) + FileEntries(paths) && a != [] && Reaches(x.fullPath, a)
    ensures FolderEntry(a) in FolderEntries(order) + FileEntries(paths)
  {
    EntryAncestor(paths, order, x, a);
    assert a in order;
    var j :| 0 <= j < |order| && order[j] == a;
    var folders := FolderEntries(order);
    assert folders[j] == FolderEntry(a);
    assert FolderEntry(a) in folders;
  }

  /** The folder prefixes and the normalized paths form a closed set of entries. */
  lemma {:induction false} BuildClosed(paths: seq<string>, order: seq<string>)
    requires forall i, j :: 0 <= i < j < |order| ==> order[i] != order[j]
    requires forall f :: f in order <==> IsFolder(paths, f)
    ensures Closed(FolderEntries(order) + FileEntries(paths))
  {
    var all := FolderEntries(order) + FileEntries(paths);
    forall e | e in all && e.isFolder
      ensures e.fullPath != [] && e == FolderEntry(e.fullPath) && multiset(all)[e] == 1
    {
      BuildFolderOnce(paths, order, e);
    }
    forall x, a | x in all && a != [] && Reaches(x.fullPath, a)
      ensures FolderEntry(a) in all
    {
      BuildAncestor(paths, order, x, a);
    }
  }

  // ---------------------------------------------------------------------
  // Counting files

  /** The number of file entries. */
  ghost function Files(es: seq<Entry>): nat {
    if es == [] then 0
    else Files(es[..|es| - 1]) + (if es[|es| - 1].isFolder then 0 else 1)
  }

  lemma {:induction false} FilesAppend(a: seq<Entry>, b: seq<Entry>)
    ensures Files(a + b) == Files(a) + Files(b)
    decreases |b|
  {
    if b == [] {
      assert a + b == a;
    } else {
      assert (a + b)[..|a + b| - 1] == a + b[..|b| - 1];
      FilesAppend(a, b[..|b| - 1]);
    }
  }

  /** Taking out the entry at `i`. */
  lemma {:induction false} FilesWithout(b: seq<Entry>, i: nat)
    requires i < |b|
    ensures Files(b) == Files(b[..i] + b[i + 1..]) + (if b[i].isFolder then 0 else 1)
    ensures multiset(b[..i] + b[i + 1..]) == multiset(b) - multiset{b[i]}
  {
    var x := b[i];
    assert b == b[..i] + [x] + b[i + 1..];
    FilesAppend(b[..i] + [x], b[i + 1..]);
    FilesAppend(b[..i], [x]);
    FilesAppend(b[..i], b[i + 1..]);
    assert Files([x]) == (if x.isFolder then 0 else 1) by {
      assert [x][..0] == [];
    }
  }

  /** The count depends only on the multiset of entries. */
  lemma {:induction false} FilesPermuted(a: seq<Entry>, b: seq<Entry>)
    requires multiset(a) == multiset(b)
    ensures Files(a) == Files(b)
    decreases |a|
  {
    if a == [] {
      assert |b| == |multiset(b)| == 0;
    } else {
      var x := a[|a| - 1];
      var init := a[..|a| - 1];
      assert multiset(init) == multiset(a) - multiset{x} by {
        assert a == init + [x];
      }
      assert x in multiset(b);
      var i :| 0 <= i < |b| && b[i] == x;
      FilesWithout(b, i);
      FilesPermuted(init, b[..i] + b[i + 1..]);
    }
  }

  lemma {:induction false} FilesOfKind(es: seq<Entry>)
    ensures (forall e :: e in es ==> e.isFolder) ==> Files(es) == 0
    ensures (forall e :: e in es ==> !e.isFolder) ==> Files(es) == |es|
  {
    if es != [] {
      assert forall e :: e in es[..|es| - 1] ==> e in es;
      FilesOfKind(es[..|es| - 1]);
    }
  }

  /** `total_count` counts the file entries the nodes were made from. */
  lemma {:induction false} TotalCountFiles(tree: Tree)
    ensures TotalCount(tree) == Files(Labels(tree))
  {
    if tree != [] {
      TotalCountFiles(tree[..|tree| - 1]);
      assert Labels(tree)[..|tree| - 1] == Labels(tree[..|tree| - 1]);
    }
  }

  // ---------------------------------------------------------------------
  // The build, counted

  /** Walking from the root's empty path over the sorted map of a build gathers every
      folder prefix and every normalized path, each as often as it was grouped. */
  lemma {:induction false} BuildGathered(paths: seq<string>, order: seq<string>, cm: ChildrenMap)
    requires forall i, j :: 0 <= i < j < |order| ==> order[i] != order[j]
    requires forall f :: f in order <==> IsFolder(paths, f)
    requires cm.Keys == Grouped(FolderEntries(order) + FileEntries(paths)).Keys
    requires forall key :: key in cm ==>
      multiset(cm[key]) == multiset(Grouped(FolderEntries(order) + FileEntries(paths))[key])
    requires KeysGrow(cm, MaxLen(paths))
    ensures Gathered(cm, Get(cm, []), 0, MaxLen(paths)) == multiset(FolderEntries(order) + FileEntries(paths))
  {
    var all := FolderEntries(order) + FileEntries(paths);
    BuildClosed(paths, order);
    forall key
      ensures multiset(Get(cm, key)) == multiset(Direct(all, key))
    {
      GroupedIsDirect(all, key);
    }
    GatheredUnder(cm, all, [], MaxLen(paths));
    UnderRoot(all);
  }

  /** Nodes below a folder root made from the entries of a build count one file per input
      path. */
  lemma {:induction false} BuiltTotal(tree: Tree, paths: seq<string>, order: seq<string>)
    requires |tree| >= 1 && tree[0].isFolder
    requires multiset(Labels(tree[1..])) == multiset(FolderEntries(order) + FileEntries(paths))
    ensures TotalCount(tree) == |paths|
  {
    var below := Labels(tree[1..]);
    var root := [EntryOf(tree[0])];
    TotalCountFiles(tree);
    assert Labels(tree) == root + below;
    FilesAppend(root, below);
    assert Files(root) == 0 by {
      assert root[..0] == [];
    }
    FilesPermuted(below, FolderEntries(order) + FileEntries(paths));
    FilesAppend(FolderEntries(order), FileEntries(paths));
    FilesOfKind(FolderEntries(order));
    FilesOfKind(FileEntries(paths));
  }

  /** Nodes made from the entries of a build: one folder node per folder prefix, no other
      folder node, and each file node as often as its normalized path was given. */
  lemma {:induction false} BuiltNodes(tree: Tree, paths: seq<string>, order: seq<string>)
    requires forall i, j :: 0 <= i < j < |order| ==> order[i] != order[j]
    requires forall f :: f in order <==> IsFolder(paths, f)
    requires |tree| >= 1
    requires multiset(Labels(tree[1..])) == multiset(FolderEntries(order) + FileEntries(paths))
    ensures forall f :: IsFolder(paths, f) ==> multiset(Labels(tree[1..]))[FolderEntry(f)] == 1
    ensures forall e: Entry :: !e.isFolder ==> multiset(Labels(tree[1..]))[e] == multiset(FileEntries(paths))[e]
    ensures forall i :: 1 <= i < |tree| && tree[i].isFolder ==> IsFolder(paths, tree[i].path)
  {
    var folders := FolderEntries(order);
    var files := FileEntries(paths);
    var below := Labels(tree[1..]);
    forall f | IsFolder(paths, f)
      ensures multiset(below)[FolderEntry(f)] == 1
    {
      FolderCount(order, f);
      assert FolderEntry(f) !in files;
    }
    forall e: Entry | !e.isFolder
      ensures multiset(below)[e] == multiset(files)[e]
    {
      assert e !in folders;
    }
    forall i | 1 <= i < |tree| && tree[i].isFolder
      ensures IsFolder(paths, tree[i].path)
    {
      var e := EntryOf(tree[i]);
      assert below[i - 1] == e;
      assert e in multiset(folders + files);
      var j :| 0 <= j < |folders + files| && (folders + files)[j] == e;
      assert j < |order|;
    }
  }
}
