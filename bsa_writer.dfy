/** Building TES4-family BSA archives: a builder that files payloads under a
    (folder, file) split of a normalised path, its flag and version settings,
    and the build that flattens the files, encodes each one (compressing when
    the COMPRESSED flag is set) and regroups them by folder. The codec's
    compressor and writer are outside this model; the compressor is a
    parameter. */
module BsaWriter {
  import opened Common
  import opened Text
  import opened Archive
  import BsaReader

  /** Nested folder -> file -> value maps, the shape of both the builder's files and the
      regrouped archive. */
  type Folders<V> = map<string, map<string, V>>

  /** The value filed under (folder `d`, file `f`), if any. */
  function Get<V>(m: Folders<V>, d: string, f: string): Option<V> {
    if d in m && f in m[d] then Some(m[d][f]) else None
  }

  /** `entry(d).or_default().insert(f, v)`: file `v` under (`d`, `f`), creating the folder
      when it is missing. */
  function Put<V>(m: Folders<V>, d: string, f: string, v: V): (r: Folders<V>)
    ensures Get(r, d, f) == Some(v)
    ensures forall d', f' :: (d', f') != (d, f) ==> Get(r, d', f') == Get(m, d', f')
    ensures r.Keys == m.Keys + {d}
  {
    m[d := (if d in m then m[d] else map[])[f := v]]
  }

  /** The size of every folder. */
  function Sizes<V>(m: Folders<V>): map<string, nat> {
    map d | d in m :: |m[d]|
  }

  /** The sum of the values of a map. */
  ghost function Total(t: map<string, nat>): nat
    decreases |t|
  {
    if t == map[] then 0
    else
      var d :| d in t;
      t[d] + Total(t - {d})
  }

  lemma TotalUnfold(t: map<string, nat>) returns (d: string)
    requires t != map[]
    ensures d in t && Total(t) == t[d] + Total(t - {d})
  {
    d :| d in t && Total(t) == t[d] + Total(t - {d});
  }

  lemma MapRemoveSmaller(t: map<string, nat>, d: string)
    requires d in t
    ensures |t - {d}| < |t|
  {
    assert (t - {d}).Keys < t.Keys;
  }

  /** The sum does not depend on which key is taken first. */
  lemma {:induction false} TotalRemove(t: map<string, nat>, d: string)
    requires d in t
    ensures Total(t) == t[d] + Total(t - {d})
    decreases |t|
  {
    var d' := TotalUnfold(t);
    if d' != d {
      var t1 := t - {d'};
      var t2 := t - {d};
      MapRemoveSmaller(t, d);
      MapRemoveSmaller(t, d');
      TotalRemove(t1, d);
      TotalRemove(t2, d');
      assert t1 - {d} == t2 - {d'};
    }
  }

  /** Number of (folder, file) pairs: the sum of the folder sizes. */
  ghost function SumSizes<V>(m: Folders<V>): nat {
    Total(Sizes(m))
  }

  lemma SumSizesRemove<V>(m: Folders<V>, d: string)
    requires d in m
    ensures SumSizes(m) == |m[d]| + SumSizes(m - {d})
  {
    TotalRemove(Sizes(m), d);
    assert Sizes(m) - {d} == Sizes(m - {d});
  }

  /** Replacing a folder's contents changes the count by the folder's new size. */
  lemma SumSizesSet<V>(m: Folders<V>, d: string, inner: map<string, V>)
    ensures SumSizes(m[d := inner]) == SumSizes(m - {d}) + |inner|
  {
    var r := m[d := inner];
    SumSizesRemove(r, d);
    assert r - {d} == m - {d};
  }

  /** Filing a new pair adds one to the count; replacing a pair keeps it. */
  lemma SumSizesPut<V>(m: Folders<V>, d: string, f: string, v: V)
    ensures SumSizes(Put(m, d, f, v)) == SumSizes(m) + (if Get(m, d, f).None? then 1 else 0)
  {
    var inner: map<string, V> := if d in m then m[d] else map[];
    SumSizesSet(m, d, inner[f := v]);
    InsertSize(inner, f, v);
    if d in m {
      SumSizesRemove(m, d);
    } else {
      assert m - {d} == m;
    }
  }

  lemma InsertSize<V>(inner: map<string, V>, f: string, v: V)
    ensures |inner[f := v]| == |inner| + (if f in inner then 0 else 1)
  {
    if f in inner {
      assert inner[f := v].Keys == inner.Keys;
    } else {
      assert inner[f := v].Keys == inner.Keys + {f};
    }
  }

  /** The (folder, file) split of `add_file`: '\\' becomes '/', leading '/' are dropped, and
      the split is at the last '/'; a path with no '/' goes to the folder ".". */
  function SplitKey(path: string): (r: (string, string))
    ensures '/' !in r.1
    ensures var n := TrimStart(Replace(path, '\\', '/'), '/');
            (r.0 == "." && r.1 == n) || n == r.0 + "/" + r.1
  {
    var n := TrimStart(Replace(path, '\\', '/'), '/');
    LastIndexCuts(n, '/');
    match LastIndexIn(n, {'/'})
    case None => (".", n)
    case Some(idx) => (n[..idx], n[idx + 1..])
  }

  /** One flattened file: folder, file name and contents. */
  datatype Entry<V> = Entry(dir: string, name: string, data: V)

  /** `es` lists the pairs of `m` exactly once each. */
  ghost predicate Lists<V>(es: seq<Entry<V>>, m: Folders<V>) {
    && (forall k :: 0 <= k < |es| ==> Get(m, es[k].dir, es[k].name) == Some(es[k].data))
    && (forall d, f :: Get(m, d, f).Some? ==> exists k :: 0 <= k < |es| && es[k].dir == d && es[k].name == f)
    && (forall i, j :: 0 <= i < j < |es| ==> es[i].dir != es[j].dir || es[i].name != es[j].name)
  }

  /** `as_bsa_file`: the stored form of one payload, compressed with the archive version's
      options when compression is on; a failed compression gives None. */
  function Encoded(data: Bytes, version: Tes4Version, shouldCompress: bool,
                   compress: (Tes4Version, Bytes) -> Option<Bytes>): (r: Option<BsaReader.BsaFile>)
    ensures !shouldCompress ==> r == Some(BsaReader.BsaFile(data, false))
    ensures shouldCompress ==> (r.Some? <==> compress(version, data).Some?)
    ensures r.Some? ==> r.value.compressed == shouldCompress
  {
    if shouldCompress then
      match compress(version, data)
      case Some(z) => Some(BsaReader.BsaFile(z, true))
      case None => None
    else
      Some(BsaReader.BsaFile(data, false))
  }

  /** What the reader gets back from an encoded payload is the payload, provided the codec's
      decompressor undoes its compressor. */
  lemma EncodedRoundTrip(data: Bytes, version: Tes4Version, shouldCompress: bool,
                         compress: (Tes4Version, Bytes) -> Option<Bytes>, decompress: Bytes -> Option<Bytes>)
    requires compress(version, data).Some? ==> decompress(compress(version, data).value) == Some(data)
    requires Encoded(data, version, shouldCompress, compress).Some?
    ensures BsaReader.Decoded(Encoded(data, version, shouldCompress, compress).value, decompress) == Some(data)
  {
  }

  /** What a successful build hands to the codec's writer. */
  datatype BsaOutput = BsaOutput(
    folders: Folders<BsaReader.BsaFile>,
    version: Tes4Version,
    flags: set<ArchiveFlag>,
    types: set<ArchiveType>)

  class BsaBuilder {
    var files: Folders<Bytes>
    var flags: set<ArchiveFlag>
    var types: set<ArchiveType>
    var version: Tes4Version

    /** No folder is ever left empty. */
    ghost predicate Valid()
      reads this
    {
      forall d :: d in files ==> files[d] != map[]
    }

    /** `BsaBuilder::new`. */
    constructor ()
      ensures Valid()
      ensures files == map[] && flags == DefaultFlagsFo3() && types == {} && version == V104
    {
      files := map[];
      flags := DefaultFlagsFo3();
      types := {};
      version := V104;
    }

    /** `BsaBuilder::from_name`: version and types from the name; Oblivion flags exactly for
        a v103 name, so compression is off exactly then. */
    constructor FromName(name: string)
      ensures Valid()
      ensures files == map[] && version == DetectVersion(name) && types == DetectTypes(name)
      ensures flags == if version == V103 then DefaultFlagsOblivion() else DefaultFlagsFo3()
      ensures Compressed in flags <==> version != V103
    {
      var v := DetectVersion(name);
      files := map[];
      version := v;
      types := DetectTypes(name);
      flags := if v == V103 then DefaultFlagsOblivion() else DefaultFlagsFo3();
    }

    method WithFlags(f: set<ArchiveFlag>)
      modifies this`flags
      ensures flags == f
    {
      flags := f;
    }

    method WithTypes(t: set<ArchiveType>)
      modifies this`types
      ensures types == t
    {
      types := t;
    }

    method WithVersion(v: Tes4Version)
      modifies this`version
      ensures version == v
    {
      version := v;
    }

    /** Sets or clears COMPRESSED and leaves every other flag as it was. */
    method WithCompression(compress: bool)
      modifies this`flags
      ensures Compressed in flags <==> compress
      ensures flags - {Compressed} == old(flags) - {Compressed}
    {
      if compress {
        flags := flags + {Compressed};
      } else {
        flags := flags - {Compressed};
      }
    }

    /** Files `data` under the split of `path`; an earlier payload under the same pair is
        replaced and every other pair keeps its payload. */
    method AddFile(path: string, data: Bytes)
      requires Valid()
      modifies this`files
      ensures Valid()
      ensures files == Put(old(files), SplitKey(path).0, SplitKey(path).1, data)
    {
      var (dir, name) := SplitKey(path);
      files := Put(files, dir, name, data);
    }

    /** `file_count`: the sum of the folder sizes, summed folder by folder. */
    method FileCount() returns (n: nat)
      ensures n == SumSizes(files)
    {
      n := 0;
      var rest := files;
      while rest != map[]
        invariant n + SumSizes(rest) == SumSizes(files)
        decreases |rest|
      {
        var d :| d in rest;
        SumSizesRemove(rest, d);
        n := n + |rest[d]|;
        MapRemoveSmaller(Sizes(rest), d);
        rest := rest - {d};
      }
    }

    /** `is_empty`: no pairs; for a valid builder, no folders. */
    method IsEmpty() returns (r: bool)
      ensures r <==> SumSizes(files) == 0
      ensures Valid() ==> (r <==> files == map[])
    {
      var n := FileCount();
      r := n == 0;
      if Valid() && files != map[] {
        var d :| d in files;
        SumSizesRemove(files, d);
        assert |files[d]| > 0 by { assert files[d] != map[]; }
      }
    }

    /** `build_with_progress`: the empty check, then every pair encoded (compressed exactly
        when COMPRESSED is set) and regrouped by folder. */
    method BuildWithProgress(compress: (Tes4Version, Bytes) -> Option<Bytes>)
      returns (r: Result<BsaOutput, ArchiveError>)
      ensures r == Err(EmptyArchive) <==> SumSizes(files) == 0
      ensures r.Ok? ==> r.value.version == version && r.value.flags == flags && r.value.types == types
      ensures r.Ok? ==> forall d, f :: Get(r.value.folders, d, f) == EncodedAt(files, d, f, version, Compressed in flags, compress)
      ensures r.Ok? ==> SumSizes(r.value.folders) == SumSizes(files)
      ensures SumSizes(files) != 0 && Compressed !in flags ==> r.Ok?
      ensures r.Err? && SumSizes(files) != 0 ==>
        exists d, f :: Get(files, d, f).Some?
          && Encoded(Get(files, d, f).value, version, Compressed in flags, compress).None?
          && r.error == CompressionFailed(d + "/" + f)
    {
      var empty := IsEmpty();
      if empty {
        return Err(EmptyArchive);
      }
      var shouldCompress := Compressed in flags;
      var entries := Flatten();
      var processed: seq<Entry<BsaReader.BsaFile>> := [];
      var k := 0;
      while k < |entries|
        invariant k <= |entries|
        invariant |processed| == k
        invariant forall i :: 0 <= i < k ==>
          processed[i].dir == entries[i].dir && processed[i].name == entries[i].name
          && Encoded(entries[i].data, version, shouldCompress, compress) == Some(processed[i].data)
      {
        var e := entries[k];
        match Encoded(e.data, version, shouldCompress, compress)
        case None =>
          assert Get(files, e.dir, e.name) == Some(e.data);
          return Err(CompressionFailed(e.dir + "/" + e.name));
        case Some(file) =>
          processed := processed + [Entry(e.dir, e.name, file)];
        k := k + 1;
      }
      var folders := Regroup(processed);
      ProcessedMatches(files, entries, processed, folders, version, shouldCompress, compress);
      r := Ok(BsaOutput(folders, version, flags, types));
    }

    /** The flattening of the builder's folders into one entry per pair. */
    method Flatten() returns (entries: seq<Entry<Bytes>>)
      ensures Lists(entries, files)
      ensures |entries| == SumSizes(files)
    {
      entries := [];
      var rest := files;
      assert files.Keys - rest.Keys == {};
      while rest != map[]
        invariant Flattening(entries, files, rest)
        decreases |rest|
      {
        var d :| d in rest;
        var inFolder := FlattenFolder(d, files[d]);
        FlattenStep(entries, files, rest, d, inFolder);
        entries := entries + inFolder;
        rest := rest - {d};
      }
      assert files.Keys - rest.Keys == files.Keys;
      ListsPartAll(entries, files);
    }
  }

  /** Part way through the flattening: `rest` is what is left of `files`, and `entries`
      lists the other folders' files once each, as many as they hold. */
  ghost predicate Flattening<V>(entries: seq<Entry<V>>, files: Folders<V>, rest: Folders<V>) {
    && (forall d :: d in rest ==> d in files && rest[d] == files[d])
    && ListsPart(entries, files, files.Keys - rest.Keys)
    && |entries| + SumSizes(rest) == SumSizes(files)
  }

  lemma FlattenStep<V>(entries: seq<Entry<V>>, files: Folders<V>, rest: Folders<V>, d: string,
                       inFolder: seq<Entry<V>>)
    requires Flattening(entries, files, rest) && d in rest
    requires ListsFolder(inFolder, d, files[d]) && |inFolder| == |files[d]|
    ensures Flattening(entries + inFolder, files, rest - {d})
    ensures |rest - {d}| < |rest|
  {
    SumSizesRemove(rest, d);
    AppendFolder(entries, files, files.Keys - rest.Keys, d, inFolder);
    assert files.Keys - (rest - {d}).Keys == (files.Keys - rest.Keys) + {d};
    assert (rest - {d}).Keys < rest.Keys;
  }

  /** `es` lists the files of folder `d` exactly once each. */
  ghost predicate ListsFolder<V>(es: seq<Entry<V>>, d: string, folder: map<string, V>) {
    && (forall k :: 0 <= k < |es| ==> es[k].dir == d && es[k].name in folder && folder[es[k].name] == es[k].data)
    && (forall f :: f in folder ==> exists k :: 0 <= k < |es| && es[k].name == f)
    && (forall i, j :: 0 <= i < j < |es| ==> es[i].name != es[j].name)
  }

  /** `es` lists exactly the pairs of `m` whose folder is in `done`, once each. */
  ghost predicate ListsPart<V>(es: seq<Entry<V>>, m: Folders<V>, done: set<string>) {
    && (forall k :: 0 <= k < |es| ==> es[k].dir in done && Get(m, es[k].dir, es[k].name) == Some(es[k].data))
    && (forall d, f :: d in done && Get(m, d, f).Some? ==> exists k :: 0 <= k < |es| && es[k].dir == d && es[k].name == f)
    && (forall i, j :: 0 <= i < j < |es| ==> es[i].dir != es[j].dir || es[i].name != es[j].name)
  }

  lemma AppendFolder<V>(es: seq<Entry<V>>, m: Folders<V>, done: set<string>, d: string, fs: seq<Entry<V>>)
    requires ListsPart(es, m, done) && d !in done && d in m && ListsFolder(fs, d, m[d])
    ensures ListsPart(es + fs, m, done + {d})
  {
    var all := es + fs;
    forall d', f | d' in done + {d} && Get(m, d', f).Some?
      ensures exists k :: 0 <= k < |all| && all[k].dir == d' && all[k].name == f
    {
      if d' == d {
        var k :| 0 <= k < |fs| && fs[k].name == f;
        assert all[|es| + k] == fs[k];
      } else {
        var k :| 0 <= k < |es| && es[k].dir == d' && es[k].name == f;
        assert all[k] == es[k];
      }
    }
  }

  lemma ListsPartAll<V>(es: seq<Entry<V>>, m: Folders<V>)
    requires ListsPart(es, m, m.Keys)
    ensures Lists(es, m)
  {
  }

  /** The inner loop of the flattening: one entry per file of folder `d`. */
  method FlattenFolder<V>(d: string, folder: map<string, V>) returns (es: seq<Entry<V>>)
    ensures ListsFolder(es, d, folder)
    ensures |es| == |folder|
  {
    es := [];
    var rest := folder;
    while rest != map[]
      invariant FolderProgress(es, d, folder, rest)
      invariant |es| + |rest| == |folder|
      decreases |rest|
    {
      var f :| f in rest;
      assert (rest - {f}).Keys == rest.Keys - {f};
      FolderStep(es, d, folder, rest, f);
      es := es + [Entry(d, f, rest[f])];
      rest := rest - {f};
    }
  }

  /** Part way through folder `d`: `rest` is what is left of `folder`, and `es` lists the
      rest of it once each. */
  ghost predicate FolderProgress<V>(es: seq<Entry<V>>, d: string, folder: map<string, V>, rest: map<string, V>) {
    && (forall f :: f in rest ==> f in folder && rest[f] == folder[f])
    && (forall k :: 0 <= k < |es| ==>
          es[k].dir == d && es[k].name in folder && es[k].name !in rest && folder[es[k].name] == es[k].data)
    && (forall f :: f in folder && f !in rest ==> exists k :: 0 <= k < |es| && es[k].name == f)
    && (forall i, j :: 0 <= i < j < |es| ==> es[i].name != es[j].name)
  }

  lemma FolderStep<V>(es: seq<Entry<V>>, d: string, folder: map<string, V>, rest: map<string, V>, f: string)
    requires FolderProgress(es, d, folder, rest) && f in rest
    ensures FolderProgress(es + [Entry(d, f, rest[f])], d, folder, rest - {f})
  {
    var es' := es + [Entry(d, f, rest[f])];
    forall g | g in folder && g !in rest - {f}
      ensures exists k :: 0 <= k < |es'| && es'[k].name == g
    {
      if g == f {
        assert es'[|es|].name == g;
      } else {
        var k :| 0 <= k < |es| && es[k].name == g;
        assert es'[k] == es[k];
      }
    }
  }

  /** The regrouping loop: every processed entry filed under its folder. */
  method Regroup(processed: seq<Entry<BsaReader.BsaFile>>) returns (folders: Folders<BsaReader.BsaFile>)
    requires forall i, j :: 0 <= i < j < |processed| ==> processed[i].dir != processed[j].dir || processed[i].name != processed[j].name
    ensures Lists(processed, folders)
    ensures SumSizes(folders) == |processed|
  {
    folders := map[];
    var k := 0;
    while k < |processed|
      invariant k <= |processed|
      invariant Lists(processed[..k], folders)
      invariant SumSizes(folders) == k
    {
      var e := processed[k];
      RegroupStep(processed, k, folders);
      SumSizesPut(folders, e.dir, e.name, e.data);
      folders := Put(folders, e.dir, e.name, e.data);
      k := k + 1;
    }
    assert processed[..k] == processed;
  }

  lemma RegroupStep<V>(processed: seq<Entry<V>>, k: nat, folders: Folders<V>)
    requires forall i, j :: 0 <= i < j < |processed| ==> processed[i].dir != processed[j].dir || processed[i].name != processed[j].name
    requires k < |processed| && Lists(processed[..k], folders)
    ensures Get(folders, processed[k].dir, processed[k].name).None?
    ensures Lists(processed[..k + 1], Put(folders, processed[k].dir, processed[k].name, processed[k].data))
  {
    var e := processed[k];
    var before := processed[..k];
    var upto := processed[..k + 1];
    assert upto == before + [e];
    var next := Put(folders, e.dir, e.name, e.data);
    forall d, f | Get(next, d, f).Some?
      ensures exists i :: 0 <= i < |upto| && upto[i].dir == d && upto[i].name == f
    {
      if (d, f) == (e.dir, e.name) {
        assert upto[k] == e;
      } else {
        assert Get(folders, d, f).Some?;
        var i :| 0 <= i < |before| && before[i].dir == d && before[i].name == f;
        assert upto[i] == before[i];
      }
    }
  }

  /** The stored form under (`d`, `f`) when the builder's payloads are encoded. */
  function EncodedAt(files: Folders<Bytes>, d: string, f: string, version: Tes4Version, shouldCompress: bool,
                     compress: (Tes4Version, Bytes) -> Option<Bytes>): Option<BsaReader.BsaFile>
  {
    match Get(files, d, f)
    case None => None
    case Some(data) => Encoded(data, version, shouldCompress, compress)
  }

  /** The regrouped archive holds, under every pair of the builder, the encoding of its
      payload, and nothing else. */
  lemma ProcessedMatches(files: Folders<Bytes>, entries: seq<Entry<Bytes>>, processed: seq<Entry<BsaReader.BsaFile>>,
                         folders: Folders<BsaReader.BsaFile>, version: Tes4Version, shouldCompress: bool,
                         compress: (Tes4Version, Bytes) -> Option<Bytes>)
    requires Lists(entries, files)
    requires |processed| == |entries|
    requires forall i :: 0 <= i < |entries| ==>
      processed[i].dir == entries[i].dir && processed[i].name == entries[i].name
      && Encoded(entries[i].data, version, shouldCompress, compress) == Some(processed[i].data)
    requires Lists(processed, folders)
    ensures forall d, f :: Get(folders, d, f) == EncodedAt(files, d, f, version, shouldCompress, compress)
  {
    forall d, f
      ensures Get(folders, d, f) == EncodedAt(files, d, f, version, shouldCompress, compress)
    {
      if Get(files, d, f).Some? {
        var i :| 0 <= i < |entries| && entries[i].dir == d && entries[i].name == f;
        assert Get(folders, processed[i].dir, processed[i].name) == Some(processed[i].data);
      }
    }
  }

  /** Last write wins: filing two payloads under the same pair is filing the second one
      alone, and the file count grows by one at most. */
  lemma PutLastWriteWins<V>(m: Folders<V>, d: string, f: string, a: V, b: V)
    ensures Put(Put(m, d, f, a), d, f, b) == Put(m, d, f, b)
    ensures SumSizes(Put(Put(m, d, f, a), d, f, b)) == SumSizes(m) + (if Get(m, d, f).None? then 1 else 0)
  {
    var once := Put(m, d, f, a);
    assert once[d] == (if d in m then m[d] else map[])[f := a];
    assert Put(once, d, f, b)[d] == (if d in m then m[d] else map[])[f := b];
    SumSizesPut(m, d, f, b);
  }
}
