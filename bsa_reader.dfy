/** Reading TES4-family BSA archives (Oblivion, Fallout 3, New Vegas, Skyrim):
    building full paths from (folder, file) keys, the split-and-search of a
    single-file extraction, and batch extraction. Decompression is the codec's
    and enters as a parameter that already carries the archive's options. */
module BsaReader {
  import opened Common
  import opened Text
  import opened Batch

  /** A stored BSA entry: its bytes, and whether they are compressed. */
  datatype BsaFile = BsaFile(data: Bytes, compressed: bool)

  /** A folder as the codec iterates it: its name and its files in order. */
  datatype Folder = Folder(name: string, files: seq<(string, BsaFile)>)

  type BsaArchive = seq<Folder>

  /** One (folder, file) pair of the archive. */
  datatype Located = Located(dir: string, name: string, file: BsaFile)

  /** The path `list_files` reports: the bare file name inside "" or ".", otherwise
      folder and file joined by '\\'. */
  function FullPath(dir: string, name: string): (p: string)
    ensures dir == "" || dir == "." ==> p == name
    ensures dir != "" && dir != "." ==>
      |p| == |dir| + 1 + |name| && p[..|dir|] == dir && p[|dir|] == '\\' && p[|dir| + 1..] == name
  {
    if dir == "" || dir == "." then name else dir + "\\" + name
  }

  function FolderPairs(f: Folder): (r: seq<Located>)
    ensures |r| == |f.files|
    ensures forall j :: 0 <= j < |r| ==> r[j] == Located(f.name, f.files[j].0, f.files[j].1)
  {
    seq(|f.files|, j requires 0 <= j < |f.files| => Located(f.name, f.files[j].0, f.files[j].1))
  }

  /** Every (folder, file) pair in iteration order. */
  function Pairs(a: BsaArchive): seq<Located> {
    if |a| == 0 then [] else Pairs(a[..|a| - 1]) + FolderPairs(a[|a| - 1])
  }

  /** The archive as a sequence of listed entries. */
  function Entries(a: BsaArchive): (es: seq<Pending<BsaFile>>)
    ensures |es| == |Pairs(a)|
    ensures forall k :: 0 <= k < |es| ==> es[k] == Pending(FullPath(Pairs(a)[k].dir, Pairs(a)[k].name), Pairs(a)[k].file)
  {
    var ps := Pairs(a);
    seq(|ps|, k requires 0 <= k < |ps| => Pending(FullPath(ps[k].dir, ps[k].name), ps[k].file))
  }

  lemma PairsPrefix(a: BsaArchive, i: nat)
    requires i < |a|
    ensures Pairs(a[..i + 1]) == Pairs(a[..i]) + FolderPairs(a[i])
  {
    assert a[..i + 1][..i] == a[..i];
  }

  /** `list_files`: one path per (folder, file) pair, in iteration order. */
  method ListFiles(a: BsaArchive) returns (paths: seq<string>)
    ensures paths == Paths(Entries(a))
  {
    var es := CollectEntries(a);
    paths := ListPaths(es);
  }

  /** The (folder, file) split of a request: '/' becomes '\\', the split is at the last '\\',
      and with no '\\' the folder is "". */
  function SplitRequest(request: string): (r: (string, string))
    ensures '\\' !in r.1
    ensures var n := Replace(request, '/', '\\');
      || ('\\' !in n && r == ("", n))
      || ('\\' in n && n == r.0 + "\\" + r.1)
  {
    var normalized := Replace(request, '/', '\\');
    LastIndexCuts(normalized, '\\');
    match LastIndexIn(normalized, {'\\'})
    case None => ("", normalized)
    case Some(idx) => (normalized[..idx], normalized[idx + 1..])
  }

  /** The test `extract_file` applies as written: folder and file name equal the request's,
      ignoring ASCII case. It accepts nothing the corrected test rejects, and misses only
      files of the root folder "." requested without a folder. */
  predicate MatchesAsWritten(e: Located, dir: string, name: string): (r: bool)
    ensures r ==> Matches(e, dir, name)
    ensures Matches(e, dir, name) && !r ==> dir == "" && e.dir == "."
  {
    EqIgnoreCase(e.dir, dir) && EqIgnoreCase(e.name, name)
  }

  /** The corrected test: a request without a folder also finds files of the root folder
      ".", which `list_files` reports without a folder. */
  predicate Matches(e: Located, dir: string, name: string) {
    (EqIgnoreCase(e.dir, dir) || (dir == "" && e.dir == ".")) && EqIgnoreCase(e.name, name)
  }

  /** The first pair the as-written search accepts. */
  function FirstMatchAsWritten(ps: seq<Located>, dir: string, name: string): (r: Option<nat>)
    ensures r.Some? ==> r.value < |ps| && MatchesAsWritten(ps[r.value], dir, name)
    ensures r.None? ==> forall k :: 0 <= k < |ps| ==> !MatchesAsWritten(ps[k], dir, name)
  {
    if |ps| == 0 then None
    else if MatchesAsWritten(ps[0], dir, name) then Some(0)
    else match FirstMatchAsWritten(ps[1..], dir, name)
      case None => None
      case Some(k) => Some(k + 1)
  }

  /** As written, a file of the root folder "." cannot be extracted under the path
      `list_files` reports for it. */
  lemma RootFileNotFoundAsWritten()
    ensures var a := [Folder(".", [("a.txt", BsaFile([], false))])];
            && Paths(Entries(a)) == ["a.txt"]
            && FirstMatchAsWritten(Pairs(a), SplitRequest("a.txt").0, SplitRequest("a.txt").1).None?
  {
    var a := [Folder(".", [("a.txt", BsaFile([], false))])];
    assert a[..0] == [];
    assert Pairs(a) == [Located(".", "a.txt", BsaFile([], false))];
    assert Replace("a.txt", '/', '\\') == "a.txt";
    assert SplitRequest("a.txt") == ("", "a.txt");
    assert Lower(".") != Lower("") by { assert |Lower(".")| == 1; }
  }

  /** The stored bytes, decompressed when the entry is compressed. */
  function Decoded(f: BsaFile, decompress: Bytes -> Option<Bytes>): (r: Option<Bytes>)
    ensures !f.compressed ==> r == Some(f.data)
  {
    if f.compressed then decompress(f.data) else Some(f.data)
  }

  /** `extract_file` (with the corrected folder test): the decoded bytes of the first pair
      that matches the split request, else a not-found error. */
  method ExtractFile(a: BsaArchive, request: string, decompress: Bytes -> Option<Bytes>)
    returns (r: Result<Bytes, ArchiveError>)
    ensures var (dir, name) := SplitRequest(request);
      && (r == Err(NotFound(request)) <==> forall k :: 0 <= k < |Pairs(a)| ==> !Matches(Pairs(a)[k], dir, name))
      && (r != Err(NotFound(request)) ==>
            exists k :: 0 <= k < |Pairs(a)| && Matches(Pairs(a)[k], dir, name)
                        && (forall j :: 0 <= j < k ==> !Matches(Pairs(a)[j], dir, name))
                        && r == (match Decoded(Pairs(a)[k].file, decompress)
                                 case Some(d) => Ok(d)
                                 case None => Err(DecodeFailed(request))))
  {
    var (dir, name) := SplitRequest(request);
    var i := 0;
    while i < |a|
      invariant i <= |a|
      invariant NoMatch(Pairs(a[..i]), dir, name)
    {
      var folder := a[i];
      ghost var fp := FolderPairs(folder);
      var j := 0;
      if EqIgnoreCase(folder.name, dir) || (dir == "" && folder.name == ".") {
        while j < |folder.files|
          invariant j <= |folder.files|
          invariant forall j' :: 0 <= j' < j ==> !Matches(fp[j'], dir, name)
        {
          if EqIgnoreCase(folder.files[j].0, name) {
            FoundAt(a, i, j, dir, name);
            match Decoded(folder.files[j].1, decompress)
            case None =>
              return Err(DecodeFailed(request));
            case Some(bytes) =>
              return Ok(bytes);
          }
          j := j + 1;
        }
      }
      NoMatchExtend(a, i, dir, name);
      i := i + 1;
    }
    assert a[..i] == a;
    return Err(NotFound(request));
  }

  /** No pair of `ps` matches the split request. */
  predicate NoMatch(ps: seq<Located>, dir: string, name: string) {
    forall k :: 0 <= k < |ps| ==> !Matches(ps[k], dir, name)
  }

  lemma NoMatchExtend(a: BsaArchive, i: nat, dir: string, name: string)
    requires i < |a|
    requires NoMatch(Pairs(a[..i]), dir, name)
    requires forall j :: 0 <= j < |a[i].files| ==> !Matches(FolderPairs(a[i])[j], dir, name)
    ensures NoMatch(Pairs(a[..i + 1]), dir, name)
  {
    PairsPrefix(a, i);
    var ps := Pairs(a[..i]);
    var next := Pairs(a[..i + 1]);
    forall k | 0 <= k < |next| ensures !Matches(next[k], dir, name) {
      if k >= |ps| {
        assert next[k] == FolderPairs(a[i])[k - |ps|];
      }
    }
  }

  lemma FoundAt(a: BsaArchive, i: nat, j: nat, dir: string, name: string)
    requires i < |a| && j < |a[i].files|
    requires NoMatch(Pairs(a[..i]), dir, name)
    requires forall j' :: 0 <= j' < j ==> !Matches(FolderPairs(a[i])[j'], dir, name)
    requires Matches(FolderPairs(a[i])[j], dir, name)
    ensures var k := |Pairs(a[..i])| + j;
      && k < |Pairs(a)| && Pairs(a)[k] == Located(a[i].name, a[i].files[j].0, a[i].files[j].1)
      && Matches(Pairs(a)[k], dir, name)
      && (forall k' :: 0 <= k' < k ==> !Matches(Pairs(a)[k'], dir, name))
  {
    PairsPrefix(a, i);
    PairsOfPrefix(a, i + 1);
    var ps := Pairs(a[..i]);
    var k := |ps| + j;
    assert Pairs(a)[k] == Pairs(a[..i + 1])[k];
    forall k' | 0 <= k' < k ensures !Matches(Pairs(a)[k'], dir, name) {
      assert Pairs(a)[k'] == Pairs(a[..i + 1])[k'];
      if k' >= |ps| {
        assert Pairs(a[..i + 1])[k'] == FolderPairs(a[i])[k' - |ps|];
      } else {
        assert Pairs(a[..i + 1])[k'] == ps[k'];
      }
    }
  }

  /** The pairs of a prefix of the folders are a prefix of the pairs. */
  lemma {:induction false} PairsOfPrefix(a: BsaArchive, i: nat)
    requires i <= |a|
    ensures |Pairs(a[..i])| <= |Pairs(a)|
    ensures Pairs(a[..i]) == Pairs(a)[..|Pairs(a[..i])|]
    decreases |a| - i
  {
    if i < |a| {
      PairsOfPrefix(a, i + 1);
      PairsPrefix(a, i);
    } else {
      assert a[..i] == a;
    }
  }

  /** Every listed path is found again by the corrected `extract_file`, at that pair or an
      earlier one, provided names use '\\' only as the folder separator. */
  lemma {:induction false} ListedPathIsFound(a: BsaArchive, k: nat)
    requires k < |Pairs(a)|
    requires '/' !in Pairs(a)[k].dir && '/' !in Pairs(a)[k].name && '\\' !in Pairs(a)[k].name
    ensures var (dir, name) := SplitRequest(Entries(a)[k].path);
            Matches(Pairs(a)[k], dir, name)
  {
    var e := Pairs(a)[k];
    var p := FullPath(e.dir, e.name);
    assert Entries(a)[k].path == p;
    assert Replace(p, '/', '\\') == p;
    if e.dir == "" || e.dir == "." {
      assert LastIndexIn(p, {'\\'}).None?;
      assert SplitRequest(p) == ("", e.name);
    } else {
      assert LastIndexIn(p, {'\\'}) == Some(|e.dir|);
      assert SplitRequest(p) == (e.dir, e.name);
    }
  }

  /** The batch lookup key of an entry: its full path, lower-cased. */
  function BsaLookup(path: string): string {
    Lower(path)
  }

  /** `extract_files_batch`: the pairs whose lower-cased full path is wanted, each decoded
      and handed to `sink` under its original full path. */
  method ExtractFilesBatch(a: BsaArchive, wanted: set<string>, decompress: Bytes -> Option<Bytes>,
                           sink: (string, Bytes) -> bool)
    returns (r: Result<nat, ArchiveError>)
    ensures BatchOutcome(Matching(Entries(a), BsaLookup, wanted), f => Decoded(f, decompress), sink, r)
  {
    var es := CollectEntries(a);
    var selected := Select(es, BsaLookup, wanted);
    r := Deliver(selected, f => Decoded(f, decompress), sink);
  }

  /** The nested folder/file loop that builds each pair's full path. */
  method CollectEntries(a: BsaArchive) returns (es: seq<Pending<BsaFile>>)
    ensures es == Entries(a)
  {
    es := [];
    var i := 0;
    while i < |a|
      invariant i <= |a|
      invariant es == Entries(a[..i])
    {
      PairsPrefix(a, i);
      var folder := a[i];
      ghost var base := |Pairs(a[..i])|;
      ghost var full := Entries(a[..i + 1]);
      assert |full| == base + |folder.files|;
      var j := 0;
      while j < |folder.files|
        invariant j <= |folder.files|
        invariant es == full[..base + j]
      {
        assert Pairs(a[..i + 1])[base + j] == FolderPairs(folder)[j];
        assert full[..base + j + 1] == full[..base + j] + [full[base + j]];
        es := es + [Pending(FullPath(folder.name, folder.files[j].0), folder.files[j].1)];
        j := j + 1;
      }
      assert full[..base + j] == full;
      i := i + 1;
    }
    assert a[..i] == a;
  }
}
