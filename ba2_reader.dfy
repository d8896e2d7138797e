/** Reading FO4-format BA2 archives: listing, single-file lookup that ignores
    case and separator style, and batch extraction. An entry's stored form is
    opaque; the codec's `write`, which turns it back into file contents, is a
    parameter. */
module Ba2Reader {
  import opened Common
  import opened Text
  import opened Batch

  /** The stored (possibly chunked and compressed) form of a BA2 entry. */
  type Ba2Stored = Bytes

  /** A BA2 archive as the codec iterates it. */
  type Ba2Archive = seq<Pending<Ba2Stored>>

  /** `list_files`: every key name, verbatim, in iteration order. */
  method ListFiles(a: Ba2Archive) returns (paths: seq<string>)
    ensures paths == Paths(a)
  {
    paths := ListPaths(a);
  }

  /** A path with case and separator style folded away. */
  function Canonical(s: string): (r: string)
    ensures '\\' !in r
  {
    ReplaceRemoves(Lower(s), '\\', '/');
    Replace(Lower(s), '\\', '/')
  }

  lemma SeparatorFold(s: string)
    ensures Replace(Replace(s, '/', '\\'), '\\', '/') == Replace(s, '\\', '/')
  {
  }

  /** The four-way test of `extract_file`: the lower-cased key equals the request in the
      '/' convention or the '\\' convention, directly or after converting the key. The four
      alternatives amount to one test: the key and the request agree once case and
      separators are folded. */
  predicate Ba2Matches(key: string, request: string): (r: bool)
    ensures r <==> Canonical(key) == Canonical(request)
  {
    var current := Lower(key);
    var normalized := Lower(Replace(request, '\\', '/'));
    var normalizedBackslash := Lower(Replace(request, '/', '\\'));
    LowerReplaceCommute(request, '\\', '/');
    LowerReplaceCommute(request, '/', '\\');
    assert normalized == Canonical(request);
    ReplaceRemoves(Lower(request), '\\', '/');
    assert Replace(normalized, '\\', '/') == normalized;
    SeparatorFold(Lower(request));
    SeparatorFold(current);
    assert current == normalized ==> Canonical(key) == Replace(normalized, '\\', '/');
    assert current == normalizedBackslash ==> Canonical(key) == Replace(normalizedBackslash, '\\', '/');
    assert Replace(current, '/', '\\') == normalizedBackslash ==>
      Replace(Replace(current, '/', '\\'), '\\', '/') == Replace(normalizedBackslash, '\\', '/');
    || current == normalized
    || current == normalizedBackslash
    || Replace(current, '\\', '/') == normalized
    || Replace(current, '/', '\\') == normalizedBackslash
  }

  /** `extract_file`: the written-out contents of the first matching key; a key whose
      contents the codec cannot write is an error, and so is a request nothing matches. */
  method ExtractFile(a: Ba2Archive, request: string, write: Ba2Stored -> Option<Bytes>)
    returns (r: Result<Bytes, ArchiveError>)
    ensures r == Err(NotFound(request)) <==> forall k :: 0 <= k < |a| ==> !Ba2Matches(a[k].path, request)
    ensures r != Err(NotFound(request)) ==>
      exists k :: 0 <= k < |a| && Ba2Matches(a[k].path, request)
                  && (forall j :: 0 <= j < k ==> !Ba2Matches(a[j].path, request))
                  && r == (if write(a[k].file).Some? then Ok(write(a[k].file).value) else Err(DecodeFailed(request)))
  {
    var normalized := Lower(Replace(request, '\\', '/'));
    var normalizedBackslash := Lower(Replace(request, '/', '\\'));
    var k := 0;
    while k < |a|
      invariant k <= |a|
      invariant forall j :: 0 <= j < k ==> !Ba2Matches(a[j].path, request)
    {
      var current := Lower(a[k].path);
      if current == normalized || current == normalizedBackslash
         || Replace(current, '\\', '/') == normalized || Replace(current, '/', '\\') == normalizedBackslash
      {
        match write(a[k].file)
        case None =>
          return Err(DecodeFailed(request));
        case Some(data) =>
          return Ok(data);
      }
      k := k + 1;
    }
    return Err(NotFound(request));
  }

  /** The batch lookup key of an entry: '\\' becomes '/', then lower-cased. */
  function Ba2Lookup(path: string): string {
    Lower(Replace(path, '\\', '/'))
  }

  /** The batch lookup key is the folded form of the name, so two names that `extract_file`
      treats as the same are selected together. */
  lemma Ba2LookupIsCanonical(path: string)
    ensures Ba2Lookup(path) == Canonical(path)
  {
    LowerReplaceCommute(path, '\\', '/');
  }

  /** `extract_files_batch`: the entries whose lookup key is wanted, each written out by the
      codec and handed to `sink` under its original name. */
  method ExtractFilesBatch(a: Ba2Archive, wanted: set<string>, write: Ba2Stored -> Option<Bytes>,
                           sink: (string, Bytes) -> bool)
    returns (r: Result<nat, ArchiveError>)
    ensures BatchOutcome(Matching(a, Ba2Lookup, wanted), write, sink, r)
  {
    var selected := Select(a, Ba2Lookup, wanted);
    r := Deliver(selected, write, sink);
  }
}
