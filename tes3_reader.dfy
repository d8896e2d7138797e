/** Reading Morrowind (TES3) BSA archives: listing, single-file lookup and
    batch extraction. The archive is the codec's key sequence in iteration
    order; TES3 entries are stored uncompressed, so an entry's bytes are its
    contents. */
module Tes3Reader {
  import opened Common
  import opened Text
  import opened Batch

  /** A TES3 archive as the codec iterates it: each key with its raw bytes. */
  type Tes3Archive = seq<Pending<Bytes>>

  /** `list_files`: every key name, verbatim, in iteration order. */
  method ListFiles(a: Tes3Archive) returns (paths: seq<string>)
    ensures paths == Paths(a)
  {
    paths := ListPaths(a);
  }

  /** The request test of `extract_file`: '/' in the request becomes '\\', then the key
      must equal it ignoring ASCII case. So a match has the request's length, and a key
      spelled with '/' is never matched. */
  predicate Tes3Matches(key: string, request: string): (r: bool)
    ensures r ==> |key| == |request|
    ensures '/' in key ==> !r
  {
    var normalized := Replace(request, '/', '\\');
    ReplaceRemoves(request, '/', '\\');
    LowerKeepsNonLetter(normalized, '/');
    LowerKeepsNonLetter(key, '/');
    EqIgnoreCase(key, normalized)
  }

  /** A request matches the same keys whatever its case and whichever separator it uses. */
  lemma Tes3MatchesNormalisedRequest(key: string, request: string)
    ensures Tes3Matches(key, Lower(request)) == Tes3Matches(key, request)
    ensures Tes3Matches(key, Replace(request, '\\', '/')) == Tes3Matches(key, request)
  {
    LowerReplaceCommute(request, '/', '\\');
    assert Replace(Lower(request), '/', '\\') == Lower(Replace(request, '/', '\\'));
    LowerIdempotent(Replace(request, '/', '\\'));
    assert Replace(Replace(request, '\\', '/'), '/', '\\') == Replace(request, '/', '\\');
  }

  /** A listed key that uses no '/' is found again by its own name. */
  lemma Tes3ListedKeyMatches(key: string)
    requires '/' !in key
    ensures Tes3Matches(key, key)
  {
    assert Replace(key, '/', '\\') == key;
  }

  /** `extract_file`: the bytes of the first matching key, else a not-found error. */
  method ExtractFile(a: Tes3Archive, request: string) returns (r: Result<Bytes, ArchiveError>)
    ensures r.Err? <==> forall k :: 0 <= k < |a| ==> !Tes3Matches(a[k].path, request)
    ensures r.Err? ==> r.error == NotFound(request)
    ensures r.Ok? ==> exists k :: 0 <= k < |a| && Tes3Matches(a[k].path, request)
                                 && (forall j :: 0 <= j < k ==> !Tes3Matches(a[j].path, request))
                                 && r.value == a[k].file
  {
    var normalized := Replace(request, '/', '\\');
    var k := 0;
    while k < |a|
      invariant k <= |a|
      invariant forall j :: 0 <= j < k ==> !Tes3Matches(a[j].path, request)
    {
      if EqIgnoreCase(a[k].path, normalized) {
        return Ok(a[k].file);
      }
      k := k + 1;
    }
    return Err(NotFound(request));
  }

  /** The batch lookup key of an entry: its lower-cased name. */
  function Tes3Lookup(path: string): string {
    Lower(path)
  }

  /** TES3 entries need no decoding. */
  function Raw(data: Bytes): Option<Bytes> {
    Some(data)
  }

  /** `extract_files_batch`: the entries whose lower-cased name is wanted, each handed to
      `sink` under its original name. */
  method ExtractFilesBatch(a: Tes3Archive, wanted: set<string>, sink: (string, Bytes) -> bool)
    returns (r: Result<nat, ArchiveError>)
    ensures BatchOutcome(Matching(a, Tes3Lookup, wanted), Raw, sink, r)
  {
    var selected := Select(a, Tes3Lookup, wanted);
    r := Deliver(selected, Raw, sink);
  }
}
