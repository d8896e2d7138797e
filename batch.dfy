/** The two phases every reader's batch extraction shares: selecting the
    entries whose normalised path is in the wanted set (in archive order), and
    decoding each selected entry and handing it to the caller's sink. The
    source runs the second phase in parallel; here it runs in order. */
module Batch {
  import opened Common

  /** An archive entry as a reader lists it: the path it reports and the stored form. */
  datatype Pending<F> = Pending(path: string, file: F)

  /** The reported paths, in order. */
  function Paths<F>(es: seq<Pending<F>>): (r: seq<string>)
    ensures |r| == |es|
    ensures forall k :: 0 <= k < |es| ==> r[k] == es[k].path
  {
    seq(|es|, k requires 0 <= k < |es| => es[k].path)
  }

  /** The listing loop every reader's `list_files` runs: one path per entry, in order. */
  method ListPaths<F>(es: seq<Pending<F>>) returns (paths: seq<string>)
    ensures paths == Paths(es)
  {
    paths := [];
    var k := 0;
    while k < |es|
      invariant k <= |es|
      invariant paths == Paths(es[..k])
    {
      paths := paths + [es[k].path];
      k := k + 1;
    }
    assert es[..k] == es;
  }

  /** The entries whose lookup key is wanted, in archive order. */
  function Matching<F>(es: seq<Pending<F>>, lookup: string -> string, wanted: set<string>): (r: seq<Pending<F>>)
    ensures |r| <= |es|
    ensures forall e :: e in r ==> e in es && lookup(e.path) in wanted
    ensures forall e :: e in es && lookup(e.path) in wanted ==> e in r
  {
    if |es| == 0 then []
    else
      var last := es[|es| - 1];
      var init := es[..|es| - 1];
      assert es == init + [last];
      Matching(init, lookup, wanted) + (if lookup(last.path) in wanted then [last] else [])
  }

  /** The lookup keys of a sequence of entries. */
  ghost function LookupKeys<F>(es: seq<Pending<F>>, lookup: string -> string): set<string> {
    if |es| == 0 then {} else LookupKeys(es[..|es| - 1], lookup) + {lookup(es[|es| - 1].path)}
  }

  /** No entry shares its lookup key with an earlier one. */
  ghost predicate DistinctLookups<F>(es: seq<Pending<F>>, lookup: string -> string) {
    |es| == 0 ||
    (DistinctLookups(es[..|es| - 1], lookup) && lookup(es[|es| - 1].path) !in LookupKeys(es[..|es| - 1], lookup))
  }

  /** When the lookup keys are distinct, at most one entry is selected per wanted key. */
  lemma MatchingBoundedByWanted<F>(es: seq<Pending<F>>, lookup: string -> string, wanted: set<string>)
    requires DistinctLookups(es, lookup)
    ensures |Matching(es, lookup, wanted)| <= |wanted|
  {
    MatchingKeys(es, lookup, wanted);
    SubsetCardinality(LookupKeys(Matching(es, lookup, wanted), lookup), wanted);
  }

  lemma {:induction false} SubsetCardinality<T>(a: set<T>, b: set<T>)
    requires a <= b
    ensures |a| <= |b|
  {
    if a != {} {
      var x :| x in a;
      SubsetCardinality(a - {x}, b - {x});
    }
  }

  /** The selected entries have as many distinct keys as there are entries, all wanted. */
  lemma {:induction false} MatchingKeys<F>(es: seq<Pending<F>>, lookup: string -> string, wanted: set<string>)
    requires DistinctLookups(es, lookup)
    ensures LookupKeys(Matching(es, lookup, wanted), lookup) <= wanted
    ensures LookupKeys(Matching(es, lookup, wanted), lookup) <= LookupKeys(es, lookup)
    ensures |LookupKeys(Matching(es, lookup, wanted), lookup)| == |Matching(es, lookup, wanted)|
  {
    if |es| > 0 {
      var last := es[|es| - 1];
      var init := es[..|es| - 1];
      MatchingKeys(init, lookup, wanted);
      var m := Matching(init, lookup, wanted);
      assert LookupKeys(es, lookup) == LookupKeys(init, lookup) + {lookup(last.path)};
      if lookup(last.path) in wanted {
        var r := m + [last];
        assert Matching(es, lookup, wanted) == r;
        assert r[..|r| - 1] == m;
        assert LookupKeys(r, lookup) == LookupKeys(m, lookup) + {lookup(last.path)};
        assert lookup(last.path) !in LookupKeys(m, lookup);
      } else {
        assert Matching(es, lookup, wanted) == m;
      }
    }
  }

  /** If every entry's key is wanted, every entry is selected, in order. */
  lemma {:induction false} MatchingAll<F>(es: seq<Pending<F>>, lookup: string -> string, wanted: set<string>)
    requires forall k :: 0 <= k < |es| ==> lookup(es[k].path) in wanted
    ensures Matching(es, lookup, wanted) == es
  {
    if |es| > 0 {
      var init := es[..|es| - 1];
      MatchingAll(init, lookup, wanted);
      assert es == init + [es[|es| - 1]];
    }
  }

  /** Entry `e` was decoded and accepted by the sink. */
  predicate Delivered<F>(e: Pending<F>, decode: F -> Option<Bytes>, sink: (string, Bytes) -> bool) {
    decode(e.file).Some? && sink(e.path, decode(e.file).value)
  }

  /** The error reported for an entry that was not delivered. */
  function Failure<F>(e: Pending<F>, decode: F -> Option<Bytes>): ArchiveError {
    if decode(e.file).None? then DecodeFailed(e.path) else CallbackFailed(e.path)
  }

  /** What a batch pass over `selected` promises: success exactly when every entry is
      delivered, with the count of selected entries; otherwise the error of some entry
      that failed (the parallel source does not fix which one). */
  predicate BatchOutcome<F>(selected: seq<Pending<F>>, decode: F -> Option<Bytes>,
                            sink: (string, Bytes) -> bool, r: Result<nat, ArchiveError>)
  {
    && (r.Ok? <==> forall k :: 0 <= k < |selected| ==> Delivered(selected[k], decode, sink))
    && (r.Ok? ==> r.value == |selected|)
    && (r.Err? ==> exists k :: 0 <= k < |selected| && !Delivered(selected[k], decode, sink)
                                && r.error == Failure(selected[k], decode))
  }

  /** The decode-and-deliver phase, one entry after another; the first failure ends it. */
  method Deliver<F>(selected: seq<Pending<F>>, decode: F -> Option<Bytes>, sink: (string, Bytes) -> bool)
    returns (r: Result<nat, ArchiveError>)
    ensures BatchOutcome(selected, decode, sink, r)
  {
    var extracted := 0;
    while extracted < |selected|
      invariant extracted <= |selected|
      invariant forall k :: 0 <= k < extracted ==> Delivered(selected[k], decode, sink)
    {
      var e := selected[extracted];
      match decode(e.file)
      case None =>
        return Err(DecodeFailed(e.path));
      case Some(data) =>
        if !sink(e.path, data) {
          return Err(CallbackFailed(e.path));
        }
      extracted := extracted + 1;
    }
    return Ok(extracted);
  }

  /** The selection loop every reader runs: keep the entries whose lookup key is wanted. */
  method Select<F>(es: seq<Pending<F>>, lookup: string -> string, wanted: set<string>)
    returns (selected: seq<Pending<F>>)
    ensures selected == Matching(es, lookup, wanted)
  {
    selected := [];
    var k := 0;
    while k < |es|
      invariant k <= |es|
      invariant selected == Matching(es[..k], lookup, wanted)
    {
      assert es[..k + 1][..k] == es[..k];
      if lookup(es[k].path) in wanted {
        selected := selected + [es[k]];
      }
      k := k + 1;
    }
    assert es[..k] == es;
  }
}
