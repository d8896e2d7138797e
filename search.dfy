/** The tree view's search filter: `matches_search` of the application state.
    An empty filter matches every node; otherwise filter and path are compared
    lower-cased, by substring containment when the filter has no '*', and as a
    '*'-wildcard pattern when it has one. The pattern test places the pieces
    between the '*'s left to right, each at the leftmost place after the
    previous one. */
module Search {
  import opened Common
  import opened Text

  /** `p` occurs in the rest of `t` after `pos` exactly where it occurs in `t` shifted by
      `pos`. */
  lemma OccursShift(t: string, p: string, pos: nat, j: nat)
    requires pos <= |t|
    ensures OccursAt(t[pos..], p, j) <==> OccursAt(t, p, pos + j)
  {
    if 0 <= j && j + |p| <= |t| - pos {
      assert t[pos..][j..j + |p|] == t[pos + j..pos + j + |p|];
    }
  }

  /** The search loop without backtracking: each piece of `qs` is looked up with `find` in
      the text after the end of the previous one; the end of the last piece, or None when
      a piece is missing. An empty piece stays where it is, as if skipped. */
  function Leftmost(qs: seq<string>, t: string, pos: nat): (r: Option<nat>)
    requires pos <= |t|
    ensures r.Some? ==> pos <= r.value <= |t|
    decreases |qs|
  {
    if qs == [] then Some(pos)
    else
      match IndexOf(t[pos..], qs[0])
      case None => None
      case Some(found) => Leftmost(qs[1..], t, pos + found + |qs[0]|)
  }

  /** The pieces `qs` can be placed one after another, without overlapping, inside
      `t[pos..lim]`. */
  ghost predicate FitsIn(qs: seq<string>, t: string, pos: int, lim: int)
    decreases |qs|
  {
    if qs == [] then pos <= lim
    else
      exists j :: pos <= j && j + |qs[0]| <= lim && OccursAt(t, qs[0], j)
                  && FitsIn(qs[1..], t, j + |qs[0]|, lim)
  }

  /** Room that is left for the pieces from a later start is also there from an earlier
      one. */
  lemma FitsWeaken(qs: seq<string>, t: string, pos: int, pos': int, lim: int)
    requires pos' <= pos && FitsIn(qs, t, pos, lim)
    ensures FitsIn(qs, t, pos', lim)
  {
    if qs != [] {
      var j :| pos <= j && j + |qs[0]| <= lim && OccursAt(t, qs[0], j) && FitsIn(qs[1..], t, j + |qs[0]|, lim);
      assert pos' <= j;
    }
  }

  /** `find` after `pos` reaches any later occurrence, at it or before it; the search then
      goes on from `next`, past the piece found. */
  lemma FoundNoLater(t: string, q: string, pos: nat, j: nat) returns (next: nat)
    requires pos <= j && OccursAt(t, q, j)
    ensures IndexOf(t[pos..], q).Some? && next == pos + IndexOf(t[pos..], q).value + |q|
    ensures next <= j + |q| <= |t|
  {
    OccursShift(t, q, pos, j - pos);
    next := pos + IndexOf(t[pos..], q).value + |q|;
  }

  /** Where the first of the pieces goes in a placement. */
  lemma FitsFirst(qs: seq<string>, t: string, pos: int, lim: int) returns (j: nat)
    requires qs != [] && FitsIn(qs, t, pos, lim)
    ensures pos <= j && j + |qs[0]| <= lim && OccursAt(t, qs[0], j) && FitsIn(qs[1..], t, j + |qs[0]|, lim)
  {
    j :| pos <= j && j + |qs[0]| <= lim && OccursAt(t, qs[0], j) && FitsIn(qs[1..], t, j + |qs[0]|, lim);
  }

  /** Leftmost placement never misses: if the pieces fit before `lim`, the search finds
      them all and ends no later than `lim`. */
  lemma {:induction false} LeftmostComplete(qs: seq<string>, t: string, pos: nat, lim: int)
    requires pos <= |t| && lim <= |t|
    requires FitsIn(qs, t, pos, lim)
    ensures Leftmost(qs, t, pos).Some? && Leftmost(qs, t, pos).value <= lim
    decreases |qs|
  {
    if qs != [] {
      var q := qs[0];
      var j := FitsFirst(qs, t, pos, lim);
      var next := FoundNoLater(t, q, pos, j);
      assert Leftmost(qs, t, pos) == Leftmost(qs[1..], t, next);
      FitsWeaken(qs[1..], t, j + |q|, next, lim);
      LeftmostComplete(qs[1..], t, next, lim);
    }
  }

  /** What leftmost placement finds is a placement. */
  lemma {:induction false} LeftmostSound(qs: seq<string>, t: string, pos: nat, lim: int)
    requires pos <= |t|
    requires Leftmost(qs, t, pos).Some? && Leftmost(qs, t, pos).value <= lim
    ensures FitsIn(qs, t, pos, lim)
    decreases |qs|
  {
    if qs != [] {
      var q := qs[0];
      var found := IndexOf(t[pos..], q).value;
      var j := pos + found;
      OccursShift(t, q, pos, found);
      LeftmostSound(qs[1..], t, j + |q|, lim);
      assert OccursAt(t, q, j) && FitsIn(qs[1..], t, j + |q|, lim);
    }
  }

  /** An empty last piece (a filter ending in '*') changes nothing. */
  lemma {:induction false} LeftmostEmptyLast(qs: seq<string>, t: string, pos: nat)
    requires pos <= |t|
    ensures Leftmost(qs + [""], t, pos) == Leftmost(qs, t, pos)
    decreases |qs|
  {
    if qs == [] {
      assert IndexOf(t[pos..], "") == Some(0);
    } else {
      assert (qs + [""])[1..] == qs[1..] + [""];
      match IndexOf(t[pos..], qs[0])
      case None =>
      case Some(found) => LeftmostEmptyLast(qs[1..], t, pos + found + |qs[0]|);
    }
  }

  /** The last piece of a split is what follows the last separator; so, when the
      separator occurs, it is empty exactly when the string ends with the separator. */
  lemma SplitLastEmpty(s: string, c: char)
    requires c in s
    ensures var ps := Split(s, c); ps[|ps| - 1] == [] <==> EndsWith(s, [c])
  {
    match LastIndexIn(s, {c})
    case Some(k) =>
      assert Split(s, c)[|Split(s, c)| - 1] == s[k + 1..];
      if EndsWith(s, [c]) {
        assert s[|s| - 1] == c;
      }
    case None =>
  }

  /** The pattern test as the source has it, on the pieces of the lower-cased filter: the
      first piece starts the text, every later piece, the last one included, is placed by
      leftmost search, and without a trailing '*' the search must stop at the end. */
  predicate AsWrittenPieces(parts: seq<string>, text: string, trailingStar: bool)
    requires |parts| >= 1
  {
    && IndexOf(text, parts[0]) == Some(0)
    && match Leftmost(parts[1..], text, |parts[0]|)
       case None => false
       case Some(pos) => trailingStar || pos == |text|
  }

  /** `matches_search` as the source has it. It never accepts a path the corrected test
      rejects: its flaw only loses matches. */
  predicate MatchesAsWritten(filter: string, path: string): (r: bool)
    ensures r ==> Matches(filter, path)
  {
    if filter == [] then true
    else
      var search := Lower(filter);
      var text := Lower(path);
      if '*' in search then
        AsWrittenPiecesSound(search, text);
        AsWrittenPieces(Split(search, '*'), text, EndsWith(search, "*"))
      else
        Contains(text, search)
  }

  /** One step of the search: a piece found `found` places after `pos` moves the search
      past it. */
  lemma LeftmostStep(qs: seq<string>, t: string, pos: nat, found: nat)
    requires pos <= |t| && qs != [] && IndexOf(t[pos..], qs[0]) == Some(found)
    ensures pos + found + |qs[0]| <= |t|
    ensures Leftmost(qs, t, pos) == Leftmost(qs[1..], t, pos + found + |qs[0]|)
  {
  }

  /** A single piece placed at `e`: it occurs just before `e`. */
  lemma LeftmostSingle(x: string, t: string, pos: nat, e: nat)
    requires pos <= |t| && Leftmost([x], t, pos) == Some(e)
    ensures pos + |x| <= e && OccursAt(t, x, e - |x|)
  {
    assert IndexOf(t[pos..], x).Some?;
    var found := IndexOf(t[pos..], x).value;
    LeftmostStep([x], t, pos, found);
    assert [x][1..] == [];
    OccursShift(t, x, pos, found);
  }

  /** When the leftmost placement of `qs` and then `x` ends at `e`, the placement of `qs`
      alone ends in time for `x`, and `x` occurs just before `e`. */
  lemma {:induction false} LeftmostLastPiece(qs: seq<string>, x: string, t: string, pos: nat, e: nat)
    requires pos <= |t| && Leftmost(qs + [x], t, pos) == Some(e)
    ensures Leftmost(qs, t, pos).Some? && Leftmost(qs, t, pos).value + |x| <= e
    ensures OccursAt(t, x, e - |x|)
    decreases |qs|, 1
  {
    if |qs| == 0 {
      assert qs + [x] == [x];
      LeftmostSingle(x, t, pos, e);
    } else {
      LeftmostLastPieceAfterFirst(qs, x, t, pos, e);
    }
  }

  /** The step of `LeftmostLastPiece`: the first piece is found, and the rest follows. */
  lemma {:induction false} LeftmostLastPieceAfterFirst(qs: seq<string>, x: string, t: string, pos: nat, e: nat)
    requires pos <= |t| && qs != [] && Leftmost(qs + [x], t, pos) == Some(e)
    ensures Leftmost(qs, t, pos).Some? && Leftmost(qs, t, pos).value + |x| <= e
    ensures OccursAt(t, x, e - |x|)
    decreases |qs|, 0
  {
    var next := LeftmostSharedFirst(qs, x, t, pos);
    LeftmostLastPiece(qs[1..], x, t, next, e);
  }

  /** `qs` and `qs + [x]` start alike: both searches go on from the same place. */
  lemma LeftmostSharedFirst(qs: seq<string>, x: string, t: string, pos: nat) returns (next: nat)
    requires pos <= |t| && qs != [] && Leftmost(qs + [x], t, pos).Some?
    ensures next <= |t|
    ensures Leftmost(qs + [x], t, pos) == Leftmost(qs[1..] + [x], t, next)
    ensures Leftmost(qs, t, pos) == Leftmost(qs[1..], t, next)
  {
    var y := qs + [x];
    assert y[0] == qs[0] && y[1..] == qs[1..] + [x];
    assert IndexOf(t[pos..], qs[0]).Some?;
    var found := IndexOf(t[pos..], qs[0]).value;
    LeftmostStep(y, t, pos, found);
    LeftmostStep(qs, t, pos, found);
    next := pos + found + |qs[0]|;
  }

  /** What the as-written test accepts, the corrected piece test accepts too. */
  lemma AsWrittenPiecesSound(search: string, text: string)
    requires '*' in search
    ensures AsWrittenPieces(Split(search, '*'), text, EndsWith(search, "*")) ==> PiecesMatch(Split(search, '*'), text)
  {
    var parts := Split(search, '*');
    var middle := parts[1..|parts| - 1];
    var last := parts[|parts| - 1];
    assert parts[1..] == middle + [last];
    if AsWrittenPieces(parts, text, EndsWith(search, "*")) {
      if EndsWith(search, "*") {
        SplitLastEmpty(search, '*');
        LeftmostEmptyLast(middle, text, |parts[0]|);
        assert EndsWith(text, last);
      } else {
        LeftmostLastPiece(middle, last, text, |parts[0]|, |text|);
        assert text[|text| - |last|..] == last;
      }
    }
  }

  /** `matches_search` with the last piece of a pattern that does not end in '*' required
      to end the text, after the pieces before it. */
  predicate Matches(filter: string, path: string) {
    if filter == [] then true
    else
      var search := Lower(filter);
      var text := Lower(path);
      if '*' in search then PiecesMatch(Split(search, '*'), text)
      else Contains(text, search)
  }

  /** The pattern test on the pieces of the lower-cased filter: the first piece starts the
      text, the middle ones follow by leftmost search, and the last piece ends the text
      after them. */
  predicate PiecesMatch(parts: seq<string>, text: string)
    requires |parts| >= 2
  {
    var last := parts[|parts| - 1];
    && IndexOf(text, parts[0]) == Some(0)
    && match Leftmost(parts[1..|parts| - 1], text, |parts[0]|)
       case None => false
       case Some(pos) => pos + |last| <= |text| && EndsWith(text, last)
  }

  /** The pattern meaning of the pieces: the text starts with the first piece, ends with
      the last one, and the middle pieces lie in order, without overlapping, in between. */
  ghost predicate PiecesFit(parts: seq<string>, text: string)
    requires |parts| >= 2
  {
    var first := parts[0];
    var last := parts[|parts| - 1];
    && |first| + |last| <= |text|
    && StartsWith(text, first)
    && EndsWith(text, last)
    && FitsIn(parts[1..|parts| - 1], text, |first|, |text| - |last|)
  }

  /** The reference meaning of a filter: ignoring case, the filter occurs in the path, or,
      when it holds '*', the path is the first piece, then the middle pieces in order with
      anything between them, then the last piece. */
  ghost predicate GlobMatch(filter: string, path: string) {
    if filter == [] then true
    else
      var search := Lower(filter);
      var text := Lower(path);
      if '*' in search then PiecesFit(Split(search, '*'), text)
      else exists j :: OccursAt(text, search, j)
  }

  /** The pattern test on the pieces is exactly their pattern meaning. */
  lemma PiecesMatchFit(parts: seq<string>, text: string)
    requires |parts| >= 2
    ensures PiecesMatch(parts, text) <==> PiecesFit(parts, text)
  {
    var first := parts[0];
    var last := parts[|parts| - 1];
    var middle := parts[1..|parts| - 1];
    assert IndexOf(text, first) == Some(0) <==> StartsWith(text, first) by {
      if StartsWith(text, first) {
        assert OccursAt(text, first, 0);
      }
    }
    if PiecesMatch(parts, text) {
      LeftmostSound(middle, text, |first|, |text| - |last|);
    }
    if PiecesFit(parts, text) {
      LeftmostComplete(middle, text, |first|, |text| - |last|);
    }
  }

  /** The corrected filter test is exactly the reference meaning. */
  lemma MatchesIsGlob(filter: string, path: string)
    ensures Matches(filter, path) <==> GlobMatch(filter, path)
  {
    if filter != [] {
      var search := Lower(filter);
      var text := Lower(path);
      if '*' in search {
        PiecesMatchFit(Split(search, '*'), text);
      }
    }
  }

  /** A filter ending in '*' is handled correctly as written: the two tests differ only
      for filters whose last piece is not empty. */
  lemma AsWrittenAgreesWithTrailingStar(filter: string, path: string)
    requires EndsWith(Lower(filter), "*")
    ensures MatchesAsWritten(filter, path) == Matches(filter, path)
  {
    var search := Lower(filter);
    var text := Lower(path);
    assert search[|search| - 1] == '*';
    var parts := Split(search, '*');
    SplitLastEmpty(search, '*');
    assert parts[1..] == parts[1..|parts| - 1] + [""];
    if IndexOf(text, parts[0]) == Some(0) {
      LeftmostEmptyLast(parts[1..|parts| - 1], text, |parts[0]|);
    }
  }

  lemma SplitStarS()
    ensures Split("*s", '*') == ["", "s"]
  {
    assert LastIndexIn("*s", {'*'}) == Some(0);
    assert "*s"[..0] == "";
    assert Split("", '*') == [""];
  }

  lemma FirstSInMeshes()
    ensures IndexOf("meshes", "s") == Some(2)
  {
    assert "meshes"[0..1][0] == 'm';
    assert "meshes"[1..2][0] == 'e';
    assert "meshes"[2..3] == "s";
    assert !OccursAt("meshes", "s", 0);
    assert !OccursAt("meshes", "s", 1);
    assert OccursAt("meshes", "s", 2);
  }

  lemma LowerExample()
    ensures Lower("*s") == "*s" && Lower("meshes") == "meshes"
  {
  }

  lemma LeftmostSInMeshes()
    ensures Leftmost(["s"], "meshes", 0) == Some(3)
  {
    FirstSInMeshes();
    assert "meshes"[0..] == "meshes";
    assert ["s"][1..] == [];
  }

  /** The source's test rejects "meshes" for the filter "*s" although the path ends with
      "s": the last piece is found at its first occurrence, which is not at the end. */
  lemma AsWrittenMissesSuffix()
    ensures !MatchesAsWritten("*s", "meshes")
    ensures Matches("*s", "meshes") && GlobMatch("*s", "meshes")
  {
    LowerExample();
    SplitStarS();
    assert IndexOf("meshes", "") == Some(0);
    assert ["", "s"][1..] == ["s"];
    LeftmostSInMeshes();
    assert !EndsWith("*s", "*");
    assert ["", "s"][1..1] == [];
    assert Leftmost([], "meshes", 0) == Some(0);
    assert EndsWith("meshes", "s");
    MatchesIsGlob("*s", "meshes");
  }

  /** The test ignores the case of the filter and of the path. */
  lemma MatchesIgnoresCase(filter: string, path: string)
    ensures Matches(Lower(filter), path) == Matches(filter, path)
    ensures Matches(filter, Lower(path)) == Matches(filter, path)
  {
    LowerIdempotent(filter);
    LowerIdempotent(path);
  }

  /** `matches_search`, with the last piece of a pattern checked against the end of the
      text: the loop over the pieces keeps the position after the last one placed. */
  method MatchesSearch(filter: string, path: string) returns (r: bool)
    ensures r == Matches(filter, path)
    ensures r <==> GlobMatch(filter, path)
  {
    MatchesIsGlob(filter, path);
    if filter == [] {
      return true;
    }
    var search := Lower(filter);
    var text := Lower(path);
    if '*' in search {
      var parts := Split(search, '*');
      r := PiecesSearch(parts, text, EndsWith(search, "*"));
      SplitLastEmpty(search, '*');
    } else {
      r := Contains(text, search);
    }
  }

  /** Where the loop over the pieces stands before piece `i`, with the search at `pos`:
      the first piece, once passed, starts the text; the middle pieces left to place lead
      where the whole leftmost search leads; and after the last piece the pattern test
      holds and, unless the last piece is empty, the search stands at the end of the text. */
  ghost predicate Searched(parts: seq<string>, text: string, i: nat, pos: nat)
    requires |parts| >= 2
  {
    var last := |parts| - 1;
    && i <= |parts| && pos <= |text|
    && (i == 0 ==> pos == 0)
    && (i >= 1 ==> IndexOf(text, parts[0]) == Some(0))
    && (1 <= i <= last ==> Leftmost(parts[1..last], text, |parts[0]|) == Leftmost(parts[i..last], text, pos))
    && (i == |parts| ==> PiecesMatch(parts, text) && (parts[last] == [] || pos == |text|))
  }

  /** An empty piece is skipped. */
  lemma SearchedEmpty(parts: seq<string>, text: string, i: nat, pos: nat)
    requires |parts| >= 2 && i < |parts| && parts[i] == [] && Searched(parts, text, i, pos)
    ensures Searched(parts, text, i + 1, pos)
  {
    var last := |parts| - 1;
    if i == 0 {
      assert IndexOf(text, "") == Some(0);
    } else if i < last {
      LeftmostSkip(parts[i..last], text, pos);
      assert parts[i..last][1..] == parts[i + 1..last];
    } else {
      assert parts[i..last] == [];
    }
  }

  /** A piece before the last one, found `found` characters after the search position:
      a first piece not at the start fails the test. */
  lemma SearchedFirstLate(parts: seq<string>, text: string, pos: nat, found: nat)
    requires |parts| >= 2 && parts[0] != [] && Searched(parts, text, 0, pos)
    requires IndexOf(text[pos..], parts[0]) == Some(found) && found != 0
    ensures !PiecesMatch(parts, text)
  {
    assert text[0..] == text;
  }

  /** Otherwise the search moves past it. */
  lemma SearchedFound(parts: seq<string>, text: string, i: nat, pos: nat, found: nat)
    requires |parts| >= 2 && i < |parts| - 1 && parts[i] != [] && Searched(parts, text, i, pos)
    requires IndexOf(text[pos..], parts[i]) == Some(found) && (i == 0 ==> found == 0)
    ensures pos + found + |parts[i]| <= |text| && Searched(parts, text, i + 1, pos + found + |parts[i]|)
  {
    var last := |parts| - 1;
    assert text[0..] == text;
    if i > 0 {
      assert parts[i..last][1..] == parts[i + 1..last];
    }
  }

  /** A piece before the last one that is missing after the search position fails the test. */
  lemma SearchedMissing(parts: seq<string>, text: string, i: nat, pos: nat)
    requires |parts| >= 2 && i < |parts| - 1 && parts[i] != [] && Searched(parts, text, i, pos)
    requires IndexOf(text[pos..], parts[i]).None?
    ensures !PiecesMatch(parts, text)
  {
    assert text[0..] == text;
  }

  /** The last, non-empty piece: the test holds exactly when it fits after the search
      position and ends the text. */
  lemma SearchedLast(parts: seq<string>, text: string, pos: nat)
    requires |parts| >= 2 && parts[|parts| - 1] != [] && Searched(parts, text, |parts| - 1, pos)
    ensures var part := parts[|parts| - 1];
      if pos + |part| <= |text| && EndsWith(text, part) then Searched(parts, text, |parts|, |text|)
      else !PiecesMatch(parts, text)
  {
    assert parts[|parts| - 1..|parts| - 1] == [];
  }

  /** The loop of `matches_search` over the pieces of the filter. */
  method PiecesSearch(parts: seq<string>, text: string, trailingStar: bool) returns (r: bool)
    requires |parts| >= 2
    requires trailingStar <==> parts[|parts| - 1] == []
    ensures r == PiecesMatch(parts, text)
  {
    var last: nat := |parts| - 1;
    var pos: nat := 0;
    var i := 0;
    while i < |parts|
      invariant Searched(parts, text, i, pos)
    {
      var part := parts[i];
      if part == [] {
        SearchedEmpty(parts, text, i, pos);
      } else if i == last {
        SearchedLast(parts, text, pos);
        if pos + |part| <= |text| && EndsWith(text, part) {
          pos := |text|;
        } else {
          return false;
        }
      } else {
        match IndexOf(text[pos..], part)
        case None =>
          SearchedMissing(parts, text, i, pos);
          return false;
        case Some(found) =>
          if i == 0 && found != 0 {
            SearchedFirstLate(parts, text, pos, found);
            return false;
          }
          SearchedFound(parts, text, i, pos, found);
          pos := pos + found + |part|;
      }
      i := i + 1;
    }
    if !trailingStar && pos != |text| {
      return false;
    }
    return true;
  }

  /** An empty piece is placed where the search stands. */
  lemma LeftmostSkip(qs: seq<string>, t: string, pos: nat)
    requires pos <= |t| && qs != [] && qs[0] == []
    ensures Leftmost(qs, t, pos) == Leftmost(qs[1..], t, pos)
  {
    assert IndexOf(t[pos..], qs[0]) == Some(0);
  }
}
