/** String helpers standing for the Rust `str` methods the archive handler
    uses: ASCII lower-casing, single-character replacement, `find`, `rfind`,
    `starts_with`, `ends_with`, `trim_start_matches` and `split`. */
module Text {
  import opened Common

  /** ASCII lower-casing of one character. */
  function LowerChar(c: char): char {
    if 'A' <= c <= 'Z' then (c as int + 32) as char else c
  }

  /** `to_lowercase` / `to_ascii_lowercase`, restricted to ASCII letters. */
  function Lower(s: string): (r: string)
    ensures |r| == |s|
    ensures forall i :: 0 <= i < |s| ==> r[i] == LowerChar(s[i])
  {
    seq(|s|, i requires 0 <= i < |s| => LowerChar(s[i]))
  }

  /** `eq_ignore_ascii_case`. */
  predicate EqIgnoreCase(a: string, b: string) {
    Lower(a) == Lower(b)
  }

  /** `s.replace(a, b)` for single characters. */
  function Replace(s: string, a: char, b: char): (r: string)
    ensures |r| == |s|
    ensures forall i :: 0 <= i < |s| ==> r[i] == (if s[i] == a then b else s[i])
  {
    seq(|s|, i requires 0 <= i < |s| => if s[i] == a then b else s[i])
  }

  predicate StartsWith(t: string, p: string) {
    |p| <= |t| && t[..|p|] == p
  }

  predicate EndsWith(t: string, p: string) {
    |p| <= |t| && t[|t| - |p|..] == p
  }

  /** `p` occurs in `t` starting at index `j`. */
  predicate OccursAt(t: string, p: string, j: int) {
    0 <= j && j + |p| <= |t| && t[j..j + |p|] == p
  }

  /** `str::find`: the leftmost index at which `p` occurs in `t`. */
  function IndexOf(t: string, p: string): (r: Option<nat>)
    ensures r.Some? ==> OccursAt(t, p, r.value)
    ensures r.Some? ==> forall j :: 0 <= j < r.value ==> !OccursAt(t, p, j)
    ensures r.None? ==> forall j :: !OccursAt(t, p, j)
    decreases |t|
  {
    if |p| > |t| then None
    else if t[..|p|] == p then Some(0)
    else
      OccursTail(t, p);
      match IndexOf(t[1..], p)
      case None => None
      case Some(k) => Some(k + 1)
  }

  /** Past its first character, `p` occurs in `t` where it occurs in the tail of `t`, one
      place on. */
  lemma OccursTail(t: string, p: string)
    requires |t| >= 1
    ensures forall j :: 1 <= j ==> (OccursAt(t, p, j) <==> OccursAt(t[1..], p, j - 1))
  {
    forall j | 1 <= j
      ensures OccursAt(t, p, j) <==> OccursAt(t[1..], p, j - 1)
    {
      if j + |p| <= |t| {
        assert t[1..][j - 1..j - 1 + |p|] == t[j..j + |p|];
      }
    }
  }

  /** `str::contains`. */
  predicate Contains(t: string, p: string) {
    IndexOf(t, p).Some?
  }

  /** `rfind` over a set of characters: the last index holding one of `cs`. */
  function LastIndexIn(s: string, cs: set<char>): (r: Option<nat>)
    ensures r.Some? ==> r.value < |s| && s[r.value] in cs
    ensures r.Some? ==> forall i :: r.value < i < |s| ==> s[i] !in cs
    ensures r.None? ==> forall i :: 0 <= i < |s| ==> s[i] !in cs
  {
    if |s| == 0 then None
    else if s[|s| - 1] in cs then Some(|s| - 1)
    else LastIndexIn(s[..|s| - 1], cs)
  }

  /** The last `c` cuts `s` into what comes before it and what follows it, which holds no
      `c`; without one, `s` holds no `c`. */
  lemma LastIndexCuts(s: string, c: char)
    ensures LastIndexIn(s, {c}).None? ==> c !in s
    ensures LastIndexIn(s, {c}).Some? ==>
      var k := LastIndexIn(s, {c}).value;
      s == s[..k] + [c] + s[k + 1..] && c !in s[k + 1..]
  {
    match LastIndexIn(s, {c})
    case None =>
      assert forall i :: 0 <= i < |s| ==> s[i] != c;
    case Some(k) =>
      assert s[k] == c;
      assert s == s[..k] + [c] + s[k + 1..];
      var rest := s[k + 1..];
      assert forall i :: 0 <= i < |rest| ==> rest[i] == s[k + 1 + i];
  }

  /** `trim_start_matches(c)`: drops every leading `c`. */
  function TrimStart(s: string, c: char): (r: string)
    ensures |r| <= |s| && r == s[|s| - |r|..]
    ensures r == [] || r[0] != c
    ensures forall i :: 0 <= i < |s| - |r| ==> s[i] == c
  {
    if |s| > 0 && s[0] == c then TrimStart(s[1..], c) else s
  }

  /** `split(c)`: the pieces between occurrences of `c`, in order. */
  function Split(s: string, c: char): (r: seq<string>)
    ensures |r| >= 1
    ensures forall k :: 0 <= k < |r| ==> c !in r[k]
    ensures c in s ==> |r| >= 2
    ensures c !in s ==> r == [s]
  {
    match LastIndexIn(s, {c})
    case None => [s]
    case Some(k) => Split(s[..k], c) + [s[k + 1..]]
  }

  /** Number of occurrences of `c` in `s`. */
  function CountChar(s: string, c: char): nat {
    if |s| == 0 then 0 else CountChar(s[..|s| - 1], c) + (if s[|s| - 1] == c then 1 else 0)
  }

  // ---------------------------------------------------------------------
  // Lemmas

  lemma LowerIdempotent(s: string)
    ensures Lower(Lower(s)) == Lower(s)
  {
  }

  lemma LowerAppend(a: string, b: string)
    ensures Lower(a + b) == Lower(a) + Lower(b)
  {
  }

  /** Lower-casing commutes with replacing one non-letter by another. */
  lemma LowerReplaceCommute(s: string, a: char, b: char)
    requires !('A' <= a <= 'Z') && !('a' <= a <= 'z') && !('A' <= b <= 'Z')
    ensures Lower(Replace(s, a, b)) == Replace(Lower(s), a, b)
  {
    forall i | 0 <= i < |s| ensures Lower(Replace(s, a, b))[i] == Replace(Lower(s), a, b)[i] {
      assert LowerChar(s[i]) == a ==> s[i] == a;
    }
  }

  /** After replacing `a` by `b`, no `a` is left. */
  lemma ReplaceRemoves(s: string, a: char, b: char)
    requires a != b
    ensures a !in Replace(s, a, b)
  {
    var r := Replace(s, a, b);
    forall i | 0 <= i < |r| ensures r[i] != a { }
  }

  /** Lower-casing neither creates nor removes a non-letter character. */
  lemma LowerKeepsNonLetter(s: string, c: char)
    requires !('A' <= c <= 'Z') && !('a' <= c <= 'z')
    ensures c in Lower(s) <==> c in s
  {
    if c in s {
      var i :| 0 <= i < |s| && s[i] == c;
      assert Lower(s)[i] == c;
    }
    if c in Lower(s) {
      var i :| 0 <= i < |s| && Lower(s)[i] == c;
      assert s[i] == c;
    }
  }
}
