/** The PHP string functions the storage helper relies on: `explode` (and
    its inverse `implode`) and `trim` with a single-character list. */
module Text {
  import opened Wrappers

  /** `d` occurs in `s` starting at position `i`. */
  predicate OccursAt(s: string, d: string, i: nat)
  {
    i + |d| <= |s| && s[i..i + |d|] == d
  }

  predicate Contains(s: string, d: string)
  {
    exists i: nat | i <= |s| :: OccursAt(s, d, i)
  }

  /** Position of the first occurrence of `d` in `s` at or after `k`. */
  function FindFrom(s: string, d: string, k: nat): (r: Option<nat>)
    requires |d| > 0
    decreases |s| - k
    ensures r.Some? ==> k <= r.value && OccursAt(s, d, r.value)
    ensures forall j: nat :: k <= j && (r.None? || j < r.value) ==> !OccursAt(s, d, j)
  {
    if k + |d| > |s| then None
    else if s[k..k + |d|] == d then Some(k)
    else FindFrom(s, d, k + 1)
  }

  /** An occurrence of `d` inside a prefix of `s` is an occurrence in `s`. */
  lemma OccursInPrefix(s: string, d: string, n: nat, j: nat)
    requires n <= |s| && OccursAt(s[..n], d, j)
    ensures OccursAt(s, d, j) && j + |d| <= n
  {
    assert s[..n][j..j + |d|] == s[j..j + |d|];
  }

  /** When no occurrence of `d` in `s` starts before `i`, a prefix of `s`
      that ends before an occurrence at `i` could be complete holds no `d`. */
  lemma NothingBeforeFirst(s: string, d: string, i: nat, n: nat)
    requires |d| > 0 && n <= |s| && n < i + |d|
    requires forall j: nat :: j < i ==> !OccursAt(s, d, j)
    ensures !Contains(s[..n], d)
  {
    forall j: nat | OccursAt(s[..n], d, j) ensures false {
      OccursInPrefix(s, d, n, j);
    }
  }

  /** PHP `implode(d, parts)`: the parts joined with `d` between them. */
  function Implode(d: string, parts: seq<string>): string
    requires |parts| >= 1
  {
    if |parts| == 1 then parts[0] else parts[0] + d + Implode(d, parts[1..])
  }

  /** PHP `explode(d, s)`: `s` cut at every occurrence of `d`, left to right.
      The pieces hold no `d`, joining them with `d` gives `s` back, and there
      is more than one piece exactly when `s` contains `d`. Each cut is at
      the first occurrence after the previous one: no occurrence of `d`
      starts inside a piece and runs into the delimiter after it, which is
      what the clause about `parts[k] + d[..|d| - 1]` says. Together these
      fix the pieces uniquely, even for a delimiter that overlaps itself. */
  function Explode(d: string, s: string): (parts: seq<string>)
    requires |d| > 0
    decreases |s|
    ensures |parts| >= 1
    ensures Implode(d, parts) == s
    ensures forall k :: 0 <= k < |parts| ==> !Contains(parts[k], d)
    ensures |parts| == 1 <==> !Contains(s, d)
    ensures |parts[0]| <= |s| && parts[0] == s[..|parts[0]|]
    ensures |parts| > 1 ==> FindFrom(s, d, 0) == Some(|parts[0]|)
    ensures forall k :: 0 <= k < |parts| - 1 ==> !Contains(parts[k] + d[..|d| - 1], d)
  {
    match FindFrom(s, d, 0)
    case None => [s]
    case Some(i) =>
      var rest := Explode(d, s[i + |d|..]);
      ExplodeStep(d, s, i, rest);
      FirstCutIsFirst(d, s, i);
      assert forall k :: 1 <= k < |rest| + 1 ==> ([s[..i]] + rest)[k] == rest[k - 1];
      [s[..i]] + rest
  }

  /** The step of `Explode`: cutting at the first occurrence `i` and putting
      the head in front of the split of the rest gives a split of `s`. */
  lemma ExplodeStep(d: string, s: string, i: nat, rest: seq<string>)
    requires |d| > 0 && FindFrom(s, d, 0) == Some(i)
    requires |rest| >= 1 && Implode(d, rest) == s[i + |d|..]
    requires forall k :: 0 <= k < |rest| ==> !Contains(rest[k], d)
    ensures var parts := [s[..i]] + rest;
      Implode(d, parts) == s && (forall k :: 0 <= k < |parts| ==> !Contains(parts[k], d)) &&
      Contains(s, d) && parts[0] == s[..|parts[0]|]
  {
    var parts := [s[..i]] + rest;
    NothingBeforeFirst(s, d, i, i);
    assert parts[1..] == rest;
    assert s == s[..i] + d + s[i + |d|..];
    assert Implode(d, parts) == s[..i] + d + Implode(d, rest);
  }

  /** The first piece, followed by all of the delimiter but its last
      character, holds no `d`: no occurrence starts before the first cut. */
  lemma FirstCutIsFirst(d: string, s: string, i: nat)
    requires |d| > 0 && FindFrom(s, d, 0) == Some(i)
    ensures !Contains(s[..i] + d[..|d| - 1], d)
  {
    assert s[..i] + d[..|d| - 1] == s[..i + |d| - 1];
    NothingBeforeFirst(s, d, i, i + |d| - 1);
  }

  /** PHP `ltrim(s, c)`: the leading copies of `c` removed. */
  function TrimLeft(s: string, c: char): (r: string)
    ensures |r| <= |s| && r == s[|s| - |r|..]
    ensures forall k :: 0 <= k < |s| - |r| ==> s[k] == c
    ensures r == [] || r[0] != c
  {
    if |s| > 0 && s[0] == c then TrimLeft(s[1..], c) else s
  }

  /** PHP `rtrim(s, c)`: the trailing copies of `c` removed. */
  function TrimRight(s: string, c: char): (r: string)
    ensures |r| <= |s| && r == s[..|r|]
    ensures forall k :: |r| <= k < |s| ==> s[k] == c
    ensures r == [] || r[|r| - 1] != c
  {
    if |s| > 0 && s[|s| - 1] == c then TrimRight(s[..|s| - 1], c) else s
  }

  /** `r` is the slice `s[a..a + |r|]`, and every character of `s` outside
      it is `c`. */
  predicate SliceAmid(s: string, c: char, a: nat, r: string)
  {
    a + |r| <= |s| && r == s[a..a + |r|] &&
    (forall k :: 0 <= k < a ==> s[k] == c) &&
    (forall k :: a + |r| <= k < |s| ==> s[k] == c)
  }

  /** PHP `trim(s, c)`: the slice of `s` left once the leading and trailing
      copies of `c` are gone; it neither starts nor ends with `c`. */
  function Trim(s: string, c: char): (r: string)
    ensures r == [] || (r[0] != c && r[|r| - 1] != c)
    ensures exists a: nat :: SliceAmid(s, c, a, r)
  {
    TrimIsSlice(s, c);
    TrimRight(TrimLeft(s, c), c)
  }

  lemma TrimIsSlice(s: string, c: char)
    ensures SliceAmid(s, c, |s| - |TrimLeft(s, c)|, TrimRight(TrimLeft(s, c), c))
  {
    SuffixThenPrefix(s, c, TrimLeft(s, c), TrimRight(TrimLeft(s, c), c));
  }

  /** A prefix `r` of a suffix `left` of `s`, where `s` has only `c` before
      `left` and `left` has only `c` after `r`, is a slice of `s` with only
      `c` around it. */
  lemma SuffixThenPrefix(s: string, c: char, left: string, r: string)
    requires |left| <= |s| && left == s[|s| - |left|..]
    requires forall k :: 0 <= k < |s| - |left| ==> s[k] == c
    requires |r| <= |left| && r == left[..|r|]
    requires forall k :: |r| <= k < |left| ==> left[k] == c
    ensures SliceAmid(s, c, |s| - |left|, r)
  {
    var a := |s| - |left|;
    assert r == s[a..a + |r|];
    forall k | a + |r| <= k < |s| ensures s[k] == c {
      assert s[k] == left[k - a];
    }
  }

  /** Trimming twice is trimming once. */
  lemma TrimIdempotent(s: string, c: char)
    ensures Trim(Trim(s, c), c) == Trim(s, c)
  {
    var t := Trim(s, c);
    assert TrimLeft(t, c) == t;
    assert TrimRight(t, c) == t;
  }

  /** A string that neither starts nor ends with `c` is left alone. */
  lemma TrimNoOp(s: string, c: char)
    requires s == [] || (s[0] != c && s[|s| - 1] != c)
    ensures Trim(s, c) == s
  {
  }
}
