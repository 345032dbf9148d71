/** String operations the gateway borrows from Rust's `str`: `strip_prefix` and
    `split` with a string pattern, together with the occurrence predicates used to
    state what they compute. Strings are sequences of characters. */
module Strings {

  datatype Option<+T> = None | Some(value: T)

  /** `pat` occurs in `s` starting at index `i`. */
  predicate OccursAt(s: string, pat: string, i: int) {
    0 <= i && i + |pat| <= |s| && s[i..i + |pat|] == pat
  }

  ghost predicate Contains(s: string, pat: string) {
    exists i :: OccursAt(s, pat, i)
  }

  predicate IsSuffix(r: string, s: string) {
    |r| <= |s| && s[|s| - |r|..] == r
  }

  /** An occurrence inside a slice of `s` is an occurrence in `s`, shifted. */
  lemma OccursInSlice(s: string, pat: string, lo: nat, hi: nat, j: int)
    requires lo <= hi <= |s|
    requires OccursAt(s[lo..hi], pat, j)
    ensures OccursAt(s, pat, lo + j) && lo + j + |pat| <= hi
  {
    var u, v := s[lo..hi][j..j + |pat|], s[lo + j..lo + j + |pat|];
    assert forall k :: 0 <= k < |pat| ==> u[k] == v[k];
    assert u == v;
  }

  /** An occurrence at or after index `n` of `s` is an occurrence in `s[n..]`. */
  lemma OccursInSuffix(s: string, pat: string, n: nat, j: int)
    requires n <= j && OccursAt(s, pat, j)
    ensures OccursAt(s[n..], pat, j - n)
  {
    var u, v := s[n..][j - n..j - n + |pat|], s[j..j + |pat|];
    assert forall k :: 0 <= k < |pat| ==> u[k] == v[k];
    assert u == v;
  }

  lemma OccurrenceChar(s: string, pat: string, i: int, k: int)
    requires OccursAt(s, pat, i) && 0 <= k < |pat|
    ensures s[i + k] == pat[k]
  {
    assert s[i..i + |pat|][k] == s[i + k];
  }

  /** A suffix `pat + r` of `s` is an occurrence of `pat` just before `r`. */
  lemma SuffixOccurrence(s: string, pat: string, r: string)
    requires IsSuffix(pat + r, s)
    ensures IsSuffix(r, s) && OccursAt(s, pat, |s| - |r| - |pat|)
  {
    var k := |s| - |r| - |pat|;
    assert s[k..] == pat + r;
    assert s[k..][..|pat|] == s[k..k + |pat|];
    assert s[k..][|pat|..] == s[|s| - |r|..];
  }

  /** Rust's `strip_prefix`: the rest of `s` when it starts with `p`. */
  function StripPrefix(s: string, p: string): (r: Option<string>)
    ensures r.Some? <==> p <= s
    ensures r.Some? ==> p + r.value == s
  {
    if p <= s then Some(s[|p|..]) else None
  }

  /** The first occurrence of `pat` in `s` at or after index `i`. */
  function FindFrom(s: string, pat: string, i: nat): (r: Option<nat>)
    requires |pat| > 0 && i <= |s|
    decreases |s| - i
    ensures r.Some? ==> i <= r.value && OccursAt(s, pat, r.value)
  {
    if i + |pat| > |s| then None
    else if s[i..i + |pat|] == pat then Some(i)
    else FindFrom(s, pat, i + 1)
  }

  /** `FindFrom` finds an occurrence whenever there is one at or after `i`, and
      none of those comes before the one it finds. */
  lemma {:induction false} FindFromFirst(s: string, pat: string, i: nat, j: int)
    requires |pat| > 0 && i <= j && i <= |s|
    requires OccursAt(s, pat, j)
    decreases |s| - i
    ensures FindFrom(s, pat, i).Some? && FindFrom(s, pat, i).value <= j
  {
    if i + |pat| <= |s| && s[i..i + |pat|] != pat {
      FindFromFirst(s, pat, i + 1, j);
    }
  }

  /** A string in which `FindFrom` finds nothing holds no occurrence. */
  lemma NotFoundMeansAbsent(s: string, pat: string)
    requires |pat| > 0 && FindFrom(s, pat, 0).None?
    ensures !Contains(s, pat)
  {
    forall j | OccursAt(s, pat, j) ensures false {
      FindFromFirst(s, pat, 0, j);
    }
  }

  /** Nothing before the first occurrence holds an occurrence. */
  lemma HeadHasNoOccurrence(s: string, pat: string, i: nat)
    requires |pat| > 0 && i <= |s| && FindFrom(s, pat, 0) == Some(i)
    ensures !Contains(s[..i], pat)
  {
    forall j | OccursAt(s[..i], pat, j) ensures false {
      OccursInSlice(s, pat, 0, i, j);
      FindFromFirst(s, pat, 0, j);
    }
  }

  /** The inverse of `Split`: the pieces glued back together with `pat`. */
  function Join(parts: seq<string>, pat: string): string
    decreases |parts|
  {
    if |parts| == 0 then ""
    else if |parts| == 1 then parts[0]
    else parts[0] + pat + Join(parts[1..], pat)
  }

  /** Rust's `s.split(pat)` for a non-empty pattern, collected: the pieces between
      the non-overlapping occurrences of `pat`, found from left to right. There is
      always at least one piece. */
  function Split(s: string, pat: string): (parts: seq<string>)
    requires |pat| > 0
    decreases |s|
    ensures |parts| >= 1
  {
    match FindFrom(s, pat, 0)
    case None => [s]
    case Some(i) => [s[..i]] + Split(s[i + |pat|..], pat)
  }

  function LastPiece(s: string, pat: string): string
    requires |pat| > 0
  {
    var parts := Split(s, pat);
    parts[|parts| - 1]
  }

  /** One unfolding of `Split` after the first occurrence was found at `i`. */
  lemma SplitUnfold(s: string, pat: string, i: nat)
    requires |pat| > 0 && FindFrom(s, pat, 0) == Some(i)
    ensures Split(s, pat) == [s[..i]] + Split(s[i + |pat|..], pat)
    ensures |Split(s, pat)| == 1 + |Split(s[i + |pat|..], pat)|
    ensures LastPiece(s, pat) == LastPiece(s[i + |pat|..], pat)
  {
    var parts := Split(s, pat);
    assert parts == [s[..i]] + Split(s[i + |pat|..], pat);
  }

  lemma JoinCons(head: string, rest: seq<string>, pat: string)
    requires |rest| >= 1
    ensures Join([head] + rest, pat) == head + pat + Join(rest, pat)
  {
    assert ([head] + rest)[1..] == rest;
  }

  /** Gluing the pieces of a split back together with the pattern gives the
      original string. */
  lemma {:induction false} SplitJoin(s: string, pat: string)
    requires |pat| > 0
    decreases |s|
    ensures Join(Split(s, pat), pat) == s
  {
    match FindFrom(s, pat, 0)
    case None =>
    case Some(i) =>
      var t := s[i + |pat|..];
      SplitJoin(t, pat);
      SplitUnfold(s, pat, i);
      JoinCons(s[..i], Split(t, pat), pat);
      assert s == s[..i] + pat + t;
  }

  /** `pat` followed by the rest after an occurrence is a suffix. */
  lemma FollowsOccurrence(s: string, pat: string, i: nat)
    requires OccursAt(s, pat, i)
    ensures IsSuffix(pat + s[i + |pat|..], s)
  {
    assert s[i..] == pat + s[i + |pat|..];
  }

  lemma SuffixOfTail(s: string, n: nat, r: string)
    requires n <= |s| && IsSuffix(r, s[n..])
    ensures IsSuffix(r, s)
  {
    assert s[n..][|s[n..]| - |r|..] == s[|s| - |r|..];
  }

  /** The last piece of a split holds no occurrence, and it is either the whole
      string (a single piece) or preceded in the string by the pattern. */
  lemma {:induction false} SplitLast(s: string, pat: string)
    requires |pat| > 0
    decreases |s|
    ensures FindFrom(LastPiece(s, pat), pat, 0).None?
    ensures |Split(s, pat)| == 1 ==> LastPiece(s, pat) == s
    ensures |Split(s, pat)| > 1 ==> IsSuffix(pat + LastPiece(s, pat), s)
  {
    match FindFrom(s, pat, 0)
    case None =>
    case Some(i) =>
      var t := s[i + |pat|..];
      SplitLast(t, pat);
      SplitUnfold(s, pat, i);
      if |Split(t, pat)| > 1 {
        SuffixOfTail(s, i + |pat|, pat + LastPiece(t, pat));
      } else {
        FollowsOccurrence(s, pat, i);
      }
  }

  /** No piece of a split holds an occurrence of the pattern. */
  lemma {:induction false} SplitPiecesHaveNoOccurrence(s: string, pat: string, k: nat)
    requires |pat| > 0 && k < |Split(s, pat)|
    decreases |s|
    ensures !Contains(Split(s, pat)[k], pat)
  {
    match FindFrom(s, pat, 0)
    case None =>
      NotFoundMeansAbsent(s, pat);
    case Some(i) =>
      var t := s[i + |pat|..];
      SplitUnfold(s, pat, i);
      if k == 0 {
        HeadHasNoOccurrence(s, pat, i);
      } else {
        SplitPiecesHaveNoOccurrence(t, pat, k - 1);
      }
  }

  /** `Iterator::last` on the collected pieces. */
  function Last<T>(xs: seq<T>): Option<T> {
    if |xs| == 0 then None else Some(xs[|xs| - 1])
  }

  /** No proper suffix of `pat` is also a prefix of it when its last character
      occurs nowhere else in it. */
  predicate LastCharUnique(pat: string) {
    |pat| > 0 && forall k :: 0 <= k < |pat| - 1 ==> pat[k] != pat[|pat| - 1]
  }

  /** Two occurrences of such a pattern never overlap: a later one starts at
      or after the end of an earlier one. */
  lemma NoOverlap(s: string, pat: string, a: int, b: int)
    requires LastCharUnique(pat)
    requires OccursAt(s, pat, a) && OccursAt(s, pat, b)
    requires a < b
    ensures a + |pat| <= b
  {
    if b < a + |pat| {
      OccurrenceChar(s, pat, a, |pat| - 1);
      OccurrenceChar(s, pat, b, a + |pat| - 1 - b);
    }
  }

  /** For a pattern that cannot overlap itself: a suffix `r` of `s` that holds
      no occurrence and is either all of `s` or preceded by the pattern is the
      text after the last occurrence of the pattern. */
  lemma AfterLastOccurrence(s: string, pat: string, i: int, r: string)
    requires LastCharUnique(pat)
    requires OccursAt(s, pat, i) && !Contains(s[i + |pat|..], pat)
    requires !Contains(r, pat)
    requires r == s || IsSuffix(pat + r, s)
    ensures r == s[i + |pat|..]
  {
    // r == s is impossible: s holds an occurrence, r none
    if r != s {
      SuffixOccurrence(s, pat, r);
      var k := |s| - |r|;
      assert r == s[k..];
      if k <= i {
        OccursInSuffix(s, pat, k, i);
      } else {
        // r is preceded by an occurrence at p; it is the one at i
        var p := k - |pat|;
        if p < i {
          NoOverlap(s, pat, p, i);
        } else if i < p {
          NoOverlap(s, pat, i, p);
          OccursInSuffix(s, pat, i + |pat|, p);
        }
      }
    }
  }
}
