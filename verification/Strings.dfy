/** Searching in strings. */
module Strings {
  import opened Wrappers

  predicate MatchesAt(s: string, pattern: string, i: nat) {
    i + |pattern| <= |s| && s[i..i + |pattern|] == pattern
  }

  // The first position from `i` on with a match.
  function FindFrom(s: string, pattern: string, i: nat): (r: Option<nat>)
    ensures r.Some? ==>
              && i <= r.value && MatchesAt(s, pattern, r.value)
              && forall j: nat :: i <= j < r.value ==> !MatchesAt(s, pattern, j)
    ensures r.None? ==> forall j: nat :: i <= j ==> !MatchesAt(s, pattern, j)
    decreases |s| - i
  {
    if MatchesAt(s, pattern, i) then Some(i)
    else if |s| <= i then None
    else FindFrom(s, pattern, i + 1)
  }

  // The position of the first occurrence, as `find` returns it.
  function Find(s: string, pattern: string): (r: Option<nat>)
    ensures r.Some? ==> MatchesAt(s, pattern, r.value) && forall j: nat :: j < r.value ==> !MatchesAt(s, pattern, j)
    ensures r.None? ==> forall j: nat :: !MatchesAt(s, pattern, j)
  {
    FindFrom(s, pattern, 0)
  }

  /** The first occurrence is the only position with a match and none before it. */
  lemma FindIs(s: string, pattern: string, i: nat)
    requires MatchesAt(s, pattern, i)
    requires forall j: nat :: j < i ==> !MatchesAt(s, pattern, j)
    ensures Find(s, pattern) == Some(i)
  {
    assert Find(s, pattern).Some?;
  }

  lemma MatchShifts(s: string, pattern: string, n: nat, i: nat)
    requires n <= |s|
    ensures MatchesAt(s[n..], pattern, i) <==> MatchesAt(s, pattern, n + i)
  {
    if n + i + |pattern| <= |s| {
      assert s[n..][i..i + |pattern|] == s[n + i..n + i + |pattern|];
    }
  }

  lemma DifferenceAt(s: string, pattern: string, i: nat, j: nat)
    requires j < |pattern| && (i + j < |s| ==> s[i + j] != pattern[j])
    ensures !MatchesAt(s, pattern, i)
  {
    if i + |pattern| <= |s| {
      assert s[i..i + |pattern|][j] == s[i + j];
    }
  }

  lemma MatchBegins(s: string, pattern: string, i: nat)
    requires MatchesAt(s, pattern, i) && pattern != []
    ensures s[i] == pattern[0] && s[i] in s
  {
    assert s[i..i + |pattern|][0] == s[i];
  }

  // A pattern is found right after a text that does not contain its first character.
  lemma FindAfter(a: string, pattern: string, b: string)
    requires pattern != [] && pattern[0] !in a
    ensures Find(a + (pattern + b), pattern) == Some(|a|)
    ensures (a + (pattern + b))[..|a|] == a && (a + (pattern + b))[|a| + |pattern|..] == b
  {
    var s := a + (pattern + b);
    assert s[|a|..|a| + |pattern|] == pattern;
    forall j: nat | j < |a|
      ensures !MatchesAt(s, pattern, j)
    {
      assert s[j] == a[j];
      if MatchesAt(s, pattern, j) {
        MatchBegins(s, pattern, j);
      }
    }
    FindIs(s, pattern, |a|);
  }

  lemma FindNothing(s: string, pattern: string)
    requires pattern != [] && pattern[0] !in s
    ensures Find(s, pattern).None?
  {
    var r := Find(s, pattern);
    if r.Some? {
      MatchBegins(s, pattern, r.value);
    }
  }

  lemma CharMatches(s: string, c: char, i: nat)
    requires i < |s|
    ensures MatchesAt(s, [c], i) <==> s[i] == c
  {
    assert s[i..i + 1] == [s[i]];
  }

  // The first occurrence of a character splits the text.
  lemma CharFound(s: string, c: char) returns (a: string, b: string)
    requires Find(s, [c]).Some?
    ensures c !in a && s == a + ([c] + b)
  {
    var i := Find(s, [c]).value;
    a, b := s[..i], s[i + 1..];
    CharMatches(s, c, i);
    forall j | 0 <= j < i
      ensures s[j] != c
    {
      CharMatches(s, c, j);
      assert !MatchesAt(s, [c], j);
    }
  }
}
