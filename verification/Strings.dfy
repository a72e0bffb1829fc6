/**
 Searching in strings: the first occurrence of a character or a substring.
 */
module Strings {
  import opened Options

  predicate OccursAt(s: string, d: string, i: nat) {
    i + |d| <= |s| && s[i..i + |d|] == d
  }

  /** std::string::find for one character. */
  function FindChar(s: string, c: char, from: nat): Option<nat>
    decreases |s| - from
  {
    if from >= |s| then None
    else if s[from] == c then Some(from)
    else FindChar(s, c, from + 1)
  }

  ghost predicate FirstAt(s: string, c: char, from: nat, r: Option<nat>) {
    match r
    case Some(i) => from <= i < |s| && s[i] == c && forall k :: from <= k < i ==> s[k] != c
    case None => forall k :: from <= k < |s| ==> s[k] != c
  }

  /** It finds the first position that holds the character. */
  lemma {:induction false} FindCharIs(s: string, c: char, from: nat)
    ensures FirstAt(s, c, from, FindChar(s, c, from))
    decreases |s| - from
  {
    if from < |s| && s[from] != c { FindCharIs(s, c, from + 1); }
  }

  lemma FirstIsFound(s: string, c: char, from: nat, r: Option<nat>)
    requires FirstAt(s, c, from, r)
    ensures FindChar(s, c, from) == r
  {
    FindCharIs(s, c, from);
  }

  /** First position at or after `from` where `d` occurs. */
  function Find(s: string, d: string, from: nat): (r: Option<nat>)
    ensures r.Some? ==> from <= r.value && OccursAt(s, d, r.value)
    ensures r.Some? ==> forall k: nat :: from <= k < r.value ==> !OccursAt(s, d, k)
    ensures r.None? ==> forall k: nat :: from <= k ==> !OccursAt(s, d, k)
    decreases |s| - from
  {
    if from + |d| > |s| then None
    else if s[from..from + |d|] == d then Some(from)
    else Find(s, d, from + 1)
  }

  predicate Contains(s: string, d: string) {
    Find(s, d, 0).Some?
  }

  lemma SingleOccurs(s: string, c: char, i: nat)
    ensures OccursAt(s, [c], i) <==> i < |s| && s[i] == c
  {
    if i < |s| { assert s[i..i + 1] == [s[i]]; }
  }
}
