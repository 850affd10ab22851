/** The two `str` methods the core relies on: `find` and `replace(old, new, 1)`. */
module Strings {
  import opened Basics

  predicate IsPrefix(p: string, s: string) {
    |p| <= |s| && s[..|p|] == p
  }

  predicate IsSuffix(p: string, s: string) {
    |p| <= |s| && s[|s| - |p|..] == p
  }

  /** `pat` occurs in `s` starting at index `i`. */
  predicate OccursAt(s: string, pat: string, i: int) {
    0 <= i && i + |pat| <= |s| && s[i..i + |pat|] == pat
  }

  /** The first index at or after `from` where `pat` occurs in `s`. */
  function FindFrom(s: string, pat: string, from: nat): (r: Option<nat>)
    requires from <= |s|
    ensures r.Some? ==> from <= r.value && OccursAt(s, pat, r.value)
    ensures r.Some? ==> forall j :: from <= j < r.value ==> !OccursAt(s, pat, j)
    ensures r.None? ==> forall j :: from <= j ==> !OccursAt(s, pat, j)
    decreases |s| - from
  {
    if from + |pat| > |s| then None
    else if s[from..from + |pat|] == pat then Some(from)
    else FindFrom(s, pat, from + 1)
  }

  /** Python's `s.find(pat)`: the lowest index where `pat` occurs. */
  function Find(s: string, pat: string): (r: Option<nat>)
    ensures r.Some? ==> OccursAt(s, pat, r.value)
    ensures r.Some? ==> forall j :: 0 <= j < r.value ==> !OccursAt(s, pat, j)
    ensures r.None? <==> forall j :: !OccursAt(s, pat, j)
  {
    FindFrom(s, pat, 0)
  }

  /** Python's `s.replace(old, new, 1)`: only the first occurrence, wherever it is, is replaced. */
  function ReplaceFirst(s: string, pat: string, repl: string): (r: string)
    ensures (forall j :: !OccursAt(s, pat, j)) ==> r == s
    ensures forall i :: OccursAt(s, pat, i) && (forall j :: 0 <= j < i ==> !OccursAt(s, pat, j)) ==>
      r == s[..i] + repl + s[i + |pat|..]
  {
    match Find(s, pat)
    case None => s
    case Some(i) => s[..i] + repl + s[i + |pat|..]
  }

  /** When `pat` is a prefix of `s`, removing its first occurrence strips that prefix. */
  lemma ReplaceFirstOfPrefix(s: string, pat: string)
    requires IsPrefix(pat, s)
    ensures ReplaceFirst(s, pat, "") == s[|pat|..]
  {
    assert OccursAt(s, pat, 0);
  }

  /** ... but the first occurrence need not be a prefix: the removal happens mid-string too. */
  lemma ReplaceFirstInTheMiddle()
    ensures ReplaceFirst("a/media/b", "media/", "") == "a/b"
  {
    var s, pat := "a/media/b", "media/";
    assert OccursAt(s, pat, 2);
    assert !OccursAt(s, pat, 0) by { assert s[0] != pat[0]; }
    assert !OccursAt(s, pat, 1) by { assert s[1] != pat[0]; }
    assert s[..2] + s[8..] == "a/b";
  }
}
