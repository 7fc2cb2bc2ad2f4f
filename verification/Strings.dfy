/** Searching in ASCII text, the way the host language's string searches behave. */
module Strings {
  import opened Types

  predicate OccursAt(s: string, t: string, i: int) {
    0 <= i <= |s| - |t| && s[i..i + |t|] == t
  }

  /** First occurrence of `t` in `s` at or after `from`. */
  function IndexFrom(s: string, t: string, from: nat): (r: Option<nat>)
    ensures r.Some? ==> from <= r.value && OccursAt(s, t, r.value)
    ensures r.Some? ==> forall j :: from <= j < r.value ==> !OccursAt(s, t, j)
    ensures r.None? ==> forall j :: from <= j ==> !OccursAt(s, t, j)
    decreases |s| - from
  {
    if from + |t| > |s| then None
    else if OccursAt(s, t, from) then Some(from)
    else IndexFrom(s, t, from + 1)
  }

  function IndexOf(s: string, t: string): (r: Option<nat>)
    ensures r.Some? ==> OccursAt(s, t, r.value) && forall j :: 0 <= j < r.value ==> !OccursAt(s, t, j)
    ensures r.None? ==> forall j :: 0 <= j ==> !OccursAt(s, t, j)
  {
    IndexFrom(s, t, 0)
  }

  predicate Contains(s: string, t: string) {
    IndexOf(s, t).Some?
  }

  predicate StartsWith(s: string, t: string) {
    OccursAt(s, t, 0)
  }

  predicate EndsWith(s: string, t: string) {
    |t| <= |s| && s[|s| - |t|..] == t
  }

  predicate IsDigit(c: char) {
    '0' <= c <= '9'
  }

  /** Text splits at the last `c` in one way only. */
  lemma LastSplit(x: string, y: string, x': string, y': string, c: char)
    requires x + [c] + y == x' + [c] + y' && c !in y && c !in y'
    ensures x == x' && y == y'
  {
    if |x| < |x'| {
      LaterSplitShows(x, y, x', y', c);
    } else if |x'| < |x| {
      LaterSplitShows(x', y', x, y, c);
    } else {
      var s := x + [c] + y;
      assert s[..|x|] == x && s[..|x'|] == x';
      assert s[|x| + 1..] == y && s[|x'| + 1..] == y';
    }
  }

  lemma LaterSplitShows(x: string, y: string, x': string, y': string, c: char)
    requires x + [c] + y == x' + [c] + y' && |x| < |x'|
    ensures c in y
  {
    var s := x + [c] + y;
    assert s[|x| + 1..] == y && s[|x'|] == c;
    assert y[|x'| - |x| - 1] == s[|x'|];
  }
}
