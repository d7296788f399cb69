/** Leftmost substring search (bytes.Index, strings.Index). */
module Search {

  predicate OccursAt<T(==)>(s: seq<T>, pat: seq<T>, i: int) {
    0 <= i <= |s| - |pat| && s[i..i + |pat|] == pat
  }

  ghost predicate Contains<T>(s: seq<T>, pat: seq<T>) {
    exists i :: OccursAt(s, pat, i)
  }

  const NOT_FOUND := -1

  function IndexFrom<T(==)>(s: seq<T>, pat: seq<T>, from: nat): (r: int)
    requires from <= |s|
    ensures r == NOT_FOUND || from <= r <= |s| - |pat|
    ensures r == NOT_FOUND ==> forall i :: from <= i ==> !OccursAt(s, pat, i)
    ensures r != NOT_FOUND ==> OccursAt(s, pat, r) && forall i :: from <= i < r ==> !OccursAt(s, pat, i)
    decreases |s| - from
  {
    if OccursAt(s, pat, from) then from
    else if from == |s| then NOT_FOUND
    else IndexFrom(s, pat, from + 1)
  }

  function Index<T(==)>(s: seq<T>, pat: seq<T>): (r: int)
    ensures r == NOT_FOUND || 0 <= r <= |s| - |pat|
    ensures r == NOT_FOUND <==> !Contains(s, pat)
    ensures r != NOT_FOUND ==> OccursAt(s, pat, r) && forall i :: 0 <= i < r ==> !OccursAt(s, pat, i)
  {
    IndexFrom(s, pat, 0)
  }

  lemma IndexIs<T>(s: seq<T>, pat: seq<T>, r: nat)
    requires OccursAt(s, pat, r) && forall i :: 0 <= i < r ==> !OccursAt(s, pat, i)
    ensures Index(s, pat) == r
  {
    assert Contains(s, pat);
  }

  /** An occurrence inside a suffix is the shifted occurrence in the whole. */
  lemma OccursInSuffix<T>(s: seq<T>, pat: seq<T>, k: nat, i: int)
    requires k <= |s| && 0 <= i
    ensures OccursAt(s[k..], pat, i) <==> OccursAt(s, pat, k + i)
  {
    if k + i + |pat| <= |s| {
      assert s[k..][i..i + |pat|] == s[k + i..k + i + |pat|];
    }
  }
}
