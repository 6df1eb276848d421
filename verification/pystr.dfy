/**
 The two Python string primitives the coverage scraper leans on:
 `str.find` (lowest index of a pattern, or -1) and the slice `s[lo:hi]`
 with step 1, including the normalisation of negative and out-of-range
 indices.
 */
module PyStr {

  /** `pat` occurs in `s` starting at index `i`. */
  predicate OccursAt(s: string, pat: string, i: int) {
    0 <= i && i + |pat| <= |s| && s[i..i + |pat|] == pat
  }

  ghost predicate Occurs(s: string, pat: string) {
    exists i :: OccursAt(s, pat, i)
  }

  /** `p` is the first occurrence of `pat` in `s`. */
  ghost predicate FirstAt(s: string, pat: string, p: int) {
    OccursAt(s, pat, p) && forall j :: 0 <= j < p ==> !OccursAt(s, pat, j)
  }

  /** `q` is the first occurrence of `pat` in `s` at or after index `from`. */
  ghost predicate FirstFrom(s: string, pat: string, from: int, q: int) {
    from <= q && OccursAt(s, pat, q) && forall j :: from <= j < q ==> !OccursAt(s, pat, j)
  }

  /** `t` is a contiguous piece of `s`. */
  ghost predicate IsSubstring(t: string, s: string) {
    exists i, j :: 0 <= i <= j <= |s| && t == s[i..j]
  }

  function FindFrom(s: string, pat: string, i: nat): (r: int)
    ensures r == -1 || (i <= r && OccursAt(s, pat, r))
    ensures r >= 0 ==> forall j :: i <= j < r ==> !OccursAt(s, pat, j)
    ensures r == -1 ==> forall j :: i <= j ==> !OccursAt(s, pat, j)
    decreases |s| - i
  {
    if i + |pat| > |s| then -1
    else if s[i..i + |pat|] == pat then i
    else FindFrom(s, pat, i + 1)
  }

  /** `s.find(pat)`: the first occurrence of `pat`, or -1 when there is none. */
  function Find(s: string, pat: string): (r: int)
    ensures r >= 0 ==> FirstAt(s, pat, r)
    ensures r == -1 <==> !Occurs(s, pat)
    ensures r >= -1
  {
    FindFrom(s, pat, 0)
  }

  /** Python's normalisation of a slice bound against a sequence of length `n`. */
  function SliceIndex(n: nat, i: int): (k: nat)
    ensures k <= n
  {
    if i < 0 then (if n + i < 0 then 0 else n + i)
    else if i > n then n
    else i
  }

  /** `s[lo:hi]`. */
  function Slice(s: string, lo: int, hi: int): (r: string)
    ensures IsSubstring(r, s)
  {
    var a := SliceIndex(|s|, lo);
    var b := SliceIndex(|s|, hi);
    assert s[0..0] == [];
    if a < b then s[a..b] else []
  }

  /** An occurrence in a suffix is an occurrence in the whole string, shifted. */
  lemma OccursInSuffix(s: string, pat: string, from: nat, j: nat)
    requires from <= |s|
    ensures OccursAt(s[from..], pat, j) <==> OccursAt(s, pat, from + j)
  {
    if j + |pat| <= |s| - from {
      assert s[from..][j..j + |pat|] == s[from + j..from + j + |pat|];
    }
  }

  /** The empty pattern occurs at the start of every string. */
  lemma EmptyOccurs(s: string)
    ensures OccursAt(s, [], 0)
  {
    assert s[0..0] == [];
  }
}
