/** What several modules need and none of them is about. */
module Common {

  datatype Option<T> = None | Some(value: T)

  function Min(a: nat, b: nat): (m: nat)
    ensures m <= a && m <= b && (m == a || m == b)
  {
    if a < b then a else b
  }

  function Max(a: nat, b: nat): (m: nat)
    ensures a <= m && b <= m && (m == a || m == b)
  {
    if a < b then b else a
  }

  // ----- Slices of slices -----

  lemma SliceOfSlice<T>(s: seq<T>, p: nat, a: nat, b: nat, e: nat)
    requires p <= a <= b <= e <= |s|
    ensures s[p..e][a - p..b - p] == s[a..b]
  {
    var x := s[p..e][a - p..b - p];
    forall i | 0 <= i < |x| ensures x[i] == s[a..b][i] {
      assert x[i] == s[p..e][a - p + i];
    }
  }

  lemma SliceOfPrefix<T>(s: seq<T>, a: nat, b: nat, n: nat)
    requires a <= b <= n <= |s|
    ensures s[..n][a..b] == s[a..b]
  {
    SliceOfSlice(s, 0, a, b, n);
    assert s[0..n] == s[..n];
  }

  lemma SliceTwice<T>(s: seq<T>, a: nat, n: nat)
    requires a + n <= |s|
    ensures s[a..][..n] == s[a..a + n] && s[a..][n..] == s[a + n..]
  {
  }

  lemma Join<T>(s: seq<T>, a: nat, b: nat, c: nat)
    requires a <= b <= c <= |s|
    ensures s[a..c] == s[a..b] + s[b..c]
  {
  }
}
