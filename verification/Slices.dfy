/** Slices of slices. */
module Slices {

  lemma SliceOfSlice<T>(s: seq<T>, a: nat, b: nat, i: nat, j: nat)
    requires a <= b <= |s| && i <= j <= b - a
    ensures s[a..b][i..j] == s[a + i..a + j]
  {
    var l, r := s[a..b][i..j], s[a + i..a + j];
    forall k | 0 <= k < j - i
      ensures l[k] == r[k]
    {
      assert l[k] == s[a..b][i + k] == s[a + (i + k)];
    }
  }

  lemma SliceOfPrefix<T>(s: seq<T>, n: nat, i: nat, j: nat)
    requires i <= j <= n <= |s|
    ensures s[..n][i..j] == s[i..j]
  {
    var l, r := s[..n][i..j], s[i..j];
    forall k | 0 <= k < j - i
      ensures l[k] == r[k]
    {
      assert l[k] == s[..n][i + k] == s[i + k];
    }
  }

  lemma PrefixOfSlice<T>(s: seq<T>, i: nat, j: nat, k: nat)
    requires i <= k <= j <= |s|
    ensures s[i..j][..k - i] == s[i..k]
  {
    var l, r := s[i..j][..k - i], s[i..k];
    forall x | 0 <= x < k - i
      ensures l[x] == r[x]
    {
      assert l[x] == s[i..j][x] == s[i + x];
    }
  }

  lemma SliceOfFirst<T>(a: seq<T>, b: seq<T>, i: nat, j: nat)
    requires i <= j <= |a|
    ensures (a + b)[i..j] == a[i..j]
  {
  }

  lemma SliceIsSecond<T>(a: seq<T>, b: seq<T>)
    ensures (a + b)[|a|..|a| + |b|] == b
  {
  }

  lemma HeadAndRest<T>(s: seq<T>, i: nat, j: nat)
    requires i + 2 <= j <= |s|
    ensures s[i..j] == [s[i], s[i + 1]] + s[i + 2..j]
  {
    var l, r := s[i..j], [s[i], s[i + 1]] + s[i + 2..j];
    forall k | 0 <= k < j - i
      ensures l[k] == r[k]
    {
      assert l[k] == s[i + k];
    }
  }
}
