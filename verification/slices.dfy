/** Facts about slices of sequences, stated once for any element type so
    that proofs about sequences of bytes and characters can cite them. */
module Slices {
  lemma SliceOne<T>(s: seq<T>, i: nat, j: nat)
    requires j == i + 1 && j <= |s|
    ensures s[i..i] == [] && s[i..j] == [s[i]]
  {
  }

  lemma SliceTwo<T>(s: seq<T>, i: nat, j: nat)
    requires j == i + 2 && j <= |s|
    ensures s[i..j] == [s[i], s[i + 1]]
  {
  }

  lemma PrefixThree<T>(s: seq<T>, m: nat, n: nat)
    requires n == m + 3 && n <= |s|
    ensures s[..n] == s[..m] + [s[m], s[m + 1], s[m + 2]]
  {
  }

  lemma SplitAt<T>(s: seq<T>, n: nat)
    requires n <= |s|
    ensures s == s[..n] + s[n..]
  {
  }

  lemma PrefixOfAppend<T>(a: seq<T>, b: seq<T>, n: nat)
    requires n <= |a|
    ensures (a + b)[..n] == a[..n]
  {
  }

  lemma TakeAppend<T>(a: seq<T>, b: seq<T>, m: nat)
    requires m <= |b|
    ensures (a + b)[..|a| + m] == a + b[..m]
  {
  }

  lemma AppendAssoc<T>(a: seq<T>, b: seq<T>, c: seq<T>)
    ensures a + (b + c) == (a + b) + c
  {
  }
}
