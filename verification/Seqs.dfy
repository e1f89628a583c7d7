/** Facts about sequences, kept apart so that their extensional proofs stay local. */
module Seqs {

  lemma Assoc<T>(a: seq<T>, b: seq<T>, c: seq<T>)
    ensures (a + b) + c == a + (b + c)
  {
  }

  lemma TailConcat<T>(a: seq<T>, c: seq<T>)
    requires |a| > 0
    ensures (a + c)[1..] == a[1..] + c
  {
  }

  lemma ConsTail<T>(s: seq<T>)
    requires |s| > 0
    ensures [s[0]] + s[1..] == s
  {
  }

  lemma UnCons<T>(x: T, s: seq<T>)
    ensures ([x] + s)[0] == x && ([x] + s)[1..] == s
  {
  }

  lemma SplitAt<T>(s: seq<T>, n: nat)
    requires n <= |s|
    ensures s[..n] + s[n..] == s
  {
  }

  lemma DropDrop<T>(s: seq<T>, i: nat, j: nat)
    requires i <= j <= |s|
    ensures s[i..][j - i..] == s[j..]
  {
  }

  lemma EmptyConcat<T>(s: seq<T>)
    ensures [] + s == s && s + [] == s
  {
  }

  lemma TakeTake<T>(s: seq<T>, k: nat, n: nat)
    requires k <= n <= |s|
    ensures s[..n][..k] == s[..k]
  {
  }

  lemma Update<T>(s: seq<T>, i: nat, x: T)
    requires i < |s|
    ensures s[i := x] == s[..i] + ([x] + s[i + 1..])
  {
  }

  /** Cutting `lo + 1 .. hi` out of a sequence leaves both ends. */
  lemma CutOut<T>(s: seq<T>, lo: nat, hi: nat)
    requires lo < hi <= |s|
    ensures var out := s[..lo + 1] + s[hi..];
            out[..lo] == s[..lo] && out[lo + 1..] == s[hi..]
  {
  }
}
