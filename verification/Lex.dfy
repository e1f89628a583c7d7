/** Byte-wise string order. */
module Lex {

  predicate Less(a: string, b: string) {
    |b| > 0 && (|a| == 0 || a[0] < b[0] || (a[0] == b[0] && Less(a[1..], b[1..])))
  }

  predicate AtMost(a: string, b: string) { !Less(b, a) }

  lemma {:induction false} Trichotomy(a: string, b: string)
    ensures Less(a, b) || a == b || Less(b, a)
    ensures !(Less(a, b) && Less(b, a)) && (a == b ==> !Less(a, b))
  {
    if |a| > 0 && |b| > 0 && a[0] == b[0] {
      Trichotomy(a[1..], b[1..]);
      assert a == [a[0]] + a[1..] && b == [b[0]] + b[1..];
    }
  }

  lemma {:induction false} Transitive(a: string, b: string, c: string)
    requires Less(a, b) && Less(b, c)
    ensures Less(a, c)
  {
    if |a| > 0 && a[0] == b[0] && b[0] == c[0] {
      Transitive(a[1..], b[1..], c[1..]);
    }
  }

  lemma AtMostTransitive(a: string, b: string, c: string)
    requires AtMost(a, b) && AtMost(b, c)
    ensures AtMost(a, c)
  {
    Trichotomy(a, b);
    Trichotomy(b, c);
    Trichotomy(a, c);
    if Less(a, b) && Less(b, c) { Transitive(a, b, c); }
  }

  lemma LessAtMost(a: string, b: string, c: string)
    requires Less(a, b) && AtMost(b, c)
    ensures Less(a, c)
  {
    Trichotomy(b, c);
    if Less(b, c) { Transitive(a, b, c); }
  }

  /** One string comes before another exactly when it is a shorter beginning of it, or has
      the smaller character where they first differ. */
  lemma {:induction false} LessIff(a: string, b: string)
    ensures Less(a, b)
        <==> (|a| < |b| && b[..|a|] == a) || exists k: nat :: Differ(a, b, k) && a[k] < b[k]
  {
    if |a| > 0 && |b| > 0 {
      LessIff(a[1..], b[1..]);
      if a[0] == b[0] {
        DifferLater(a, b);
        PrefixLater(a, b);
      } else {
        assert Differ(a, b, 0);
      }
    }
  }

  /** The strings first differ at `k`. */
  predicate Differ(a: string, b: string, k: nat) { k < |a| && k < |b| && a[..k] == b[..k] && a[k] != b[k] }

  lemma DifferLater(a: string, b: string)
    requires |a| > 0 && |b| > 0 && a[0] == b[0]
    ensures (exists k: nat :: Differ(a, b, k) && a[k] < b[k])
        <==> exists k: nat :: Differ(a[1..], b[1..], k) && a[1..][k] < b[1..][k]
  {
    if k: nat :| Differ(a, b, k) && a[k] < b[k] {
      assert a[1..][..k - 1] == a[..k][1..] && b[1..][..k - 1] == b[..k][1..];
      assert Differ(a[1..], b[1..], k - 1);
    }
    if k: nat :| Differ(a[1..], b[1..], k) && a[1..][k] < b[1..][k] {
      assert a[..k + 1] == [a[0]] + a[1..][..k] && b[..k + 1] == [b[0]] + b[1..][..k];
      assert Differ(a, b, k + 1);
    }
  }

  lemma PrefixLater(a: string, b: string)
    requires |a| > 0 && |b| > 0 && a[0] == b[0]
    ensures |a| < |b| && b[..|a|] == a <==> |a[1..]| < |b[1..]| && b[1..][..|a[1..]|] == a[1..]
  {
    if |a| < |b| {
      assert b[..|a|] == [b[0]] + b[1..][..|a| - 1] && a == [a[0]] + a[1..];
      if b[..|a|] == a { assert b[1..][..|a| - 1] == b[..|a|][1..]; }
    }
  }
}
