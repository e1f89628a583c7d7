/** A stable sort, the model of the library sorts the program calls. */
module Sorting {

  ghost predicate TotalPreorder<T(!new)>(le: (T, T) -> bool) {
    && (forall x, y :: le(x, y) || le(y, x))
    && (forall x, y, z :: le(x, y) && le(y, z) ==> le(x, z))
  }

  ghost predicate Antisymmetric<T(!new)>(le: (T, T) -> bool) {
    forall x, y :: le(x, y) && le(y, x) ==> x == y
  }

  ghost predicate Sorted<T>(s: seq<T>, le: (T, T) -> bool) {
    forall i, j :: 0 <= i < j < |s| ==> le(s[i], s[j])
  }

  function Place<T>(x: T, s: seq<T>, le: (T, T) -> bool): seq<T> {
    if |s| == 0 || le(x, s[0]) then [x] + s else [s[0]] + Place(x, s[1..], le)
  }

  function Sort<T>(s: seq<T>, le: (T, T) -> bool): seq<T> {
    if |s| == 0 then [] else Place(s[0], Sort(s[1..], le), le)
  }

  lemma ConsMultiset<T>(x: T, s: seq<T>)
    ensures multiset([x] + s) == multiset{x} + multiset(s)
  {
  }

  lemma HeadTail<T>(s: seq<T>)
    requires |s| > 0
    ensures multiset(s) == multiset{s[0]} + multiset(s[1..])
  {
    assert s == [s[0]] + s[1..];
  }

  lemma Twice<T>(s: seq<T>, i: nat, j: nat)
    requires i < j < |s| && s[i] == s[j]
    ensures multiset(s)[s[i]] >= 2
  {
    assert s == s[..i] + [s[i]] + s[i + 1..j] + [s[j]] + s[j + 1..];
  }

  lemma {:induction false} Once<T>(s: seq<T>, x: T)
    requires forall i, j :: 0 <= i < j < |s| ==> s[i] != s[j]
    ensures multiset(s)[x] <= 1
  {
    if |s| != 0 {
      Once(s[1..], x);
      HeadTail(s);
      if s[0] == x { assert x !in s[1..]; }
    }
  }

  lemma {:induction false} PlaceMultiset<T>(x: T, s: seq<T>, le: (T, T) -> bool)
    ensures multiset(Place(x, s, le)) == multiset{x} + multiset(s)
    ensures |Place(x, s, le)| == |s| + 1
  {
    if |s| != 0 && !le(x, s[0]) {
      PlaceMultiset(x, s[1..], le);
      HeadTail(s);
      ConsMultiset(s[0], Place(x, s[1..], le));
    }
  }

  lemma SameElements<T>(a: seq<T>, c: seq<T>)
    requires multiset(a) == multiset(c)
    ensures |a| == |c| && forall x :: x in a <==> x in c
  {
    assert |multiset(a)| == |multiset(c)|;
    forall x ensures x in a <==> x in c {
      assert x in a <==> x in multiset(a);
      assert x in c <==> x in multiset(c);
    }
  }

  lemma {:induction false} PlaceSorts<T(!new)>(x: T, s: seq<T>, le: (T, T) -> bool)
    requires TotalPreorder(le) && Sorted(s, le)
    ensures Sorted(Place(x, s, le), le)
  {
    if |s| != 0 {
      if le(x, s[0]) {
        forall j | 0 <= j < |s| ensures le(x, s[j]) {
          if j > 0 { assert le(s[0], s[j]); }
        }
      } else {
        var rest := Place(x, s[1..], le);
        PlaceSorts(x, s[1..], le);
        PlaceMultiset(x, s[1..], le);
        forall j | 0 <= j < |rest| ensures le(s[0], rest[j]) {
          assert rest[j] in multiset(rest);
        }
      }
    }
  }

  /** The sort yields a sorted permutation. */
  lemma {:induction false} SortSorts<T(!new)>(s: seq<T>, le: (T, T) -> bool)
    requires TotalPreorder(le)
    ensures Sorted(Sort(s, le), le)
    ensures multiset(Sort(s, le)) == multiset(s)
    ensures |Sort(s, le)| == |s|
  {
    if |s| != 0 {
      SortSorts(s[1..], le);
      PlaceSorts(s[0], Sort(s[1..], le), le);
      PlaceMultiset(s[0], Sort(s[1..], le), le);
      HeadTail(s);
    }
  }

  /** `earlier` is the order the input came in; ties keep it. */
  ghost predicate SortedThen<T>(s: seq<T>, le: (T, T) -> bool, earlier: (T, T) -> bool) {
    forall i, j :: 0 <= i < j < |s| ==> le(s[i], s[j]) && (le(s[j], s[i]) ==> earlier(s[i], s[j]))
  }

  lemma {:induction false} PlaceStable<T(!new)>(x: T, s: seq<T>, le: (T, T) -> bool, earlier: (T, T) -> bool)
    requires TotalPreorder(le) && SortedThen(s, le, earlier)
    requires forall i :: 0 <= i < |s| ==> earlier(x, s[i])
    ensures SortedThen(Place(x, s, le), le, earlier)
  {
    if |s| != 0 {
      if le(x, s[0]) {
        forall j | 0 <= j < |s| ensures le(x, s[j]) {
          if j > 0 { assert le(s[0], s[j]); }
        }
      } else {
        var rest := Place(x, s[1..], le);
        PlaceStable(x, s[1..], le, earlier);
        PlaceMultiset(x, s[1..], le);
        forall j | 0 <= j < |rest|
          ensures le(s[0], rest[j]) && (le(rest[j], s[0]) ==> earlier(s[0], rest[j]))
        {
          assert rest[j] in multiset(rest);
          if rest[j] != x {
            var k :| 0 <= k < |s[1..]| && s[1..][k] == rest[j];
            assert s[k + 1] == rest[j];
          }
        }
      }
    }
  }

  /** The sort is stable: elements of equal rank keep their input order. */
  lemma {:induction false} SortStable<T(!new)>(s: seq<T>, le: (T, T) -> bool, earlier: (T, T) -> bool)
    requires TotalPreorder(le) && Sorted(s, earlier)
    ensures SortedThen(Sort(s, le), le, earlier)
  {
    if |s| != 0 {
      var rest := Sort(s[1..], le);
      SortStable(s[1..], le, earlier);
      SortSorts(s[1..], le);
      forall i | 0 <= i < |rest| ensures earlier(s[0], rest[i]) {
        assert rest[i] in multiset(rest);
        var k :| 0 <= k < |s[1..]| && s[1..][k] == rest[i];
        assert s[k + 1] == rest[i];
      }
      PlaceStable(s[0], rest, le, earlier);
    }
  }

  lemma HeadsMeet<T(!new)>(a: seq<T>, c: seq<T>, le: (T, T) -> bool)
    requires TotalPreorder(le) && |a| > 0 && |c| > 0 && Sorted(a, le)
    requires c[0] in a
    ensures le(a[0], c[0])
  {
    var i :| 0 <= i < |a| && a[i] == c[0];
    if i == 0 {
      assert le(a[0], c[0]);
    }
  }

  lemma TailMultiset<T>(a: seq<T>, c: seq<T>)
    requires |a| > 0 && |c| > 0 && a[0] == c[0] && multiset(a) == multiset(c)
    ensures multiset(a[1..]) == multiset(c[1..])
  {
    HeadTail(a);
    HeadTail(c);
    assert multiset(a[1..]) == multiset(a) - multiset{a[0]};
  }

  /** Under an antisymmetric order a multiset has one sorted arrangement. */
  lemma {:induction false} SortedUnique<T(!new)>(a: seq<T>, c: seq<T>, le: (T, T) -> bool)
    requires TotalPreorder(le) && Antisymmetric(le)
    requires Sorted(a, le) && Sorted(c, le) && multiset(a) == multiset(c)
    ensures a == c
  {
    SameElements(a, c);
    if |a| != 0 {
      HeadsMeet(a, c, le);
      HeadsMeet(c, a, le);
      TailMultiset(a, c);
      SortedUnique(a[1..], c[1..], le);
      assert a == [a[0]] + a[1..] && c == [c[0]] + c[1..];
    }
  }
}
