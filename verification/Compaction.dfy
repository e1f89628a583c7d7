/** The ceiling on a row: exact merging of touching intervals first, dropping the
    coldest intervals only when no exact merge is left. */
module Compaction {
  import opened Spans
  import opened Sorting
  import Seqs

  /* ---------- well-formedness of insertion ---------- */

  lemma {:induction false} JoinAllBounds(acc: Span, xs: Row)
    ensures var m := JoinAll(acc, xs);
            && m.start <= acc.start && acc.end <= m.end && acc.at <= m.at
            && (forall i :: 0 <= i < |xs| ==> m.start <= xs[i].start && xs[i].end <= m.end && xs[i].at <= m.at)
            && (m.start == acc.start || exists i :: 0 <= i < |xs| && m.start == xs[i].start)
            && (m.end == acc.end || exists i :: 0 <= i < |xs| && m.end == xs[i].end)
            && (m.at == acc.at || exists i :: 0 <= i < |xs| && m.at == xs[i].at)
    decreases |xs|
  {
    if |xs| != 0 {
      JoinAllBounds(Join(acc, xs[0]), xs[1..]);
      assert xs == [xs[0]] + xs[1..];
    }
  }

  lemma SpliceWellFormed(a: Row, m: Span, c: Row)
    requires WellFormed(a) && WellFormed(c) && m.start < m.end
    requires forall i :: 0 <= i < |a| ==> a[i].end <= m.start
    requires forall i :: 0 <= i < |c| ==> m.end <= c[i].start
    requires forall i, j :: 0 <= i < |a| && 0 <= j < |c| ==> a[i].end <= c[j].start
    ensures WellFormed(a + ([m] + c))
  {
  }

  /** The merged interval fits the gap its parts leave in the row. */
  lemma MergedFits(row: Row, lo: nat, hi: nat, added: Span)
    requires WellFormed(row) && Located(row, lo, hi, added.start, added.end) && added.start < added.end
    ensures var m := JoinAll(added, row[lo..hi]);
            && m.start <= added.start && added.end <= m.end
            && (forall i :: 0 <= i < lo ==> row[i].end <= m.start)
            && (forall i :: hi <= i < |row| ==> m.end <= row[i].start)
  {
    var xs := row[lo..hi];
    var m := JoinAll(added, xs);
    JoinAllBounds(added, xs);
    if m.start != added.start {
      var k :| 0 <= k < |xs| && m.start == xs[k].start;
      assert row[lo + k].start == m.start;
    }
    if m.end != added.end {
      var k :| 0 <= k < |xs| && m.end == xs[k].end;
      assert row[lo + k].end == m.end;
    }
  }

  lemma PartsFit(row: Row, lo: nat, hi: nat, m: Span)
    requires WellFormed(row) && lo <= hi <= |row| && m.start < m.end
    requires forall i :: 0 <= i < lo ==> row[i].end <= m.start
    requires forall i :: hi <= i < |row| ==> m.end <= row[i].start
    ensures WellFormed(row[..lo] + ([m] + row[hi..]))
  {
    SpliceWellFormed(row[..lo], m, row[hi..]);
  }

  /** A row built by insertions stays sorted, non-empty per interval and
      non-overlapping. */
  lemma InsertWellFormed(row: Row, start: nat, end: nat, now: nat)
    requires WellFormed(row) && SortedByStart(row)
    ensures WellFormed(Insert(row, start, end, now))
  {
    if start < end {
      var lo, hi := InsertParts(row, start, end, now);
      MergedFits(row, lo, hi, Span(start, end, now, 0));
      PartsFit(row, lo, hi, JoinAll(Span(start, end, now, 0), row[lo..hi]));
    }
  }

  /* ---------- merging touching neighbours ---------- */

  predicate Touch(x: Span, y: Span) { x.end == y.start }

  /** Two neighbours as one, the way the halving pass writes them. */
  function Fuse(x: Span, y: Span): Span {
    Span(x.start, y.end, Max(x.at, y.at), x.heat + y.heat)
  }

  /** One halving pass. */
  function MergePass(row: Row): (out: Row)
    ensures |out| <= |row|
  {
    if |row| < 2 then row
    else if Touch(row[0], row[1]) then [Fuse(row[0], row[1])] + MergePass(row[2..])
    else [row[0]] + MergePass(row[1..])
  }

  predicate HasTouching(row: Row) {
    exists i :: 0 <= i < |row| - 1 && Touch(row[i], row[i + 1])
  }

  /** Every maximal run of touching intervals as one interval: what the row means
      once stamps inside a run no longer matter. */
  function Coalesce(row: Row): (out: Row)
    decreases |row|
  {
    if |row| < 2 then row
    else if Touch(row[0], row[1]) then Coalesce([Fuse(row[0], row[1])] + row[2..])
    else [row[0]] + Coalesce(row[1..])
  }

  function TotalHeat(row: Row): nat {
    if |row| == 0 then 0 else row[0].heat + TotalHeat(row[1..])
  }

  /** A pass shortens the row exactly when something touches, and is the identity
      otherwise. */
  lemma {:induction false} MergePassProgress(row: Row)
    ensures HasTouching(row) ==> |MergePass(row)| < |row|
    ensures !HasTouching(row) ==> MergePass(row) == row
    decreases |row|
  {
    if |row| >= 2 && !Touch(row[0], row[1]) {
      MergePassProgress(row[1..]);
      if HasTouching(row) {
        var i :| 0 <= i < |row| - 1 && Touch(row[i], row[i + 1]);
        assert Touch(row[1..][i - 1], row[1..][i]);
      } else {
        forall i | 0 <= i < |row[1..]| - 1 ensures !Touch(row[1..][i], row[1..][i + 1]) {
          assert !Touch(row[i + 1], row[i + 1 + 1]);
        }
        assert [row[0]] + row[1..] == row;
      }
    }
  }

  lemma CoalesceCons(x: Span, rest: Row)
    requires |rest| > 0
    ensures Coalesce([x] + rest)
         == if Touch(x, rest[0]) then Coalesce([Fuse(x, rest[0])] + rest[1..]) else [x] + Coalesce(rest)
  {
    assert ([x] + rest)[2..] == rest[1..];
    assert ([x] + rest)[1..] == rest;
  }

  lemma {:induction false} CoalesceAfterPass(x: Span, rest: Row)
    ensures Coalesce([x] + MergePass(rest)) == Coalesce([x] + rest)
    decreases |rest|
  {
    if |rest| < 2 {
    } else if Touch(rest[0], rest[1]) {
      var y, z, tail := rest[0], rest[1], rest[2..];
      assert rest[1..][1..] == tail;
      CoalesceCons(x, rest);
      CoalesceCons(x, [Fuse(y, z)] + MergePass(tail));
      assert ([Fuse(y, z)] + MergePass(tail))[1..] == MergePass(tail);
      if Touch(x, y) {
        CoalesceAfterPass(Fuse(x, Fuse(y, z)), tail);
        CoalesceCons(Fuse(x, y), rest[1..]);
        assert Fuse(Fuse(x, y), z) == Fuse(x, Fuse(y, z));
      } else {
        CoalesceAfterPass(Fuse(y, z), tail);
      }
    } else {
      var y := rest[0];
      CoalesceCons(x, rest);
      CoalesceCons(x, [y] + MergePass(rest[1..]));
      assert ([y] + MergePass(rest[1..]))[1..] == MergePass(rest[1..]);
      CoalesceAfterPass(Fuse(x, y), rest[1..]);
      CoalesceAfterPass(y, rest[1..]);
      assert [y] + rest[1..] == rest;
    }
  }

  /** Halving passes never change what the row means. */
  lemma MergePassKeepsMeaning(row: Row)
    ensures Coalesce(MergePass(row)) == Coalesce(row)
  {
    if |row| >= 2 {
      if Touch(row[0], row[1]) {
        CoalesceAfterPass(Fuse(row[0], row[1]), row[2..]);
      } else {
        CoalesceAfterPass(row[0], row[1..]);
        assert [row[0]] + row[1..] == row;
      }
    }
  }

  lemma {:induction false} CoalesceOfGapped(row: Row)
    requires !HasTouching(row)
    ensures Coalesce(row) == row
    decreases |row|
  {
    if |row| >= 2 {
      assert Touch(row[0], row[0 + 1]) ==> HasTouching(row);
      forall i | 0 <= i < |row[1..]| - 1 ensures !Touch(row[1..][i], row[1..][i + 1]) {
        assert !Touch(row[i + 1], row[i + 1 + 1]);
      }
      CoalesceOfGapped(row[1..]);
      assert [row[0]] + row[1..] == row;
    }
  }

  lemma FuseWellFormed(x: Span, y: Span, rest: Row)
    requires WellFormed([x, y] + rest) && Touch(x, y)
    ensures WellFormed([Fuse(x, y)] + rest)
    ensures SameBytes([Fuse(x, y)] + rest, [x, y] + rest)
  {
    var row := [x, y] + rest;
    assert row[0] == x && row[1] == y;
    forall i | 0 <= i < |rest| ensures rest[i].start < rest[i].end && y.end <= rest[i].start {
      assert row[i + 2] == rest[i];
    }
    forall i, j | 0 <= i < j < |rest| ensures rest[i].end <= rest[j].start {
      assert row[i + 2] == rest[i] && row[j + 2] == rest[j];
    }
    forall b: nat ensures Covers([Fuse(x, y)] + rest, b) <==> Covers(row, b) {
      CoversHead(Fuse(x, y), rest, b);
      CoversHead(x, [y] + rest, b);
      CoversHead(y, rest, b);
      assert row == [x] + ([y] + rest);
    }
  }

  /** Coalescing a well-formed row keeps every byte and every read, and leaves
      only gapped intervals, the first starting where the row started. */
  lemma {:induction false} CoalesceExact(row: Row)
    requires WellFormed(row)
    ensures WellFormed(Coalesce(row)) && !HasTouching(Coalesce(row))
    ensures SameBytes(Coalesce(row), row)
    ensures TotalHeat(Coalesce(row)) == TotalHeat(row)
    ensures |Coalesce(row)| <= |row|
    ensures |row| > 0 ==> |Coalesce(row)| > 0 && Coalesce(row)[0].start == row[0].start
    decreases |row|
  {
    if |row| >= 2 {
      var x, y, rest := row[0], row[1], row[2..];
      PairTail(row);
      if Touch(x, y) {
        FuseWellFormed(x, y, rest);
        CoalesceExact([Fuse(x, y)] + rest);
        Seqs.UnCons(Fuse(x, y), rest);
      } else {
        SliceWellFormed(row, 1);
        CoalesceExact(row[1..]);
        Seqs.ConsTail(row);
        ConsCoalesced(x, row[1..], Coalesce(row[1..]));
      }
    }
  }

  lemma ConsCoalesced(x: Span, rest: Row, out: Row)
    requires WellFormed([x] + rest) && |rest| > 0 && !Touch(x, rest[0])
    requires WellFormed(out) && !HasTouching(out) && SameBytes(out, rest)
    requires |out| > 0 && out[0].start == rest[0].start
    ensures WellFormed([x] + out) && !HasTouching([x] + out) && SameBytes([x] + out, [x] + rest)
    ensures TotalHeat([x] + out) == x.heat + TotalHeat(out)
  {
    assert ([x] + out)[1..] == out;
    assert ([x] + rest)[0] == x && ([x] + rest)[1] == rest[0];
    forall i | 0 <= i < |out| ensures x.end <= out[i].start {
      if i > 0 { assert out[0].start < out[0].end <= out[i].start; }
    }
    forall i | 0 <= i < |[x] + out| - 1 ensures !Touch(([x] + out)[i], ([x] + out)[i + 1]) {
      if i > 0 { assert !Touch(out[i - 1], out[i - 1 + 1]); }
    }
    forall b: nat ensures Covers([x] + out, b) <==> Covers([x] + rest, b) {
      CoversHead(x, out, b);
      CoversHead(x, rest, b);
    }
  }

  /* ---------- what the fused intervals carry ---------- */

  /** Each interval touches the next. */
  ghost predicate Chain(g: Row) { forall i :: 0 <= i < |g| - 1 ==> g[i].end == g[i + 1].start }

  /** No stamp is later, and one is as late. */
  ghost predicate Latest(at: nat, g: Row) {
    (forall i :: 0 <= i < |g| ==> g[i].at <= at) && exists i :: 0 <= i < |g| && g[i].at == at
  }

  /** `y` sums up a chain of intervals: their hull, the latest of their stamps, the sum
      of their reads. */
  ghost predicate SumsUp(y: Span, g: Row) {
    && |g| > 0 && y.start == g[0].start && y.end == g[|g| - 1].end
    && Chain(g) && Latest(y.at, g) && y.heat == TotalHeat(g)
  }

  /** The row falls into consecutive chains that `out` sums up one by one. */
  ghost predicate Groups(row: Row, out: Row)
    decreases |out|
  {
    if |out| == 0 then |row| == 0
    else exists n :: 0 < n <= |row| && SumsUp(out[0], row[..n]) && Groups(row[n..], out[1..])
  }

  lemma GroupsCons(row: Row, n: nat, y: Span, out: Row)
    requires 0 < n <= |row| && SumsUp(y, row[..n]) && Groups(row[n..], out)
    ensures Groups(row, [y] + out)
  {
    Seqs.UnCons(y, out);
  }

  lemma SumsUpOne(x: Span)
    ensures SumsUp(x, [x])
  {
    assert [x][1..] == [] && [x][0].at == x.at;
  }

  lemma SumsUpTwo(x: Span, y: Span)
    requires Touch(x, y)
    ensures SumsUp(Fuse(x, y), [x, y])
  {
    SumsUpOne(x);
    assert [x, y][1..] == [y] && [y][1..] == [];
    assert [x, y][if x.at < y.at then 1 else 0].at == Fuse(x, y).at;
  }

  /** A halving pass sums up neighbours: latest stamp, all reads. */
  lemma {:induction false} MergePassGroups(row: Row)
    ensures Groups(row, MergePass(row))
    decreases |row|
  {
    if |row| == 1 {
      SumsUpOne(row[0]);
      assert row[..1] == [row[0]] == row && row[1..] == [];
      GroupsCons(row, 1, row[0], []);
    } else if |row| >= 2 {
      var n := if Touch(row[0], row[1]) then 2 else 1;
      MergePassGroups(row[n..]);
      if n == 2 {
        SumsUpTwo(row[0], row[1]);
        assert row[..2] == [row[0], row[1]];
      } else {
        SumsUpOne(row[0]);
        assert row[..1] == [row[0]];
      }
      GroupsCons(row, n, MergePass(row)[0], MergePass(row[n..]));
    }
  }

  lemma UnfuseChain(x: Span, y: Span, g: Row)
    requires Touch(x, y) && Chain([Fuse(x, y)] + g)
    ensures Chain([x, y] + g)
  {
    var f, c := [Fuse(x, y)] + g, [x, y] + g;
    forall i | 0 <= i < |c| - 1 ensures c[i].end == c[i + 1].start {
      if i > 0 { assert f[i - 1].end == f[i - 1 + 1].start; }
    }
  }

  lemma UnfuseLatest(x: Span, y: Span, g: Row, at: nat)
    requires Latest(at, [Fuse(x, y)] + g)
    ensures Latest(at, [x, y] + g)
  {
    var f, c := [Fuse(x, y)] + g, [x, y] + g;
    forall i | 0 <= i < |c| ensures c[i].at <= at {
      if i > 1 { assert c[i] == f[i - 1]; } else { assert f[0].at <= at; }
    }
    var i :| 0 <= i < |f| && f[i].at == at;
    assert c[if i > 0 then i + 1 else if x.at < y.at then 1 else 0].at == at;
  }

  lemma UnfuseHeat(x: Span, y: Span, g: Row)
    ensures TotalHeat([x, y] + g) == TotalHeat([Fuse(x, y)] + g)
  {
    Seqs.UnCons(Fuse(x, y), g);
    assert [x, y] + g == [x] + ([y] + g);
    Seqs.UnCons(x, [y] + g);
    Seqs.UnCons(y, g);
  }

  /** A chain whose head is two fused intervals is the chain that starts with the two. */
  lemma Unfuse(x: Span, y: Span, g: Row, z: Span)
    requires Touch(x, y) && SumsUp(z, [Fuse(x, y)] + g)
    ensures SumsUp(z, [x, y] + g)
  {
    UnfuseChain(x, y, g);
    UnfuseLatest(x, y, g, z.at);
    UnfuseHeat(x, y, g);
    assert ([x, y] + g)[0] == x && ([Fuse(x, y)] + g)[0] == Fuse(x, y);
    if |g| > 0 { assert ([x, y] + g)[|g| + 1] == g[|g| - 1] == ([Fuse(x, y)] + g)[|g|]; }
  }

  /** Fusing every touching run sums up maximal chains: each interval of the result has
      the latest stamp and all the reads of the intervals it stands for. */
  lemma {:induction false} CoalesceGroups(row: Row)
    ensures Groups(row, Coalesce(row))
    decreases |row|
  {
    if |row| == 1 {
      MergePassGroups(row);
    } else if |row| >= 2 {
      var x, y, rest := row[0], row[1], row[2..];
      if Touch(x, y) {
        CoalesceGroups([Fuse(x, y)] + rest);
        GroupsUnfuse(x, y, rest, Coalesce(row));
        assert row == [x, y] + rest;
      } else {
        CoalesceGroups(row[1..]);
        SumsUpOne(x);
        assert row[..1] == [x];
        GroupsCons(row, 1, x, Coalesce(row[1..]));
      }
    }
  }

  lemma UnfuseSlices(x: Span, y: Span, rest: Row, n: nat)
    requires 0 < n <= |rest| + 1
    ensures var f, row := [Fuse(x, y)] + rest, [x, y] + rest;
            && f[..n] == [Fuse(x, y)] + rest[..n - 1] && row[..n + 1] == [x, y] + rest[..n - 1]
            && f[n..] == row[n + 1..]
  {
  }

  lemma GroupsUnfuse(x: Span, y: Span, rest: Row, out: Row)
    requires Touch(x, y) && Groups([Fuse(x, y)] + rest, out)
    ensures Groups([x, y] + rest, out)
  {
    var f, row := [Fuse(x, y)] + rest, [x, y] + rest;
    var n :| 0 < n <= |f| && SumsUp(out[0], f[..n]) && Groups(f[n..], out[1..]);
    UnfuseSlices(x, y, rest, n);
    Unfuse(x, y, rest[..n - 1], out[0]);
    GroupsHead(row, n + 1, out);
  }

  lemma GroupsHead(row: Row, n: nat, out: Row)
    requires |out| > 0 && 0 < n <= |row| && SumsUp(out[0], row[..n]) && Groups(row[n..], out[1..])
    ensures Groups(row, out)
  {
  }

  /* ---------- the reads an insertion gathers ---------- */

  lemma {:induction false} HeatConcat(a: Row, c: Row)
    ensures TotalHeat(a + c) == TotalHeat(a) + TotalHeat(c)
  {
    if |a| == 0 {
      Seqs.EmptyConcat(c);
    } else {
      HeatConcat(a[1..], c);
      Seqs.TailConcat(a, c);
    }
  }

  lemma {:induction false} JoinAllHeat(acc: Span, xs: Row)
    ensures JoinAll(acc, xs).heat == acc.heat + TotalHeat(xs)
    decreases |xs|
  {
    if |xs| != 0 { JoinAllHeat(Join(acc, xs[0]), xs[1..]); }
  }

  lemma HeatParts(row: Row, lo: nat, hi: nat)
    requires lo <= hi <= |row|
    ensures TotalHeat(row) == TotalHeat(row[..lo]) + TotalHeat(row[lo..hi]) + TotalHeat(row[hi..])
  {
    Seqs.SplitAt(row, lo);
    HeatConcat(row[..lo], row[lo..]);
    Seqs.SplitAt(row[lo..], hi - lo);
    assert row[lo..][..hi - lo] == row[lo..hi] && row[lo..][hi - lo..] == row[hi..];
    HeatConcat(row[lo..hi], row[hi..]);
  }

  lemma HeatAround(a: Row, m: Span, c: Row)
    ensures TotalHeat(a + ([m] + c)) == TotalHeat(a) + m.heat + TotalHeat(c)
  {
    HeatConcat(a, [m] + c);
    Seqs.UnCons(m, c);
  }

  /** An insertion keeps every recorded read: the new interval has those of the
      intervals it swallowed, and the others their own. */
  lemma InsertHeat(row: Row, start: nat, end: nat, now: nat)
    requires WellFormed(row) && SortedByStart(row)
    ensures TotalHeat(Insert(row, start, end, now)) == TotalHeat(row)
  {
    if start < end {
      var lo, hi := InsertParts(row, start, end, now);
      JoinAllHeat(Span(start, end, now, 0), row[lo..hi]);
      HeatParts(row, lo, hi);
      HeatAround(row[..lo], JoinAll(Span(start, end, now, 0), row[lo..hi]), row[hi..]);
    }
  }

  /* ---------- dropping the coldest ---------- */

  predicate ByStamp(x: Span, y: Span) { x.at <= y.at }

  predicate ByStart(x: Span, y: Span) { x.start <= y.start }

  predicate LowerOffset(x: Span, y: Span) { x.start < y.start }

  /** Stamp order, lower offsets first among equal stamps. */
  ghost predicate Colder(x: Span, y: Span) {
    x.at < y.at || (x.at == y.at && x.start < y.start)
  }

  function DropColdest(row: Row, n: nat): Row {
    var byStamp := Sort(row, ByStamp);
    Sort(byStamp[Min(n, |byStamp|)..], ByStart)
  }

  /** The intervals a cold drop takes. */
  ghost function Dropped(row: Row, n: nat): Row {
    Sort(row, ByStamp)[..Min(n, |Sort(row, ByStamp)|)]
  }

  lemma SubsetDistinct(row: Row, out: Row)
    requires WellFormed(row) && multiset(out) <= multiset(row)
    ensures forall i, j :: 0 <= i < j < |out| ==> out[i] != out[j]
  {
    forall i, j | 0 <= i < j < |out| ensures out[i] != out[j] {
      if out[i] == out[j] {
        Twice(out, i, j);
        forall k, l | 0 <= k < l < |row| ensures row[k] != row[l] {
          assert row[k].start < row[k].end <= row[l].start;
        }
        Once(row, out[i]);
        assert false;
      }
    }
  }

  lemma SubsetMember(row: Row, out: Row, i: nat) returns (k: nat)
    requires multiset(out) <= multiset(row) && i < |out|
    ensures k < |row| && row[k] == out[i]
  {
    assert out[i] in multiset(out);
    assert out[i] in multiset(row);
    k :| 0 <= k < |row| && row[k] == out[i];
  }

  /** Intervals of a well-formed row, in start order again, are well formed. */
  lemma SubsetWellFormed(row: Row, out: Row)
    requires WellFormed(row) && Sorted(out, ByStart)
    requires multiset(out) <= multiset(row)
    ensures WellFormed(out)
  {
    forall i | 0 <= i < |out| ensures out[i].start < out[i].end {
      var k := SubsetMember(row, out, i);
    }
    SubsetDistinct(row, out);
    forall i, j | 0 <= i < j < |out| ensures out[i].end <= out[j].start {
      var k := SubsetMember(row, out, i);
      var l := SubsetMember(row, out, j);
      assert ByStart(out[i], out[j]);
      assert k != l;
    }
  }

  lemma SortsColdestFirst(row: Row)
    requires WellFormed(row)
    ensures multiset(Sort(row, ByStamp)) == multiset(row) && |Sort(row, ByStamp)| == |row|
    ensures forall i, j :: 0 <= i < j < |row| ==> Colder(Sort(row, ByStamp)[i], Sort(row, ByStamp)[j])
  {
    SortSorts(row, ByStamp);
    assert Sorted(row, LowerOffset) by {
      forall i, j | 0 <= i < j < |row| ensures LowerOffset(row[i], row[j]) {
        assert row[i].start < row[i].end <= row[j].start;
      }
    }
    SortStable(row, ByStamp, LowerOffset);
    var s := Sort(row, ByStamp);
    forall i, j | 0 <= i < j < |row| ensures Colder(s[i], s[j]) {
      assert ByStamp(s[i], s[j]) && (ByStamp(s[j], s[i]) ==> LowerOffset(s[i], s[j]));
    }
  }

  lemma SplitMultiset(s: Row, n: nat)
    requires n <= |s|
    ensures multiset(s) == multiset(s[n..]) + multiset(s[..n])
  {
    assert s == s[..n] + s[n..];
  }

  lemma DropSplits(row: Row, n: nat)
    requires WellFormed(row) && n <= |row|
    ensures multiset(DropColdest(row, n)) + multiset(Dropped(row, n)) == multiset(row)
    ensures |Dropped(row, n)| == n && |DropColdest(row, n)| == |row| - n
    ensures Sorted(DropColdest(row, n), ByStart)
  {
    SortsColdestFirst(row);
    var s := Sort(row, ByStamp);
    SortSorts(s[n..], ByStart);
    SplitMultiset(s, n);
  }

  lemma DropTakesColdest(row: Row, n: nat, x: Span, y: Span)
    requires WellFormed(row) && n <= |row|
    requires x in Dropped(row, n) && y in DropColdest(row, n)
    ensures Colder(x, y)
  {
    SortsColdestFirst(row);
    var s := Sort(row, ByStamp);
    var i :| 0 <= i < n && s[..n][i] == x;
    var j := SurvivorAt(s, n, y);
    assert Colder(s[i], s[j]);
  }

  lemma SurvivorAt(s: Row, n: nat, y: Span) returns (j: nat)
    requires n <= |s| && y in Sort(s[n..], ByStart)
    ensures n <= j < |s| && s[j] == y
  {
    SortSorts(s[n..], ByStart);
    SameElements(Sort(s[n..], ByStart), s[n..]);
    var k :| 0 <= k < |s[n..]| && s[n..][k] == y;
    j := n + k;
  }

  /** A cold drop of `n` splits the row into exactly `n` dropped intervals and
      the survivors, every dropped one colder than every survivor. */
  lemma DropColdestExact(row: Row, n: nat)
    requires WellFormed(row) && n <= |row|
    ensures multiset(DropColdest(row, n)) + multiset(Dropped(row, n)) == multiset(row)
    ensures |Dropped(row, n)| == n && |DropColdest(row, n)| == |row| - n
    ensures forall x, y :: x in Dropped(row, n) && y in DropColdest(row, n) ==> Colder(x, y)
    ensures WellFormed(DropColdest(row, n))
  {
    DropSplits(row, n);
    forall x, y | x in Dropped(row, n) && y in DropColdest(row, n) ensures Colder(x, y) {
      DropTakesColdest(row, n, x, y);
    }
    SubsetWellFormed(row, DropColdest(row, n));
  }

  /** On any row, well formed or not, a cold drop only removes intervals. */
  lemma DropColdestShrinks(row: Row, n: nat)
    ensures SortedByStart(DropColdest(row, n))
    ensures |DropColdest(row, n)| == |row| - Min(n, |row|)
    ensures forall x :: x in DropColdest(row, n) ==> x in row
  {
    var s := Sort(row, ByStamp);
    SortSorts(row, ByStamp);
    var kept, out := s[Min(n, |s|)..], DropColdest(row, n);
    SortSorts(kept, ByStart);
    SameElements(out, kept);
    SameElements(s, row);
    forall i, j | 0 <= i < j < |out| ensures out[i].start <= out[j].start {
      assert ByStart(out[i], out[j]);
    }
  }

  /* ---------- the ceiling ---------- */

  /** `compact`: exact merges while the row is too long, a cold drop when none
      is left. */
  function Compact(row: Row): Row
    decreases |row|
  {
    if |row| <= MAX_INTERVALS_PER_KEY then row
    else if HasTouching(row) then
      MergePassProgress(row);
      Compact(MergePass(row))
    else DropColdest(row, |row| - MAX_INTERVALS_PER_KEY)
  }

  /** `add_interval`. */
  function AddSpan(row: Row, start: nat, end: nat, now: nat): Row
    requires SortedByStart(row)
  {
    if start >= end then row else Compact(Insert(row, start, end, now))
  }

  lemma {:induction false} MergePassWellFormed(row: Row)
    requires WellFormed(row)
    ensures WellFormed(MergePass(row)) && SameBytes(MergePass(row), row)
    ensures |row| > 0 ==> |MergePass(row)| > 0 && MergePass(row)[0].start == row[0].start
    ensures TotalHeat(MergePass(row)) == TotalHeat(row)
    decreases |row|
  {
    if |row| >= 2 {
      if Touch(row[0], row[1]) {
        var m, rest := Fuse(row[0], row[1]), row[2..];
        PairTail(row);
        FuseWellFormed(row[0], row[1], rest);
        SliceWellFormed(row, 2);
        MergePassWellFormed(rest);
        ConsPassed(m, rest, MergePass(rest));
      } else {
        Seqs.ConsTail(row);
        SliceWellFormed(row, 1);
        MergePassWellFormed(row[1..]);
        ConsPassed(row[0], row[1..], MergePass(row[1..]));
      }
    }
  }

  lemma PairTail(row: Row)
    requires |row| >= 2
    ensures row == [row[0], row[1]] + row[2..]
    ensures row[1..][1..] == row[2..]
  {
  }

  lemma SliceWellFormed(row: Row, n: nat)
    requires WellFormed(row) && n <= |row|
    ensures WellFormed(row[n..])
  {
  }

  lemma ConsPassed(x: Span, rest: Row, out: Row)
    requires WellFormed([x] + rest) && WellFormed(out) && SameBytes(out, rest)
    requires |rest| > 0 ==> |out| > 0 && out[0].start == rest[0].start
    requires |rest| == 0 ==> |out| == 0
    ensures WellFormed([x] + out) && SameBytes([x] + out, [x] + rest)
    ensures TotalHeat([x] + out) == x.heat + TotalHeat(out)
  {
    assert ([x] + out)[1..] == out;
    assert ([x] + rest)[0] == x;
    if |rest| > 0 {
      assert ([x] + rest)[1] == rest[0];
      forall i | 0 <= i < |out| ensures x.end <= out[i].start {
        if i > 0 { assert out[0].start < out[0].end <= out[i].start; }
      }
    }
    forall b: nat ensures Covers([x] + out, b) <==> Covers([x] + rest, b) {
      CoversHead(x, out, b);
      CoversHead(x, rest, b);
    }
  }

  /** `out` is what the ceiling makes of `row`: the same meaning when the row has
      at most 4096 touching runs, the coalesced row minus its coldest runs and
      exactly at the ceiling otherwise. */
  ghost predicate Compacted(row: Row, out: Row) {
    && WellFormed(out) && |out| <= MAX_INTERVALS_PER_KEY
    && var runs := Coalesce(row);
       if |runs| <= MAX_INTERVALS_PER_KEY then Coalesce(out) == runs
       else |out| == MAX_INTERVALS_PER_KEY && out == DropColdest(runs, |runs| - MAX_INTERVALS_PER_KEY)
  }

  lemma DropCompacts(row: Row)
    requires WellFormed(row) && !HasTouching(row) && |row| > MAX_INTERVALS_PER_KEY
    ensures Compacted(row, DropColdest(row, |row| - MAX_INTERVALS_PER_KEY))
  {
    CoalesceOfGapped(row);
    DropKeepsShape(row, |row| - MAX_INTERVALS_PER_KEY);
  }

  lemma PassCompacts(row: Row, out: Row)
    requires Compacted(MergePass(row), out)
    ensures Compacted(row, out)
  {
    MergePassKeepsMeaning(row);
  }

  lemma ShortCompacts(row: Row)
    requires WellFormed(row) && |row| <= MAX_INTERVALS_PER_KEY
    ensures Compacted(row, row)
  {
    CoalesceShorter(row);
  }

  /** The ceiling in full. */
  lemma {:induction false} CompactExact(row: Row)
    requires WellFormed(row)
    ensures Compacted(row, Compact(row))
    decreases |row|
  {
    if |row| <= MAX_INTERVALS_PER_KEY {
      ShortCompacts(row);
    } else if HasTouching(row) {
      MergePassProgress(row);
      PassKeepsShape(row);
      CompactExact(MergePass(row));
      PassCompacts(row, Compact(MergePass(row)));
    } else {
      DropCompacts(row);
    }
  }

  lemma DropKeepsShape(row: Row, n: nat)
    requires WellFormed(row) && n <= |row|
    ensures WellFormed(DropColdest(row, n)) && |DropColdest(row, n)| == |row| - n
  {
    DropColdestExact(row, n);
  }

  lemma CoalesceShorter(row: Row)
    requires WellFormed(row)
    ensures |Coalesce(row)| <= |row|
  {
    CoalesceExact(row);
  }

  lemma PassKeepsShape(row: Row)
    requires WellFormed(row)
    ensures WellFormed(MergePass(row))
  {
    MergePassWellFormed(row);
  }

  lemma ADropLosesBytes(row: Row, n: nat)
    requires WellFormed(row) && 0 < n <= |row|
    ensures SubBytes(DropColdest(row, n), row) && !SameBytes(DropColdest(row, n), row)
  {
    DropColdestShrinks(row, n);
    DropColdestExact(row, n);
    var out, gone := DropColdest(row, n), Dropped(row, n);
    MembersCover(out, row);
    var x := gone[0];
    assert x in gone && x in multiset(gone) && x in multiset(row);
    var k :| 0 <= k < |row| && row[k] == x;
    assert Covers(row, x.start);
    forall i | 0 <= i < |out| ensures !(out[i].start <= x.start < out[i].end) {
      assert out[i] in out && Colder(x, out[i]);
      var l :| 0 <= l < |row| && row[l] == out[i];
      assert l < k || k < l;
    }
  }

  lemma MembersCover(out: Row, row: Row)
    requires forall x :: x in out ==> x in row
    ensures SubBytes(out, row)
  {
    forall b: nat | Covers(out, b) ensures Covers(row, b) {
      var i :| 0 <= i < |out| && out[i].start <= b < out[i].end;
      assert out[i] in row;
      var k :| 0 <= k < |row| && row[k] == out[i];
    }
  }

  lemma SameMeaningSameBytes(row: Row, out: Row)
    requires WellFormed(row) && WellFormed(out) && Coalesce(out) == Coalesce(row)
    ensures SameBytes(out, row) && TotalHeat(out) == TotalHeat(row)
  {
    CoalesceExact(row);
    CoalesceExact(out);
  }

  lemma FewerBytes(row: Row, runs: Row, out: Row)
    requires SameBytes(runs, row) && SubBytes(out, runs) && !SameBytes(out, runs)
    ensures SubBytes(out, row) && !SameBytes(out, row)
  {
    if SameBytes(out, row) {
      assert SameBytes(out, runs);
    }
  }

  /** Compaction keeps the byte set exactly when the row has at most 4096
      touching runs: the condition a caller can count beforehand. Then it keeps
      every recorded read as well. */
  lemma CompactKeepsBytesIff(row: Row)
    requires WellFormed(row)
    ensures SubBytes(Compact(row), row)
    ensures SameBytes(Compact(row), row) <==> |Coalesce(row)| <= MAX_INTERVALS_PER_KEY
    ensures |Coalesce(row)| <= MAX_INTERVALS_PER_KEY ==> TotalHeat(Compact(row)) == TotalHeat(row)
  {
    CompactExact(row);
    CompactedBytes(row, Compact(row));
  }

  lemma CompactedBytes(row: Row, out: Row)
    requires WellFormed(row) && Compacted(row, out)
    ensures SubBytes(out, row)
    ensures SameBytes(out, row) <==> |Coalesce(row)| <= MAX_INTERVALS_PER_KEY
    ensures |Coalesce(row)| <= MAX_INTERVALS_PER_KEY ==> TotalHeat(out) == TotalHeat(row)
  {
    if |Coalesce(row)| > MAX_INTERVALS_PER_KEY { DroppedBytes(row, out); } else { SameMeaningSameBytes(row, out); }
  }

  lemma DroppedBytes(row: Row, out: Row)
    requires WellFormed(row) && Compacted(row, out) && |Coalesce(row)| > MAX_INTERVALS_PER_KEY
    ensures SubBytes(out, row) && !SameBytes(out, row)
  {
    var runs := Coalesce(row);
    CoalesceExact(row);
    ADropLosesBytes(runs, |runs| - MAX_INTERVALS_PER_KEY);
    FewerBytes(row, runs, out);
  }

  /* ---------- compaction of rows that are only sorted by start ---------- */

  ghost predicate StartsAmong(out: Row, row: Row) {
    forall i :: 0 <= i < |out| ==> exists k :: 0 <= k < |row| && row[k].start == out[i].start
  }

  lemma PassedHead(row: Row, n: nat, x: Span, out: Row)
    requires SortedByStart(row) && 0 < n <= |row| && x.start == row[0].start
    requires SortedByStart(out) && StartsAmong(out, row[n..])
    ensures SortedByStart([x] + out) && StartsAmong([x] + out, row)
  {
    forall i | 0 <= i < |out|
      ensures x.start <= out[i].start && exists k :: 0 <= k < |row| && row[k].start == out[i].start
    {
      var k :| 0 <= k < |row[n..]| && row[n..][k].start == out[i].start;
      assert row[n + k] == row[n..][k];
    }
  }

  lemma PassedBytes(row: Row, n: nat, x: Span, out: Row)
    requires 0 < n <= |row| && SubBytes(out, row[n..])
    requires forall b: nat :: x.start <= b < x.end ==> Covers(row[..n], b)
    ensures SubBytes([x] + out, row)
  {
    Seqs.SplitAt(row, n);
    forall b: nat | Covers([x] + out, b) ensures Covers(row, b) {
      CoversHead(x, out, b);
      CoversConcat(row[..n], row[n..], b);
    }
  }

  lemma {:induction false} MergePassSorted(row: Row)
    requires SortedByStart(row)
    ensures SortedByStart(MergePass(row)) && StartsAmong(MergePass(row), row)
    ensures SubBytes(MergePass(row), row)
    decreases |row|
  {
    if |row| >= 2 {
      var n := if Touch(row[0], row[1]) then 2 else 1;
      var x := if n == 2 then Fuse(row[0], row[1]) else row[0];
      SliceSorted(row, n, |row|);
      MergePassSorted(row[n..]);
      PassedHead(row, n, x, MergePass(row[n..]));
      forall b: nat | x.start <= b < x.end ensures Covers(row[..n], b) {
        var k := if b < row[0].end then 0 else 1;
        assert row[..n][k].start <= b < row[..n][k].end;
      }
      PassedBytes(row, n, x, MergePass(row[n..]));
    } else {
      assert forall i :: 0 <= i < |row| ==> row[i].start == row[i].start;
    }
  }

  lemma DropBounds(row: Row, n: nat)
    ensures |DropColdest(row, n)| == |row| - Min(n, |row|)
    ensures SortedByStart(DropColdest(row, n)) && SubBytes(DropColdest(row, n), row)
  {
    DropColdestShrinks(row, n);
    MembersCover(DropColdest(row, n), row);
  }

  /** Even on a row rebuilt from overlapping files, compaction ends under the
      ceiling, keeps the start order and claims nothing new. */
  lemma {:induction false} CompactBounds(row: Row)
    requires SortedByStart(row)
    ensures |Compact(row)| <= MAX_INTERVALS_PER_KEY
    ensures SortedByStart(Compact(row)) && SubBytes(Compact(row), row)
    decreases |row|
  {
    if |row| > MAX_INTERVALS_PER_KEY {
      if HasTouching(row) {
        MergePassProgress(row);
        MergePassSorted(row);
        CompactBounds(MergePass(row));
      } else {
        DropBounds(row, |row| - MAX_INTERVALS_PER_KEY);
      }
    }
  }
}
