/** One key's row of the staged-byte ledger: a sorted list of byte intervals,
    each with the time it was last read and its read count. These functions say
    what the in-place row operations compute; `Coverage` implements them. */
module Spans {
  import Seqs

  datatype Span = Span(start: nat, end: nat, at: nat, heat: nat)

  type Row = seq<Span>

  const MAX_INTERVALS_PER_KEY: nat := 4096

  /** Some interval of the row holds byte `b`. */
  ghost predicate Covers(row: Row, b: nat) {
    exists i :: 0 <= i < |row| && row[i].start <= b < row[i].end
  }

  ghost predicate SameBytes(row: Row, row': Row) {
    forall b: nat :: Covers(row, b) <==> Covers(row', b)
  }

  ghost predicate SubBytes(row: Row, row': Row) {
    forall b: nat :: Covers(row, b) ==> Covers(row', b)
  }

  /** What every row keeps, even one rebuilt from overlapping files. */
  ghost predicate SortedByStart(row: Row) {
    forall i, j :: 0 <= i < j < |row| ==> row[i].start <= row[j].start
  }

  /** What a row keeps when it was built by insertions: non-empty, sorted,
      non-overlapping intervals. */
  ghost predicate WellFormed(row: Row) {
    && (forall i :: 0 <= i < |row| ==> row[i].start < row[i].end)
    && (forall i, j :: 0 <= i < j < |row| ==> row[i].end <= row[j].start)
  }

  function Max(a: nat, b: nat): nat { if a < b then b else a }

  function Min(a: nat, b: nat): nat { if a < b then a else b }

  /** Two intervals as one: their hull, the later stamp, both read counts. */
  function Join(x: Span, y: Span): Span {
    Span(Min(x.start, y.start), Max(x.end, y.end), Max(x.at, y.at), x.heat + y.heat)
  }

  lemma WellFormedIsSorted(row: Row)
    requires WellFormed(row)
    ensures SortedByStart(row)
  {
    forall i, j | 0 <= i < j < |row| ensures row[i].start <= row[j].start {
      assert row[i].start < row[i].end <= row[j].start;
    }
  }

  lemma CoversConcat(a: Row, c: Row, b: nat)
    ensures Covers(a + c, b) <==> Covers(a, b) || Covers(c, b)
  {
    if Covers(a, b) {
      var i :| 0 <= i < |a| && a[i].start <= b < a[i].end;
      assert (a + c)[i] == a[i];
    }
    if Covers(c, b) {
      var i :| 0 <= i < |c| && c[i].start <= b < c[i].end;
      assert (a + c)[|a| + i] == c[i];
    }
  }

  lemma CoversHead(x: Span, rest: Row, b: nat)
    ensures Covers([x] + rest, b) <==> x.start <= b < x.end || Covers(rest, b)
  {
    CoversConcat([x], rest, b);
    assert [x][0] == x;
  }

  /* ---------- insertion ---------- */

  /** Where the sorted row splits around `start`. */
  function PartitionPoint(row: Row, start: nat): (idx: nat)
    requires SortedByStart(row)
    ensures idx <= |row|
    ensures forall i :: 0 <= i < idx ==> row[i].start < start
    ensures forall i :: idx <= i < |row| ==> start <= row[i].start
  {
    if |row| == 0 then 0
    else if row[|row| - 1].start < start then |row|
    else PartitionPoint(row[..|row| - 1], start)
  }

  /** Fold into `acc` the leading intervals of `rest` that start before its end;
      the result is the merged interval and how many were taken. */
  function Absorb(acc: Span, rest: Row): (r: (Span, nat))
    ensures r.1 <= |rest|
    decreases |rest|
  {
    if |rest| == 0 || rest[0].start >= acc.end then (acc, 0)
    else
      var r := Absorb(Join(acc, rest[0]), rest[1..]);
      (r.0, r.1 + 1)
  }

  /** The interval before the insertion point reaches past `start`. */
  predicate Reaches(row: Row, idx: nat, start: nat)
    requires idx <= |row|
  {
    idx > 0 && row[idx - 1].end > start
  }

  /** The interval the merge starts from: the new range, joined with the
      interval before the insertion point when that one overlaps it. */
  function Seed(row: Row, idx: nat, added: Span): Span
    requires idx <= |row|
  {
    if Reaches(row, idx, added.start) then Join(row[idx - 1], added) else added
  }

  function Kept(row: Row, idx: nat, start: nat): (lo: nat)
    requires idx <= |row|
    ensures lo <= idx
  {
    if Reaches(row, idx, start) then idx - 1 else idx
  }

  /** What an insertion splices together around partition point `idx`. */
  function Splice(row: Row, idx: nat, added: Span): Row
    requires idx <= |row|
  {
    var tail := row[idx..];
    var r := Absorb(Seed(row, idx, added), tail);
    row[..Kept(row, idx, added.start)] + ([r.0] + tail[r.1..])
  }

  /** `add_interval` before the ceiling is enforced. */
  function Insert(row: Row, start: nat, end: nat, now: nat): Row
    requires SortedByStart(row)
  {
    if start >= end then row
    else Splice(row, PartitionPoint(row, start), Span(start, end, now, 0))
  }

  /** Absorbing merges only intervals that overlap, so it neither claims nor
      loses a byte. */
  lemma {:induction false} AbsorbBytes(acc: Span, rest: Row, b: nat)
    requires SortedByStart(rest)
    requires acc.start < acc.end
    requires forall i :: 0 <= i < |rest| ==> acc.start <= rest[i].start
    ensures var r := Absorb(acc, rest);
            && r.0.start == acc.start && acc.end <= r.0.end
            && (Covers([r.0] + rest[r.1..], b) <==> acc.start <= b < acc.end || Covers(rest, b))
    decreases |rest|
  {
    if |rest| == 0 || rest[0].start >= acc.end {
      CoversHead(acc, rest, b);
      assert rest[0..] == rest;
    } else {
      AbsorbBytes(Join(acc, rest[0]), rest[1..], b);
      CoversHead(rest[0], rest[1..], b);
      assert [rest[0]] + rest[1..] == rest;
      var r := Absorb(Join(acc, rest[0]), rest[1..]);
      assert rest[1..][r.1..] == rest[r.1 + 1..];
    }
  }

  /** The part of the row before the tail, with the new range, holds the same
      bytes as the kept prefix with the seed. */
  lemma SeedBytes(row: Row, idx: nat, added: Span, b: nat)
    requires idx <= |row| && added.start < added.end
    requires forall i :: 0 <= i < idx ==> row[i].start < added.start
    ensures var seed := Seed(row, idx, added);
            Covers(row[..Kept(row, idx, added.start)], b) || seed.start <= b < seed.end
            <==> Covers(row[..idx], b) || added.start <= b < added.end
  {
    if Reaches(row, idx, added.start) {
      CoversConcat(row[..idx - 1], [row[idx - 1]], b);
      CoversHead(row[idx - 1], [], b);
      assert row[..idx - 1] + [row[idx - 1]] == row[..idx];
    }
  }

  lemma SpliceSorted(a: Row, m: Span, c: Row)
    requires SortedByStart(a) && SortedByStart(c)
    requires forall i :: 0 <= i < |a| ==> a[i].start <= m.start
    requires forall i :: 0 <= i < |c| ==> m.start <= c[i].start
    ensures SortedByStart(a + ([m] + c))
  {
  }

  ghost predicate Partitioned(row: Row, idx: nat, start: nat) {
    && idx <= |row|
    && (forall i :: 0 <= i < idx ==> row[i].start < start)
    && (forall i :: idx <= i < |row| ==> start <= row[i].start)
  }

  lemma SpliceCovers(row: Row, idx: nat, added: Span, b: nat)
    requires SortedByStart(row) && Partitioned(row, idx, added.start) && added.start < added.end
    ensures Covers(Splice(row, idx, added), b) <==> Covers(row, b) || added.start <= b < added.end
  {
    var lo, seed, tail := Kept(row, idx, added.start), Seed(row, idx, added), row[idx..];
    var r := Absorb(seed, tail);
    CoversConcat(row[..lo], [r.0] + tail[r.1..], b);
    SliceSorted(row, idx, |row|);
    AbsorbBytes(seed, tail, b);
    SeedBytes(row, idx, added, b);
    CoversConcat(row[..idx], tail, b);
    Seqs.SplitAt(row, idx);
  }

  lemma SliceSorted(row: Row, i: nat, j: nat)
    requires SortedByStart(row) && i <= j <= |row|
    ensures SortedByStart(row[i..j])
  {
  }

  lemma SpliceInOrder(row: Row, idx: nat, added: Span)
    requires SortedByStart(row) && Partitioned(row, idx, added.start) && added.start < added.end
    ensures SortedByStart(Splice(row, idx, added))
  {
    var lo, seed, tail := Kept(row, idx, added.start), Seed(row, idx, added), row[idx..];
    SliceSorted(row, 0, lo);
    SliceSorted(row, idx, |row|);
    var r := Absorb(seed, tail);
    SliceSorted(tail, r.1, |tail|);
    SeedBounds(row, idx, added);
    AbsorbStart(seed, tail);
    TailBound(tail, r.1, seed.start);
    SpliceSorted(row[..lo], r.0, tail[r.1..]);
  }

  /** The merge starts between what it leaves before it and what comes after. */
  lemma SeedBounds(row: Row, idx: nat, added: Span)
    requires SortedByStart(row) && Partitioned(row, idx, added.start)
    ensures var lo, seed := Kept(row, idx, added.start), Seed(row, idx, added);
            && (forall i :: 0 <= i < |row[..lo]| ==> row[..lo][i].start <= seed.start)
            && (forall i :: 0 <= i < |row[idx..]| ==> seed.start <= row[idx..][i].start)
  {
    forall i | 0 <= i < |row[idx..]| ensures Seed(row, idx, added).start <= row[idx..][i].start {
      assert row[idx..][i] == row[idx + i];
    }
  }

  lemma TailBound(tail: Row, n: nat, start: nat)
    requires n <= |tail| && forall i :: 0 <= i < |tail| ==> start <= tail[i].start
    ensures forall i :: 0 <= i < |tail[n..]| ==> start <= tail[n..][i].start
  {
  }

  /** Intervals that come later do not move the start of a merge. */
  lemma {:induction false} AbsorbStart(acc: Span, rest: Row)
    requires forall i :: 0 <= i < |rest| ==> acc.start <= rest[i].start
    ensures Absorb(acc, rest).0.start == acc.start
    decreases |rest|
  {
    if |rest| > 0 && rest[0].start < acc.end { AbsorbStart(Join(acc, rest[0]), rest[1..]); }
  }

  /** On every row sorted by start, well-formed or not, insertion adds exactly
      the bytes of the new range and keeps the order. */
  lemma InsertBytes(row: Row, start: nat, end: nat, now: nat)
    requires SortedByStart(row)
    ensures SortedByStart(Insert(row, start, end, now))
    ensures forall b: nat :: Covers(Insert(row, start, end, now), b) <==> Covers(row, b) || start <= b < end
  {
    if start < end {
      var idx, added := PartitionPoint(row, start), Span(start, end, now, 0);
      SpliceInOrder(row, idx, added);
      forall b: nat { SpliceCovers(row, idx, added, b); }
    }
  }

  /* ---------- what insertion means on a well-formed row ---------- */

  datatype Where = Before | Overlapping | After

  function Locate(x: Span, start: nat, end: nat): Where {
    if x.end <= start then Before else if x.start >= end then After else Overlapping
  }

  /** The row falls into the intervals before the range, those overlapping it and
      those after it. */
  ghost predicate Located(row: Row, lo: nat, hi: nat, start: nat, end: nat) {
    && lo <= hi <= |row|
    && (forall i :: 0 <= i < lo ==> Locate(row[i], start, end) == Before)
    && (forall i :: lo <= i < hi ==> Locate(row[i], start, end) == Overlapping)
    && (forall i :: hi <= i < |row| ==> Locate(row[i], start, end) == After)
  }

  function Pick(row: Row, start: nat, end: nat, w: Where): Row {
    if |row| == 0 then []
    else (if Locate(row[0], start, end) == w then [row[0]] else []) + Pick(row[1..], start, end, w)
  }

  function JoinAll(acc: Span, xs: Row): Span
    decreases |xs|
  {
    if |xs| == 0 then acc else JoinAll(Join(acc, xs[0]), xs[1..])
  }

  /** The simple form: everything before the range, the range joined with every
      interval it strictly overlaps, everything after. Touching intervals are
      not overlapping, so they keep their own stamps. */
  function MergeIn(row: Row, start: nat, end: nat, now: nat): Row {
    Pick(row, start, end, Before)
    + ([JoinAll(Span(start, end, now, 0), Pick(row, start, end, Overlapping))]
       + Pick(row, start, end, After))
  }

  lemma {:induction false} PickConcat(a: Row, c: Row, start: nat, end: nat, w: Where)
    ensures Pick(a + c, start, end, w) == Pick(a, start, end, w) + Pick(c, start, end, w)
  {
    if |a| == 0 {
      Seqs.EmptyConcat(c);
      Seqs.EmptyConcat(Pick(c, start, end, w));
    } else {
      PickConcat(a[1..], c, start, end, w);
      Seqs.TailConcat(a, c);
      var first := if Locate(a[0], start, end) == w then [a[0]] else [];
      Seqs.Assoc(first, Pick(a[1..], start, end, w), Pick(c, start, end, w));
    }
  }

  lemma {:induction false} PickUniform(row: Row, start: nat, end: nat, v: Where, w: Where)
    requires forall i :: 0 <= i < |row| ==> Locate(row[i], start, end) == v
    ensures Pick(row, start, end, w) == if v == w then row else []
  {
    if |row| != 0 {
      PickUniform(row[1..], start, end, v, w);
      assert row == [row[0]] + row[1..];
    }
  }

  /** Picking from a row split into its three parts gives the parts back. */
  lemma PickParts(row: Row, lo: nat, hi: nat, start: nat, end: nat)
    requires Located(row, lo, hi, start, end)
    ensures Pick(row, start, end, Before) == row[..lo]
    ensures Pick(row, start, end, Overlapping) == row[lo..hi]
    ensures Pick(row, start, end, After) == row[hi..]
  {
    PickPart(row, lo, hi, start, end, Before);
    PickPart(row, lo, hi, start, end, Overlapping);
    PickPart(row, lo, hi, start, end, After);
  }

  lemma PickPart(row: Row, lo: nat, hi: nat, start: nat, end: nat, w: Where)
    requires Located(row, lo, hi, start, end)
    ensures Pick(row, start, end, w)
         == match w case Before => row[..lo] case Overlapping => row[lo..hi] case After => row[hi..]
  {
    PickSplits(row, lo, hi, start, end, w);
    PickUniform(row[..lo], start, end, Before, w);
    PickUniform(row[lo..hi], start, end, Overlapping, w);
    PickUniform(row[hi..], start, end, After, w);
  }

  lemma PickSplits(row: Row, lo: nat, hi: nat, start: nat, end: nat, w: Where)
    requires lo <= hi <= |row|
    ensures Pick(row, start, end, w)
         == Pick(row[..lo], start, end, w) + (Pick(row[lo..hi], start, end, w) + Pick(row[hi..], start, end, w))
  {
    assert row == row[..lo] + (row[lo..hi] + row[hi..]);
    PickConcat(row[lo..hi], row[hi..], start, end, w);
    PickConcat(row[..lo], row[lo..hi] + row[hi..], start, end, w);
  }

  /** On a well-formed tail, absorbing takes exactly the intervals that start
      before the range's end: the growing bound never reaches a later one. */
  lemma {:induction false} AbsorbTakes(acc: Span, rest: Row, end: nat)
    requires WellFormed(rest) && acc.start < end <= acc.end
    requires forall i :: 0 <= i < |rest| ==> acc.start <= rest[i].start
    requires acc.end == end || (forall i :: 0 <= i < |rest| ==> acc.end <= rest[i].start)
    ensures var r := Absorb(acc, rest);
            && (forall i :: 0 <= i < r.1 ==> rest[i].start < end)
            && (forall i :: r.1 <= i < |rest| ==> end <= rest[i].start)
            && r.0 == JoinAll(acc, rest[..r.1])
    decreases |rest|
  {
    var r := Absorb(acc, rest);
    if |rest| == 0 || rest[0].start >= acc.end {
      assert rest[..0] == [];
    } else {
      AbsorbTakes(Join(acc, rest[0]), rest[1..], end);
      assert rest[..r.1][1..] == rest[1..][..r.1 - 1];
    }
  }

  /** The merge starts from an interval that holds the range and lies before the
      tail, having grown past the range only where the tail is past it as well. */
  ghost predicate SeedFits(seed: Span, tail: Row, added: Span) {
    && WellFormed(tail) && seed.start <= added.start && added.end <= seed.end
    && (forall i :: 0 <= i < |tail| ==> seed.start <= tail[i].start)
    && (seed.end == added.end || forall i :: 0 <= i < |tail| ==> seed.end <= tail[i].start)
  }

  lemma SeedFitsTail(row: Row, idx: nat, added: Span)
    requires WellFormed(row) && Partitioned(row, idx, added.start) && added.start < added.end
    ensures SeedFits(Seed(row, idx, added), row[idx..], added)
  {
    var tail := row[idx..];
    forall i | 0 <= i < |tail| ensures tail[i] == row[idx + i] && added.start <= tail[i].start {}
    if idx > 0 {
      forall i | 0 <= i < |tail| ensures row[idx - 1].end <= tail[i].start {
        assert tail[i] == row[idx + i];
      }
    }
  }

  /** Before the partition point only the interval that reaches the range overlaps it. */
  lemma FrontLocated(row: Row, idx: nat, added: Span)
    requires WellFormed(row) && Partitioned(row, idx, added.start) && added.start < added.end
    ensures Located(row[..idx], Kept(row, idx, added.start), idx, added.start, added.end)
  {
    var front := row[..idx];
    forall i | 0 <= i < idx - 1 ensures front[i].end <= added.start {
      assert row[i].end <= row[idx - 1].start;
    }
  }

  lemma SeedJoins(row: Row, idx: nat, hi: nat, added: Span)
    requires idx <= hi <= |row|
    ensures JoinAll(Seed(row, idx, added), row[idx..hi]) == JoinAll(added, row[Kept(row, idx, added.start)..hi])
  {
    if Reaches(row, idx, added.start) {
      assert row[idx - 1..hi][1..] == row[idx..hi];
      assert Join(row[idx - 1], added) == Join(added, row[idx - 1]);
    }
  }

  /** From the partition point on, the first `n` intervals overlap the range. */
  lemma TailLocated(tail: Row, added: Span, n: nat)
    requires WellFormed(tail) && n <= |tail| && added.start < added.end
    requires forall i :: 0 <= i < |tail| ==> added.start <= tail[i].start
    requires forall i :: 0 <= i < n ==> tail[i].start < added.end
    requires forall i :: n <= i < |tail| ==> added.end <= tail[i].start
    ensures Located(tail, 0, n, added.start, added.end)
  {
  }

  lemma LocatedConcat(front: Row, tail: Row, lo: nat, n: nat, start: nat, end: nat)
    requires Located(front, lo, |front|, start, end) && Located(tail, 0, n, start, end)
    ensures Located(front + tail, lo, |front| + n, start, end)
  {
  }

  /** Which intervals an insertion leaves before, merges, and leaves after. */
  lemma InsertLocates(row: Row, added: Span, idx: nat) returns (hi: nat)
    requires WellFormed(row) && Partitioned(row, idx, added.start) && added.start < added.end
    ensures idx <= hi <= |row| && hi == idx + Absorb(Seed(row, idx, added), row[idx..]).1
    ensures Located(row, Kept(row, idx, added.start), hi, added.start, added.end)
  {
    var seed, tail := Seed(row, idx, added), row[idx..];
    SeedFitsTail(row, idx, added);
    AbsorbTakes(seed, tail, added.end);
    hi := idx + Absorb(seed, tail).1;
    FrontLocated(row, idx, added);
    TailLocated(tail, added, hi - idx);
    LocatedConcat(row[..idx], tail, Kept(row, idx, added.start), hi - idx, added.start, added.end);
    Seqs.SplitAt(row, idx);
  }

  /** What the insertion merges is the join of what it overlaps. */
  lemma InsertAbsorbs(row: Row, added: Span, idx: nat, hi: nat)
    requires WellFormed(row) && Partitioned(row, idx, added.start) && added.start < added.end
    requires idx <= hi <= |row| && hi == idx + Absorb(Seed(row, idx, added), row[idx..]).1
    ensures Absorb(Seed(row, idx, added), row[idx..]).0 == JoinAll(Seed(row, idx, added), row[idx..hi])
  {
    SeedFitsTail(row, idx, added);
    AbsorbTakes(Seed(row, idx, added), row[idx..], added.end);
    assert row[idx..][..hi - idx] == row[idx..hi];
  }

  lemma SpliceParts(row: Row, added: Span, idx: nat) returns (lo: nat, hi: nat)
    requires WellFormed(row) && Partitioned(row, idx, added.start) && added.start < added.end
    ensures Located(row, lo, hi, added.start, added.end)
    ensures Splice(row, idx, added) == row[..lo] + ([JoinAll(added, row[lo..hi])] + row[hi..])
  {
    lo := Kept(row, idx, added.start);
    hi := InsertLocates(row, added, idx);
    InsertAbsorbs(row, added, idx, hi);
    SeedJoins(row, idx, hi, added);
    Seqs.DropDrop(row, idx, hi);
  }

  lemma InsertParts(row: Row, start: nat, end: nat, now: nat) returns (lo: nat, hi: nat)
    requires WellFormed(row) && SortedByStart(row) && start < end
    ensures Located(row, lo, hi, start, end)
    ensures Insert(row, start, end, now)
         == row[..lo] + ([JoinAll(Span(start, end, now, 0), row[lo..hi])] + row[hi..])
  {
    lo, hi := SpliceParts(row, Span(start, end, now, 0), PartitionPoint(row, start));
  }

  /** The local merge around the insertion point is the whole-row merge. */
  lemma InsertIsMergeIn(row: Row, start: nat, end: nat, now: nat)
    requires WellFormed(row) && start < end
    ensures SortedByStart(row)
    ensures Insert(row, start, end, now) == MergeIn(row, start, end, now)
  {
    WellFormedIsSorted(row);
    var lo, hi := InsertParts(row, start, end, now);
    PickParts(row, lo, hi, start, end);
  }
}
