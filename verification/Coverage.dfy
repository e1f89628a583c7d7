/** One key's transfer history as the program keeps it: the intervals are inserted
    into, merged, truncated and sorted in place. Each method is proved against the
    row function of the same meaning. */
module CoverageRecord {
  import opened Options
  import opened Spans
  import opened Compaction
  import opened Rows
  import Sorting
  import Seqs

  /** A row as a value. */
  datatype Record = Record(etag: Option<string>, total: nat, spans: Row, lastTouch: nat)

  const EMPTY: Record := Record(None, 0, [], 0)

  /** A byte extent, as a sidecar's file name states it. */
  datatype Extent = Extent(start: nat, end: nat)

  /* ---------- rebuilding a row from files ---------- */

  /** The policy input a surviving file carries over: that of the first prior
      interval containing it, or a new stamp and no reads. */
  function Inherit(prior: Row, f: Extent, now: nat): Span {
    if |prior| == 0 then Span(f.start, f.end, now, 0)
    else if prior[0].start <= f.start && f.end <= prior[0].end
    then Span(f.start, f.end, prior[0].at, prior[0].heat)
    else Inherit(prior[1..], f, now)
  }

  function Rebuilt(prior: Row, files: seq<Extent>, now: nat): Row {
    seq(|files|, i requires 0 <= i < |files| => Inherit(prior, files[i], now))
  }

  ghost predicate Named(files: seq<Extent>, b: nat) {
    exists i :: 0 <= i < |files| && files[i].start <= b < files[i].end
  }

  ghost predicate FilesSorted(files: seq<Extent>) {
    forall i, j :: 0 <= i < j < |files| ==> files[i].start <= files[j].start
  }

  /** Non-empty extents in order, none overlapping another. */
  ghost predicate FilesDisjoint(files: seq<Extent>) {
    && (forall i :: 0 <= i < |files| ==> files[i].start < files[i].end)
    && (forall i, j :: 0 <= i < j < |files| ==> files[i].end <= files[j].start)
  }

  lemma {:induction false} InheritExtent(prior: Row, f: Extent, now: nat)
    ensures Inherit(prior, f, now).start == f.start && Inherit(prior, f, now).end == f.end
  {
    if |prior| != 0 { InheritExtent(prior[1..], f, now); }
  }

  /** A non-empty file inside one interval of a well-formed row takes exactly that
      interval's stamp and read count. */
  lemma {:induction false} InheritsFrom(prior: Row, f: Extent, now: nat, k: nat)
    requires WellFormed(prior) && f.start < f.end && k < |prior|
    requires prior[k].start <= f.start && f.end <= prior[k].end
    ensures Inherit(prior, f, now) == Span(f.start, f.end, prior[k].at, prior[k].heat)
  {
    if k != 0 {
      assert prior[0].end <= prior[k].start;
      SliceWellFormed(prior, 1);
      InheritsFrom(prior[1..], f, now, k - 1);
    }
  }

  /** A file no prior interval contains starts afresh. */
  lemma {:induction false} InheritsNothing(prior: Row, f: Extent, now: nat)
    requires forall k :: 0 <= k < |prior| ==> !(prior[k].start <= f.start && f.end <= prior[k].end)
    ensures Inherit(prior, f, now) == Span(f.start, f.end, now, 0)
  {
    if |prior| != 0 { InheritsNothing(prior[1..], f, now); }
  }

  lemma RebuiltExtents(prior: Row, files: seq<Extent>, now: nat)
    ensures var out := Rebuilt(prior, files, now);
            forall i :: 0 <= i < |files| ==> out[i].start == files[i].start && out[i].end == files[i].end
  {
    forall i | 0 <= i < |files| {
      InheritExtent(prior, files[i], now);
    }
  }

  /** A rebuilt row claims exactly what the file names say. */
  lemma RebuiltBytes(prior: Row, files: seq<Extent>, now: nat, b: nat)
    ensures Covers(Rebuilt(prior, files, now), b) <==> Named(files, b)
    ensures FilesSorted(files) ==> SortedByStart(Rebuilt(prior, files, now))
  {
    var out := Rebuilt(prior, files, now);
    RebuiltExtents(prior, files, now);
    if Named(files, b) {
      var i :| 0 <= i < |files| && files[i].start <= b < files[i].end;
      assert out[i].start <= b < out[i].end;
    }
  }

  /** It is well formed exactly when the files are non-empty, in order and apart. */
  lemma RebuiltWellFormedIff(prior: Row, files: seq<Extent>, now: nat)
    ensures WellFormed(Rebuilt(prior, files, now)) <==> FilesDisjoint(files)
  {
    var out := Rebuilt(prior, files, now);
    RebuiltExtents(prior, files, now);
    if WellFormed(out) {
      forall i | 0 <= i < |files| ensures files[i].start < files[i].end {
        assert out[i].start < out[i].end;
      }
      forall i, j | 0 <= i < j < |files| ensures files[i].end <= files[j].start {
        assert out[i].end <= out[j].start;
      }
    }
  }

  /** Two files that overlap in `[5, 10)`: the rebuilt row has two intervals that do. */
  lemma OverlapMalforms(prior: Row, now: nat)
    ensures var files := [Extent(0, 10), Extent(5, 15)];
            FilesSorted(files) && !WellFormed(Rebuilt(prior, files, now))
  {
    var files := [Extent(0, 10), Extent(5, 15)];
    RebuiltWellFormedIff(prior, files, now);
    assert files[0].end > files[1].start;
  }

  /* ---------- the insertion loop ---------- */

  /** After `n` steps the merge loop holds `acc`, on its way to what `Absorb` yields. */
  ghost predicate Absorbing(seed: Span, tail: Row, n: nat, acc: Span) {
    && n <= |tail|
    && var r := Absorb(acc, tail[n..]);
       Absorb(seed, tail) == (r.0, r.1 + n)
  }

  lemma AbsorbOne(seed: Span, tail: Row, n: nat, acc: Span, x: Span, next: Span)
    requires Absorbing(seed, tail, n, acc) && n < |tail| && x == tail[n]
    requires acc.start <= x.start < acc.end
    requires next == Span(acc.start, Max(acc.end, x.end), Max(acc.at, x.at), acc.heat + x.heat)
    ensures Absorbing(seed, tail, n + 1, next)
  {
    Seqs.DropDrop(tail, n, n + 1);
    assert tail[n..][0] == tail[n];
  }

  lemma AbsorbEnds(seed: Span, tail: Row, n: nat, acc: Span)
    requires Absorbing(seed, tail, n, acc)
    requires n < |tail| ==> tail[n].start >= acc.end
    ensures Absorb(seed, tail) == (acc, n)
  {
    if n < |tail| { assert tail[n..][0] == tail[n]; }
  }

  /** `v` is the row with the insertion point open at `lo`: the slot the merge starts
      from, then the untouched tail. */
  ghost predicate Opened(row: Row, idx: nat, added: Span, v: Row, lo: nat) {
    && Partitioned(row, idx, added.start) && lo == Kept(row, idx, added.start) < |v|
    && v[..lo] == row[..lo] && v[lo + 1..] == row[idx..]
  }

  lemma SlotOpens(row: Row, idx: nat, added: Span, v: Row)
    requires Partitioned(row, idx, added.start)
    requires v == if Reaches(row, idx, added.start) then row else row[..idx] + ([added] + row[idx..])
    ensures Opened(row, idx, added, v, Kept(row, idx, added.start))
  {
  }

  lemma OpenedTail(row: Row, idx: nat, added: Span, v: Row, lo: nat)
    requires Opened(row, idx, added, v, lo)
    ensures forall i :: lo < i < |v| ==> Seed(row, idx, added).start <= v[i].start
  {
    forall i | lo < i < |v| ensures Seed(row, idx, added).start <= v[i].start {
      assert v[i] == v[lo + 1..][i - lo - 1] == row[idx..][i - lo - 1];
    }
  }

  /** Draining what was merged and writing the slot gives the spliced row. */
  lemma Drained(row: Row, idx: nat, added: Span, v: Row, lo: nat, hi: nat, m: Span, out: Row)
    requires Opened(row, idx, added, v, lo) && lo < hi <= |v|
    requires Absorb(Seed(row, idx, added), v[lo + 1..]) == (m, hi - lo - 1)
    requires out == (if hi > lo + 1 then v[..lo + 1] + v[hi..] else v)
    ensures lo < |out| && out[lo := m] == Splice(row, idx, added)
  {
    Seqs.DropDrop(v, lo + 1, hi);
    Seqs.CutOut(v, lo, hi);
    Seqs.Update(out, lo, m);
  }

  /** `out` is what the halving pass has written of the first `i` intervals, and
      `merged` says whether it fused any. */
  ghost predicate Passing(row: Row, i: nat, out: Row, merged: bool) {
    && |out| <= i <= |row| && (merged <==> |out| < i)
    && out + MergePass(row[i..]) == MergePass(row)
  }

  lemma PassStarts(row: Row)
    ensures Passing(row, 0, [], false)
  {
    assert row[0..] == row;
  }

  lemma PassFuses(row: Row, i: nat, out: Row, merged: bool)
    requires Passing(row, i, out, merged) && i + 1 < |row| && Touch(row[i], row[i + 1])
    ensures Passing(row, i + 2, out + [Fuse(row[i], row[i + 1])], true)
  {
    var rest := row[i..];
    assert rest[0] == row[i] && rest[1] == row[i + 1];
    Seqs.DropDrop(row, i, i + 2);
    Seqs.Assoc(out, [Fuse(row[i], row[i + 1])], MergePass(row[i + 2..]));
  }

  lemma PassSkips(row: Row, i: nat, out: Row, merged: bool)
    requires Passing(row, i, out, merged) && i < |row| && (i + 1 < |row| ==> !Touch(row[i], row[i + 1]))
    ensures Passing(row, i + 1, out + [row[i]], merged)
  {
    var rest := row[i..];
    Seqs.DropDrop(row, i, i + 1);
    if |rest| == 1 { assert rest == [row[i]] && rest[1..] == []; }
    Seqs.Assoc(out, [row[i]], MergePass(row[i + 1..]));
  }

  lemma PassEnds(row: Row, out: Row, merged: bool)
    requires Passing(row, |row|, out, merged)
    ensures out == MergePass(row) && (merged <==> HasTouching(row))
  {
    assert row[|row|..] == [];
    Seqs.EmptyConcat(out);
    MergePassProgress(row);
  }

  /* ---------- the record ---------- */

  class Coverage {
    var etag: Option<string>
    var total: nat
    var intervals: Row
    var lastTouch: nat

    ghost function Value(): Record
      reads this
    {
      Record(etag, total, intervals, lastTouch)
    }

    constructor (r: Record)
      ensures Value() == r
    {
      etag, total, intervals, lastTouch := r.etag, r.total, r.spans, r.lastTouch;
    }

    method AddInterval(start: nat, end: nat, now: nat)
      requires SortedByStart(intervals)
      modifies this`intervals
      ensures intervals == AddSpan(old(intervals), start, end, now)
    {
      if start >= end {
        return;
      }
      ghost var row := intervals;
      var idx, added := PartitionPoint(intervals, start), Span(start, end, now, 0);
      var v, lo, merged := OpenSlot(intervals, idx, added);
      OpenedTail(row, idx, added, v, lo);
      var hi;
      hi, merged := MergeOnward(v, lo, merged);
      ghost var whole := v;
      if hi > lo + 1 {
        v := v[..lo + 1] + v[hi..];
      }
      Drained(row, idx, added, whole, lo, hi, merged, v);
      intervals := v[lo := merged];
      CompactRow();
    }

    /** The slot the merge starts from: the interval before the insertion point when
        that one overlaps the range, else the range itself, inserted. */
    static method OpenSlot(row: Row, idx: nat, added: Span) returns (v: Row, lo: nat, merged: Span)
      requires Partitioned(row, idx, added.start)
      ensures Opened(row, idx, added, v, lo) && merged == Seed(row, idx, added)
    {
      if idx > 0 && row[idx - 1].end > added.start {
        var p := row[idx - 1];
        v, lo := row, idx - 1;
        merged := Span(p.start, Max(p.end, added.end), Max(p.at, added.at), p.heat + added.heat);
      } else {
        v, lo, merged := row[..idx] + ([added] + row[idx..]), idx, added;
      }
      SlotOpens(row, idx, added, v);
    }

    /** Merge into `first`, which stands at `lo`, the following intervals that start
        before its growing end. */
    static method MergeOnward(v: Row, lo: nat, first: Span) returns (hi: nat, merged: Span)
      requires lo < |v|
      requires forall i :: lo < i < |v| ==> first.start <= v[i].start
      ensures lo < hi <= |v|
      ensures Absorb(first, v[lo + 1..]) == (merged, hi - lo - 1)
    {
      ghost var tail, n := v[lo + 1..], 0;
      hi, merged := lo + 1, first;
      assert tail[0..] == tail;
      while hi < |v| && v[hi].start < merged.end
        invariant hi == lo + 1 + n <= |v|
        invariant merged.start == first.start
        invariant Absorbing(first, tail, n, merged)
      {
        var x := v[hi];
        assert x == tail[n];
        ghost var acc := merged;
        merged := Span(first.start, Max(merged.end, x.end), Max(merged.at, x.at), merged.heat + x.heat);
        AbsorbOne(first, tail, n, acc, x, merged);
        n, hi := n + 1, hi + 1;
      }
      assert hi < |v| ==> v[hi] == tail[n];
      AbsorbEnds(first, tail, n, merged);
    }

    method CompactRow()
      modifies this`intervals
      ensures intervals == Compact(old(intervals))
    {
      while |intervals| > MAX_INTERVALS_PER_KEY
        invariant Compact(intervals) == Compact(old(intervals))
        decreases |intervals|
      {
        MergePassProgress(intervals);
        var merged := MergeTouchingOnce();
        if !merged {
          ghost var row := intervals;
          DropColdestSpans(|intervals| - MAX_INTERVALS_PER_KEY);
          DropColdestShrinks(row, |row| - MAX_INTERVALS_PER_KEY);
        }
      }
    }

    method MergeTouchingOnce() returns (merged: bool)
      modifies this`intervals
      ensures intervals == MergePass(old(intervals))
      ensures merged <==> HasTouching(old(intervals))
    {
      var out: Row := [];
      merged := false;
      var i := 0;
      PassStarts(intervals);
      while i < |intervals|
        invariant intervals == old(intervals) && Passing(intervals, i, out, merged)
      {
        if i + 1 < |intervals| && intervals[i + 1].start == intervals[i].end {
          PassFuses(intervals, i, out, merged);
          out := out + [Fuse(intervals[i], intervals[i + 1])];
          merged := true;
          i := i + 2;
        } else {
          PassSkips(intervals, i, out, merged);
          out := out + [intervals[i]];
          i := i + 1;
        }
      }
      PassEnds(intervals, out, merged);
      intervals := out;
    }

    method DropColdestSpans(n: nat)
      modifies this`intervals
      ensures intervals == DropColdest(old(intervals), n)
    {
      intervals := Sorting.Sort(intervals, ByStamp);
      intervals := intervals[Min(n, |intervals|)..];
      intervals := Sorting.Sort(intervals, ByStart);
    }

    method AdoptFiles(files: seq<Extent>, now: nat)
      modifies this`intervals
      ensures intervals == Compact(Rebuilt(old(intervals), files, now))
    {
      var prior := intervals;
      intervals := Rebuilt(prior, files, now);
      CompactRow();
    }

    method DecayAndCovered(now: nat, window: nat) returns (covered: int)
      modifies this`intervals
      ensures intervals == Decay(old(intervals), now, window)
      ensures covered == Covered(intervals)
    {
      if window == 0 {
        covered := Covered(intervals);
        return;
      }
      var cutoff := Cutoff(now, window);
      ghost var row := intervals;
      var kept := 0;
      covered := 0;
      for i := 0 to |intervals|
        invariant |intervals| == |row| && 0 <= kept <= i
        invariant intervals[i..] == row[i..]
        invariant intervals[..kept] == Fresh(row[..i], cutoff)
        invariant covered == Covered(intervals[..kept])
      {
        var x := intervals[i];
        assert x == intervals[i..][0] == row[i];
        FreshSnoc(row, i, cutoff);
        KeepOne(intervals, row, kept, i);
        if x.at >= cutoff {
          CoveredConcat(intervals[..kept], [x]);
          intervals := intervals[kept := x];
          kept := kept + 1;
          covered := covered + (x.end - x.start);
        }
      }
      assert row[..|row|] == row;
      intervals := intervals[..kept];
    }
  }

  /** Writing down an interval at or before its own place disturbs nothing ahead. */
  lemma KeepOne(v: Row, row: Row, kept: nat, i: nat)
    requires kept <= i < |v| == |row| && v[i..] == row[i..]
    ensures v[i + 1..] == row[i + 1..] && v[kept := v[i]][i + 1..] == row[i + 1..]
    ensures v[kept := v[i]][..kept + 1] == v[..kept] + [v[i]]
  {
    Seqs.DropDrop(v, i, i + 1);
    Seqs.DropDrop(row, i, i + 1);
  }

  lemma FreshSnoc(row: Row, i: nat, cutoff: nat)
    requires i < |row|
    ensures Fresh(row[..i + 1], cutoff)
         == Fresh(row[..i], cutoff) + if row[i].at >= cutoff then [row[i]] else []
  {
    FreshConcat(row[..i], [row[i]], cutoff);
    assert row[..i + 1] == row[..i] + [row[i]];
    assert Fresh([row[i]], cutoff) == if row[i].at >= cutoff then [row[i]] else [] by {
      assert [row[i]][1..] == [];
    }
    Seqs.EmptyConcat(Fresh(row[..i], cutoff));
  }
}
