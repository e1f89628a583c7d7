/** Whole histories of one row: what its intervals remember of the ranges staged
    into it, and what window decay does to them. */
module Rows {
  import opened Saturating
  import opened Spans
  import opened Compaction
  import Seqs

  /* ---------- decay, coverage, heat ---------- */

  /** Drop every interval last read before `cutoff`. */
  function Fresh(row: Row, cutoff: nat): Row {
    if |row| == 0 then []
    else (if row[0].at >= cutoff then [row[0]] else []) + Fresh(row[1..], cutoff)
  }

  function Cutoff(now: nat, window: nat): nat { if now < window then 0 else now - window }

  /** `decay_and_covered` on the intervals; a zero window means no decay. */
  function Decay(row: Row, now: nat, window: nat): Row {
    if window == 0 then row else Fresh(row, Cutoff(now, window))
  }

  function Length(x: Span): int { x.end - x.start }

  function Covered(row: Row): int {
    if |row| == 0 then 0 else Length(row[0]) + Covered(row[1..])
  }

  function Credited(x: Span, start: nat, end: nat): Span {
    if x.start < end && start < x.end then x.(heat := Min(x.heat + 1, U64_MAX)) else x
  }

  /** One read of `[start, end)` credits every interval it touches. */
  function Credit(row: Row, start: nat, end: nat): Row {
    if start >= end then row
    else seq(|row|, i requires 0 <= i < |row| => Credited(row[i], start, end))
  }

  lemma {:induction false} FreshConcat(a: Row, c: Row, cutoff: nat)
    ensures Fresh(a + c, cutoff) == Fresh(a, cutoff) + Fresh(c, cutoff)
  {
    if |a| == 0 {
      Seqs.EmptyConcat(c);
      Seqs.EmptyConcat(Fresh(c, cutoff));
    } else {
      FreshConcat(a[1..], c, cutoff);
      Seqs.TailConcat(a, c);
      Seqs.Assoc(if a[0].at >= cutoff then [a[0]] else [], Fresh(a[1..], cutoff), Fresh(c, cutoff));
    }
  }

  lemma {:induction false} CoveredConcat(a: Row, c: Row)
    ensures Covered(a + c) == Covered(a) + Covered(c)
  {
    if |a| == 0 {
      assert a + c == c;
    } else {
      CoveredConcat(a[1..], c);
      assert (a + c)[1..] == a[1..] + c;
    }
  }

  /** The survivors are exactly the intervals read since the cutoff, unchanged. */
  lemma {:induction false} FreshMembers(row: Row, cutoff: nat)
    ensures forall x :: x in Fresh(row, cutoff) <==> x in row && x.at >= cutoff
  {
    if |row| != 0 {
      FreshMembers(row[1..], cutoff);
      assert row == [row[0]] + row[1..];
    }
  }

  lemma {:induction false} FreshOrdered(row: Row, cutoff: nat)
    ensures SortedByStart(row) ==> SortedByStart(Fresh(row, cutoff))
    ensures WellFormed(row) ==> WellFormed(Fresh(row, cutoff))
    ensures |Fresh(row, cutoff)| <= |row|
  {
    if |row| != 0 {
      var rest := row[1..];
      var out := Fresh(rest, cutoff);
      FreshOrdered(rest, cutoff);
      forall i | 0 <= i < |out| ensures exists k :: 0 < k < |row| && row[k] == out[i] {
        FreshMembers(rest, cutoff);
        assert out[i] in rest;
        var k :| 0 <= k < |rest| && rest[k] == out[i];
        assert row[k + 1] == out[i];
      }
      assert SortedByStart(row) ==> SortedByStart(rest);
      assert WellFormed(row) ==> WellFormed(rest);
      ConsOrdered(row[0], out, row);
    }
  }

  lemma ConsOrdered(x: Span, out: Row, row: Row)
    requires |row| > 0 && row[0] == x
    requires forall i :: 0 <= i < |out| ==> exists k :: 0 < k < |row| && row[k] == out[i]
    ensures SortedByStart(row) && SortedByStart(out) ==> SortedByStart([x] + out)
    ensures WellFormed(row) && WellFormed(out) ==> WellFormed([x] + out)
  {
    forall i | 0 <= i < |out|
      ensures SortedByStart(row) ==> x.start <= out[i].start
      ensures WellFormed(row) ==> x.end <= out[i].start
    {
      var k :| 0 < k < |row| && row[k] == out[i];
    }
  }

  /** Decaying at one time and again later is decaying once, at the later time. */
  lemma {:induction false} FreshTwice(row: Row, c1: nat, c2: nat)
    requires c1 <= c2
    ensures Fresh(Fresh(row, c1), c2) == Fresh(row, c2)
  {
    if |row| != 0 {
      FreshTwice(row[1..], c1, c2);
      if row[0].at >= c1 {
        FreshConcat([row[0]], Fresh(row[1..], c1), c2);
        assert [row[0]][1..] == [];
        assert Fresh([row[0]], c2) == if row[0].at >= c2 then [row[0]] else [];
      } else {
        assert Fresh(row, c1) == Fresh(row[1..], c1);
      }
    }
  }

  /** Decay keeps exactly the intervals read within the last `window`, and a zero window
      keeps them all. */
  lemma DecayIff(row: Row, now: nat, window: nat)
    ensures forall x :: x in Decay(row, now, window) <==> x in row && (window == 0 || x.at + window >= now)
    ensures window == 0 ==> Decay(row, now, window) == row
  {
    FreshMembers(row, Cutoff(now, window));
  }

  lemma DecayLater(row: Row, t1: nat, t2: nat, window: nat)
    requires t1 <= t2
    ensures Decay(Decay(row, t1, window), t2, window) == Decay(row, t2, window)
  {
    if window != 0 {
      FreshTwice(row, Cutoff(t1, window), Cutoff(t2, window));
    }
  }

  ghost predicate Between(lo: nat, b: nat, hi: nat) { lo <= b < hi }

  ghost function Range(lo: nat, hi: nat): set<nat> {
    set b: nat | b < hi && Between(lo, b, hi)
  }

  /** The bytes the row holds, as a set. */
  ghost function Bytes(row: Row): (s: set<nat>)
    ensures forall b: nat :: b in s <==> Covers(row, b)
  {
    if |row| == 0 then {}
    else
      assert forall b: nat :: Covers(row, b) <==> Between(row[0].start, b, row[0].end) || Covers(row[1..], b) by {
        forall b: nat ensures Covers(row, b) <==> Between(row[0].start, b, row[0].end) || Covers(row[1..], b) {
          CoversHead(row[0], row[1..], b);
          assert row == [row[0]] + row[1..];
        }
      }
      Range(row[0].start, row[0].end) + Bytes(row[1..])
  }

  lemma {:induction false} RangeSize(lo: nat, hi: nat)
    requires lo <= hi
    ensures |Range(lo, hi)| == hi - lo
    decreases hi - lo
  {
    if lo < hi {
      RangeSize(lo + 1, hi);
      assert Range(lo, hi) == Range(lo + 1, hi) + {lo};
    } else {
      assert Range(lo, hi) == {};
    }
  }

  lemma HeadApart(row: Row, b: nat)
    requires WellFormed(row) && |row| > 0 && Covers(row[1..], b)
    ensures row[0].end <= b
  {
    var i :| 0 <= i < |row[1..]| && row[1..][i].start <= b < row[1..][i].end;
    assert row[i + 1] == row[1..][i];
  }

  lemma HeadDisjoint(row: Row)
    requires WellFormed(row) && |row| > 0
    ensures Range(row[0].start, row[0].end) !! Bytes(row[1..])
  {
    forall b | b in Bytes(row[1..]) ensures b !in Range(row[0].start, row[0].end) {
      HeadApart(row, b);
    }
  }

  lemma DisjointSizes(a: set<nat>, c: set<nat>)
    requires a !! c
    ensures |a + c| == |a| + |c|
  {
  }

  /** The reported coverage counts each covered byte once. */
  lemma {:induction false} CoveredCountsBytes(row: Row)
    requires WellFormed(row)
    ensures Covered(row) == |Bytes(row)|
  {
    if |row| != 0 {
      var x, rest := row[0], row[1..];
      CoveredCountsBytes(rest);
      RangeSize(x.start, x.end);
      HeadDisjoint(row);
      DisjointSizes(Range(x.start, x.end), Bytes(rest));
    }
  }

  /* ---------- what an interval remembers ---------- */

  /** One staged range, as its caller gave it. */
  datatype Add = Add(start: nat, end: nat, at: nat)

  predicate Inside(a: Add, x: Span) { x.start <= a.start && a.end <= x.end }

  /** Byte `b` of the interval comes from an add inside it. */
  ghost predicate FromAdd(x: Span, adds: set<Add>, b: nat) {
    exists a :: a in adds && Inside(a, x) && a.start <= b < a.end
  }

  /** The interval is the union of the adds inside it and its stamp is the latest
      of theirs. */
  ghost predicate Stamped(x: Span, adds: set<Add>) {
    && (forall a :: a in adds && Inside(a, x) ==> a.at <= x.at)
    && (exists a :: a in adds && Inside(a, x) && a.at == x.at)
    && (forall b: nat :: x.start <= b < x.end ==> FromAdd(x, adds, b))
  }

  /** The add lies inside one interval of the row. */
  ghost predicate Housed(row: Row, a: Add) {
    exists i :: 0 <= i < |row| && Inside(a, row[i])
  }

  /** Every add lies inside one interval, and every interval is made of adds. */
  ghost predicate Explained(row: Row, adds: set<Add>) {
    && (forall a {:trigger Housed(row, a)} :: a in adds ==> a.start < a.end && Housed(row, a))
    && (forall i :: 0 <= i < |row| ==> Stamped(row[i], adds))
  }

  /** A larger interval, or a set with more adds, still shows where a byte is from. */
  lemma FromAddGrows(x: Span, y: Span, adds: set<Add>, more: set<Add>, b: nat)
    requires FromAdd(x, adds, b) && y.start <= x.start && x.end <= y.end
    requires forall a :: a in adds && Inside(a, x) ==> a in more
    ensures FromAdd(y, more, b)
  {
    var a :| a in adds && Inside(a, x) && a.start <= b < a.end;
    assert a in more && Inside(a, y);
  }

  lemma StampedAway(x: Span, adds: set<Add>, a: Add)
    requires Stamped(x, adds) && a.start < a.end && (x.end <= a.start || a.end <= x.start)
    ensures Stamped(x, adds + {a})
  {
    forall b: nat | x.start <= b < x.end ensures FromAdd(x, adds + {a}, b) {
      FromAddGrows(x, x, adds, adds + {a}, b);
    }
    var c :| c in adds && Inside(c, x) && c.at == x.at;
    assert c in adds + {a};
    assert !Inside(a, x);
  }

  /** `m` is the interval an insertion of `a` builds out of `row[lo..hi]`. */
  ghost predicate BuiltFrom(m: Span, row: Row, lo: nat, hi: nat, a: Add) {
    && lo <= hi <= |row| && a.start < a.end && Inside(a, m) && a.at <= m.at
    && (forall i :: 0 <= i < lo ==> row[i].end <= m.start)
    && (forall i :: hi <= i < |row| ==> m.end <= row[i].start)
    && (forall i :: lo <= i < hi ==> m.start <= row[i].start && row[i].end <= m.end && row[i].at <= m.at)
    && (m.at == a.at || exists i :: lo <= i < hi && m.at == row[i].at)
  }

  lemma InsertBuilds(row: Row, lo: nat, hi: nat, a: Add)
    requires WellFormed(row) && Located(row, lo, hi, a.start, a.end) && a.start < a.end
    ensures BuiltFrom(JoinAll(Span(a.start, a.end, a.at, 0), row[lo..hi]), row, lo, hi, a)
  {
    var added, xs := Span(a.start, a.end, a.at, 0), row[lo..hi];
    var m := JoinAll(added, xs);
    MergedFits(row, lo, hi, added);
    JoinAllBounds(added, xs);
    forall i | lo <= i < hi ensures m.start <= row[i].start && row[i].end <= m.end && row[i].at <= m.at {
      assert xs[i - lo] == row[i];
    }
    if m.at != a.at {
      var k :| 0 <= k < |xs| && m.at == xs[k].at;
      assert m.at == row[lo + k].at;
    }
  }

  /** An add inside the new interval is the new one or lies in a merged part. */
  lemma InsideMerged(row: Row, lo: nat, hi: nat, m: Span, adds: set<Add>, a: Add, c: Add)
    requires BuiltFrom(m, row, lo, hi, a) && Explained(row, adds) && c in adds && Inside(c, m)
    ensures c.at <= m.at
  {
    assert Housed(row, c);
    var i :| 0 <= i < |row| && Inside(c, row[i]);
    assert lo <= i < hi;
    assert Stamped(row[i], adds);
  }

  lemma MergedStamp(row: Row, lo: nat, hi: nat, m: Span, adds: set<Add>, a: Add)
    requires BuiltFrom(m, row, lo, hi, a) && Explained(row, adds)
    ensures exists c :: c in adds + {a} && Inside(c, m) && c.at == m.at
  {
    if m.at == a.at {
      assert a in adds + {a} && Inside(a, m);
    } else {
      var k :| lo <= k < hi && m.at == row[k].at;
      assert Stamped(row[k], adds);
      var c :| c in adds && Inside(c, row[k]) && c.at == row[k].at;
      assert c in adds + {a} && Inside(c, m);
    }
  }

  lemma MergedByte(row: Row, lo: nat, hi: nat, m: Span, adds: set<Add>, a: Add, b: nat)
    requires BuiltFrom(m, row, lo, hi, a) && Explained(row, adds)
    requires m.start <= b < m.end && (Covers(row, b) || a.start <= b < a.end)
    ensures FromAdd(m, adds + {a}, b)
  {
    if a.start <= b < a.end {
      assert a in adds + {a} && Inside(a, m);
    } else {
      var i :| 0 <= i < |row| && row[i].start <= b < row[i].end;
      assert lo <= i < hi;
      assert Stamped(row[i], adds);
      FromAddGrows(row[i], m, adds, adds + {a}, b);
    }
  }

  lemma MergedStamped(row: Row, lo: nat, hi: nat, m: Span, adds: set<Add>, a: Add, out: Row)
    requires BuiltFrom(m, row, lo, hi, a) && Explained(row, adds)
    requires lo < |out| && out[lo] == m
    requires forall b: nat :: Covers(out, b) <==> Covers(row, b) || a.start <= b < a.end
    ensures Stamped(m, adds + {a})
  {
    MergedStamp(row, lo, hi, m, adds, a);
    forall c | c in adds + {a} && Inside(c, m) ensures c.at <= m.at {
      if c in adds { InsideMerged(row, lo, hi, m, adds, a, c); }
    }
    forall b: nat | m.start <= b < m.end ensures FromAdd(m, adds + {a}, b) {
      assert out[lo].start <= b < out[lo].end;
      assert Covers(out, b);
      MergedByte(row, lo, hi, m, adds, a, b);
    }
  }

  lemma StaysHoused(row: Row, lo: nat, hi: nat, m: Span, a: Add, c: Add)
    requires BuiltFrom(m, row, lo, hi, a) && (c == a || Housed(row, c))
    ensures Housed(row[..lo] + ([m] + row[hi..]), c)
  {
    var out := row[..lo] + ([m] + row[hi..]);
    assert out[lo] == m;
    if c == a {
      assert Inside(c, out[lo]);
    } else {
      var i :| 0 <= i < |row| && Inside(c, row[i]);
      if i < lo { assert Inside(c, out[i]); }
      else if i < hi { assert Inside(c, out[lo]); }
      else { assert Inside(c, out[i - hi + lo + 1]); }
    }
  }

  lemma OthersStayStamped(row: Row, lo: nat, hi: nat, m: Span, adds: set<Add>, a: Add, i: nat)
    requires Located(row, lo, hi, a.start, a.end) && a.start < a.end && i <= lo + |row| - hi && i != lo
    requires forall k :: 0 <= k < |row| ==> Stamped(row[k], adds)
    ensures Stamped((row[..lo] + ([m] + row[hi..]))[i], adds + {a})
  {
    var k := if i < lo then i else hi + i - lo - 1;
    assert (row[..lo] + ([m] + row[hi..]))[i] == row[k];
    StampedAway(row[k], adds, a);
  }

  /** Inserting keeps the record exact: the new interval is the union of the adds
      it swallowed and the new one, stamped with the latest of them. */
  lemma InsertExplained(row: Row, adds: set<Add>, a: Add)
    requires WellFormed(row) && SortedByStart(row) && Explained(row, adds) && a.start < a.end
    ensures Explained(Insert(row, a.start, a.end, a.at), adds + {a})
  {
    var lo, hi := InsertParts(row, a.start, a.end, a.at);
    InsertBuilds(row, lo, hi, a);
    InsertBytes(row, a.start, a.end, a.at);
    var m := JoinAll(Span(a.start, a.end, a.at, 0), row[lo..hi]);
    SpliceExplained(row, lo, hi, m, adds, a, Insert(row, a.start, a.end, a.at));
  }

  lemma SpliceExplained(row: Row, lo: nat, hi: nat, m: Span, adds: set<Add>, a: Add, out: Row)
    requires BuiltFrom(m, row, lo, hi, a) && Explained(row, adds) && Located(row, lo, hi, a.start, a.end)
    requires out == row[..lo] + ([m] + row[hi..])
    requires forall b: nat :: Covers(out, b) <==> Covers(row, b) || a.start <= b < a.end
    ensures Explained(out, adds + {a})
  {
    assert out[lo] == m;
    MergedStamped(row, lo, hi, m, adds, a, out);
    forall c | c in adds + {a} ensures c.start < c.end && Housed(out, c) {
      StaysHoused(row, lo, hi, m, a, c);
    }
    forall i | 0 <= i < |out| ensures Stamped(out[i], adds + {a}) {
      if i != lo { OthersStayStamped(row, lo, hi, m, adds, a, i); }
    }
  }

  /** An interval that only touches the new range, or lies elsewhere, comes
      through an insertion untouched: a fresh neighbour never revives it. */
  lemma NeighbourUntouched(row: Row, start: nat, end: nat, now: nat, x: Span)
    requires WellFormed(row) && SortedByStart(row) && start < end
    requires x in row && (x.end <= start || end <= x.start)
    ensures x in Insert(row, start, end, now)
  {
    var lo, hi := InsertParts(row, start, end, now);
    var k :| 0 <= k < |row| && row[k] == x;
    if k < lo {
      assert x in row[..lo];
    } else {
      assert row[hi..][k - hi] == x;
    }
  }

  /** The adds a decayed row still remembers. */
  ghost function Remembered(row: Row, adds: set<Add>): set<Add> {
    set a | a in adds && Housed(row, a)
  }

  lemma FreshExplained(row: Row, adds: set<Add>, cutoff: nat)
    requires WellFormed(row) && Explained(row, adds)
    ensures Explained(Fresh(row, cutoff), Remembered(Fresh(row, cutoff), adds))
    ensures forall x :: x in row ==>
              (x !in Fresh(row, cutoff) <==> forall a :: a in adds && Inside(a, x) ==> a.at < cutoff)
  {
    var out := Fresh(row, cutoff);
    FreshMembers(row, cutoff);
    forall x | x in row
      ensures x !in out <==> forall a :: a in adds && Inside(a, x) ==> a.at < cutoff
    {
      assert Stamped(x, adds);
    }
    var kept := Remembered(out, adds);
    forall a | a in kept ensures a.start < a.end && Housed(out, a) {
      assert Housed(row, a);
    }
    forall i | 0 <= i < |out| ensures Stamped(out[i], kept) {
      assert out[i] in row && Stamped(out[i], adds);
      KeptStamp(out, i, adds);
    }
  }

  /** Decay drops an interval exactly when every add inside it was last read longer than
      the window ago, never with a zero window, and what is left is still exactly
      explained by the adds it kept. */
  lemma DecayExplained(row: Row, adds: set<Add>, now: nat, window: nat)
    requires WellFormed(row) && Explained(row, adds)
    ensures Explained(Decay(row, now, window), Remembered(Decay(row, now, window), adds))
    ensures forall x :: x in row ==>
              (x !in Decay(row, now, window)
               <==> window > 0 && forall a :: a in adds && Inside(a, x) ==> a.at + window < now)
  {
    FreshExplained(row, adds, if window == 0 then 0 else Cutoff(now, window));
    FreshAll(row);
    DecayIff(row, now, window);
    forall x | x in row
      ensures x !in Decay(row, now, window)
          <==> window > 0 && forall a :: a in adds && Inside(a, x) ==> a.at + window < now
    {
      assert Stamped(x, adds);
    }
  }

  lemma KeptStamp(out: Row, i: nat, adds: set<Add>)
    requires i < |out| && Stamped(out[i], adds)
    ensures Stamped(out[i], Remembered(out, adds))
  {
    var x, kept := out[i], Remembered(out, adds);
    var a :| a in adds && Inside(a, x) && a.at == x.at;
    assert a in kept;
    forall b: nat | x.start <= b < x.end ensures FromAdd(x, kept, b) {
      FromAddGrows(x, x, adds, kept, b);
    }
  }

  /* ---------- runs ---------- */

  datatype RowOp = Stage(add: Add) | Expire(now: nat, window: nat) | Serve(start: nat, end: nat)

  function Apply(row: Row, op: RowOp): Row
    requires SortedByStart(row)
  {
    match op
    case Stage(a) => AddSpan(row, a.start, a.end, a.at)
    case Expire(now, window) => Decay(row, now, window)
    case Serve(start, end) => Credit(row, start, end)
  }

  lemma CreditBytes(row: Row, start: nat, end: nat)
    ensures SameBytes(Credit(row, start, end), row)
    ensures SortedByStart(row) ==> SortedByStart(Credit(row, start, end))
    ensures WellFormed(row) ==> WellFormed(Credit(row, start, end))
  {
    var out := Credit(row, start, end);
    assert forall i :: 0 <= i < |row| ==> out[i].start == row[i].start && out[i].end == row[i].end;
    forall b: nat ensures Covers(out, b) <==> Covers(row, b) {
      if Covers(row, b) {
        var i :| 0 <= i < |row| && row[i].start <= b < row[i].end;
        assert out[i].start <= b < out[i].end;
      }
    }
  }

  /** A read from `start` to `end` shares a byte with the interval. */
  ghost predicate Shares(x: Span, start: nat, end: nat) {
    exists b: nat :: x.start <= b < x.end && Between(start, b, end)
  }

  lemma SharesIff(x: Span, start: nat, end: nat)
    requires x.start < x.end && start < end
    ensures Shares(x, start, end) <==> x.start < end && start < x.end
  {
    if x.start < end && start < x.end {
      assert Between(start, Max(start, x.start), end);
    }
  }

  ghost function CountShared(row: Row, start: nat, end: nat): nat {
    if |row| == 0 then 0 else (if Shares(row[0], start, end) then 1 else 0) + CountShared(row[1..], start, end)
  }

  /** A read credits each interval it shares a byte with by one, saturating, and changes
      nothing else about any interval. */
  lemma CreditOne(x: Span, start: nat, end: nat)
    requires x.start < x.end && start < end
    ensures var y := Credited(x, start, end);
            && y.start == x.start && y.end == x.end && y.at == x.at
            && (Shares(x, start, end) && x.heat < U64_MAX ==> y.heat == x.heat + 1)
            && (Shares(x, start, end) && x.heat == U64_MAX ==> y.heat == x.heat)
            && (!Shares(x, start, end) ==> y.heat == x.heat)
  {
    SharesIff(x, start, end);
  }

  /** Short of saturation a read adds as many to the total as it shares bytes with
      intervals; an empty read adds none. */
  lemma {:induction false} CreditHeat(row: Row, start: nat, end: nat)
    requires forall i :: 0 <= i < |row| ==> row[i].start < row[i].end && row[i].heat < U64_MAX
    ensures TotalHeat(Credit(row, start, end)) == TotalHeat(row) + CountShared(row, start, end)
  {
    if |row| > 0 {
      var rest := row[1..];
      CreditHeat(rest, start, end);
      if start < end {
        CreditOne(row[0], start, end);
        assert Credit(row, start, end)[1..] == Credit(rest, start, end);
      }
    }
  }

  lemma ApplyWellFormed(row: Row, op: RowOp)
    requires WellFormed(row) && SortedByStart(row) && |row| <= MAX_INTERVALS_PER_KEY
    ensures WellFormed(Apply(row, op)) && SortedByStart(Apply(row, op))
    ensures |Apply(row, op)| <= MAX_INTERVALS_PER_KEY
  {
    match op
    case Stage(a) =>
      InsertWellFormed(row, a.start, a.end, a.at);
      CompactExact(Insert(row, a.start, a.end, a.at));
      WellFormedIsSorted(Apply(row, op));
    case Expire(now, window) => FreshOrdered(row, Cutoff(now, window));
    case Serve(start, end) => CreditBytes(row, start, end);
  }

  /** The row after a history, oldest operation first. */
  function Run(ops: seq<RowOp>): (row: Row)
    ensures WellFormed(row) && SortedByStart(row) && |row| <= MAX_INTERVALS_PER_KEY
  {
    if |ops| == 0 then []
    else
      var before := Run(ops[..|ops| - 1]);
      ApplyWellFormed(before, ops[|ops| - 1]);
      Apply(before, ops[|ops| - 1])
  }

  /** Some staged range of the history holds the byte. */
  ghost predicate Staged(ops: seq<RowOp>, b: nat) {
    exists i :: 0 <= i < |ops| && ops[i].Stage? && ops[i].add.start <= b < ops[i].add.end
  }

  lemma StagedSnoc(ops: seq<RowOp>, b: nat)
    requires |ops| > 0
    ensures var op := ops[|ops| - 1];
            Staged(ops, b)
            <==> Staged(ops[..|ops| - 1], b) || (op.Stage? && op.add.start <= b < op.add.end)
  {
    var n := |ops| - 1;
    if Staged(ops, b) {
      var i :| 0 <= i < |ops| && ops[i].Stage? && ops[i].add.start <= b < ops[i].add.end;
      if i < n { assert ops[..n][i] == ops[i]; }
    }
    if Staged(ops[..n], b) {
      var i :| 0 <= i < n && ops[..n][i].Stage? && ops[..n][i].add.start <= b < ops[..n][i].add.end;
      assert ops[i].Stage?;
    }
  }

  /** The operation is not an expiry, or one with no window. */
  predicate Keeps(op: RowOp) { op.Expire? ==> op.window == 0 }

  /** The operation stages the byte. */
  predicate Stages(op: RowOp, b: nat) { op.Stage? && op.add.start <= b < op.add.end }

  /** The insertion leaves at most 4096 touching runs, so no interval is dropped. */
  ghost predicate NoColdDrop(row: Row, op: RowOp)
    requires SortedByStart(row)
  {
    op.Stage? ==> |Coalesce(Insert(row, op.add.start, op.add.end, op.add.at))| <= MAX_INTERVALS_PER_KEY
  }

  lemma StageBytes(row: Row, a: Add, b: nat)
    requires WellFormed(row) && SortedByStart(row)
    ensures Covers(Apply(row, Stage(a)), b) ==> Covers(row, b) || Stages(Stage(a), b)
    ensures NoColdDrop(row, Stage(a)) ==> (Covers(Apply(row, Stage(a)), b) <==> Covers(row, b) || Stages(Stage(a), b))
  {
    InsertBytes(row, a.start, a.end, a.at);
    InsertWellFormed(row, a.start, a.end, a.at);
    CompactKeepsBytesIff(Insert(row, a.start, a.end, a.at));
  }

  /** One operation claims nothing that was neither claimed nor staged, and short of
      a cold drop or an expiry exactly what was. */
  lemma ApplyBytes(row: Row, op: RowOp, b: nat)
    requires WellFormed(row) && SortedByStart(row)
    ensures Covers(Apply(row, op), b) ==> Covers(row, b) || Stages(op, b)
    ensures Keeps(op) && NoColdDrop(row, op) ==> (Covers(Apply(row, op), b) <==> Covers(row, b) || Stages(op, b))
  {
    match op {
      case Stage(a) => StageBytes(row, a, b);
      case Expire(now, window) =>
        FreshMembers(row, Cutoff(now, window));
        MembersCover(Decay(row, now, window), row);
      case Serve(start, end) => CreditBytes(row, start, end);
    }
  }

  /** No run, whatever compaction and decay it meets, ever claims a byte that was
      not staged. */
  lemma {:induction false} RunNeverOverclaims(ops: seq<RowOp>, b: nat)
    requires Covers(Run(ops), b)
    ensures Staged(ops, b)
  {
    if |ops| > 0 {
      var n := |ops| - 1;
      ApplyBytes(Run(ops[..n]), ops[n], b);
      StagedSnoc(ops, b);
      if Covers(Run(ops[..n]), b) {
        RunNeverOverclaims(ops[..n], b);
      }
    }
  }

  /** The history's `k`-th operation drops nothing. */
  ghost predicate KeepsAt(ops: seq<RowOp>, k: nat)
    requires k < |ops|
  {
    Keeps(ops[k]) && NoColdDrop(Run(ops[..k]), ops[k])
  }

  ghost predicate Unreduced(ops: seq<RowOp>) { forall k :: 0 <= k < |ops| ==> KeepsAt(ops, k) }

  lemma KeepsPrefix(ops: seq<RowOp>, n: nat, k: nat)
    requires k < n <= |ops| && KeepsAt(ops, k)
    ensures KeepsAt(ops[..n], k)
  {
    Seqs.TakeTake(ops, k, n);
  }

  /** Until a cold drop or an expiry with a window, the row holds exactly the staged bytes. */
  lemma {:induction false} RunExact(ops: seq<RowOp>, b: nat)
    requires Unreduced(ops)
    ensures Covers(Run(ops), b) <==> Staged(ops, b)
  {
    if |ops| > 0 {
      var n := |ops| - 1;
      forall k | 0 <= k < n ensures KeepsAt(ops[..n], k) { KeepsPrefix(ops, n, k); }
      RunExact(ops[..n], b);
      KeepsBytes(ops, n, b);
      StagedSnoc(ops, b);
    }
  }

  lemma KeepsBytes(ops: seq<RowOp>, n: nat, b: nat)
    requires |ops| == n + 1 && KeepsAt(ops, n)
    ensures Covers(Run(ops), b) <==> Covers(Run(ops[..n]), b) || Stages(ops[n], b)
  {
    ApplyBytes(Run(ops[..n]), ops[n], b);
  }

  /** What a step leaves in memory: staging records an add, expiry forgets the
      adds whose interval it dropped. */
  ghost function Recall(memory: set<Add>, op: RowOp, row: Row): set<Add> {
    match op
    case Stage(a) => if a.start < a.end then memory + {a} else memory
    case Expire(_, _) => Remembered(row, memory)
    case Serve(_, _) => memory
  }

  /** The adds a history's row still remembers. */
  ghost function Memory(ops: seq<RowOp>): set<Add> {
    if |ops| == 0 then {}
    else Recall(Memory(ops[..|ops| - 1]), ops[|ops| - 1], Run(ops))
  }

  /** No compaction: the insertion itself stays under the ceiling. */
  ghost predicate UnderCeiling(row: Row, op: RowOp)
    requires SortedByStart(row)
  {
    op.Stage? ==> |Insert(row, op.add.start, op.add.end, op.add.at)| <= MAX_INTERVALS_PER_KEY
  }

  lemma SameStamp(x: Span, y: Span, adds: set<Add>)
    requires Stamped(x, adds) && y == x.(heat := y.heat)
    ensures Stamped(y, adds)
  {
    forall b: nat | y.start <= b < y.end ensures FromAdd(y, adds, b) {
      FromAddGrows(x, y, adds, adds, b);
    }
    var a :| a in adds && Inside(a, x) && a.at == x.at;
    assert Inside(a, y);
    forall a | a in adds && Inside(a, y) ensures a.at <= y.at {
      assert Inside(a, x);
    }
  }

  lemma CreditExplained(row: Row, start: nat, end: nat, adds: set<Add>)
    requires Explained(row, adds)
    ensures Explained(Credit(row, start, end), adds)
  {
    var out := Credit(row, start, end);
    forall i | 0 <= i < |out| ensures Stamped(out[i], adds) {
      SameStamp(row[i], out[i], adds);
    }
    forall a | a in adds ensures a.start < a.end && Housed(out, a) {
      assert Housed(row, a);
      var i :| 0 <= i < |row| && Inside(a, row[i]);
      assert Inside(a, out[i]);
    }
  }

  lemma StepExplained(row: Row, op: RowOp, memory: set<Add>)
    requires WellFormed(row) && SortedByStart(row) && Explained(row, memory) && UnderCeiling(row, op)
    ensures Explained(Apply(row, op), Recall(memory, op, Apply(row, op)))
  {
    match op {
      case Stage(a) =>
        if a.start < a.end { InsertExplained(row, memory, a); }
      case Expire(now, window) =>
        DecayExplained(row, memory, now, window);
      case Serve(start, end) =>
        CreditExplained(row, start, end, memory);
    }
  }

  /** The history met no compaction at its `k`-th operation. */
  ghost predicate UncompactedAt(ops: seq<RowOp>, k: nat)
    requires k < |ops|
  {
    UnderCeiling(Run(ops[..k]), ops[k])
  }

  lemma UncompactedPrefix(ops: seq<RowOp>, n: nat, k: nat)
    requires k < n <= |ops| && UncompactedAt(ops, k)
    ensures UncompactedAt(ops[..n], k)
  {
    Seqs.TakeTake(ops, k, n);
  }

  /** While no compaction fires, at every point of every run each interval is the
      union of the adds it remembers and carries their latest stamp. */
  lemma {:induction false} RunExplained(ops: seq<RowOp>)
    requires forall k :: 0 <= k < |ops| ==> UncompactedAt(ops, k)
    ensures Explained(Run(ops), Memory(ops))
  {
    if |ops| > 0 {
      var n := |ops| - 1;
      forall k | 0 <= k < n ensures UncompactedAt(ops[..n], k) { UncompactedPrefix(ops, n, k); }
      RunExplained(ops[..n]);
      assert UncompactedAt(ops, n);
      StepExplained(Run(ops[..n]), ops[n], Memory(ops[..n]));
    }
  }

  lemma {:induction false} FreshAll(row: Row)
    ensures Fresh(row, 0) == row
  {
    if |row| != 0 {
      FreshAll(row[1..]);
    }
  }
}
