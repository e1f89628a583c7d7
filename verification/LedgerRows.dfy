/** What each operation of the ledger writes down, field by field: the other side of
    the claims, which only say what it must not write. */
module LedgerRows {
  import opened Options
  import opened Saturating
  import opened Spans
  import opened Compaction
  import opened Rows
  import opened CoverageRecord
  import opened SegmentNames
  import opened StagedLedger

  lemma {:induction false} AbsorbGrows(acc: Span, rest: Row)
    ensures var m := Absorb(acc, rest).0; m.start <= acc.start && acc.end <= m.end && acc.at <= m.at
    decreases |rest|
  {
    if |rest| > 0 && rest[0].start < acc.end { AbsorbGrows(Join(acc, rest[0]), rest[1..]); }
  }

  /** One interval of the row holds the whole range and is at least as fresh. */
  ghost predicate Houses(row: Row, start: nat, end: nat, at: nat) {
    exists x :: x in row && x.start <= start && end <= x.end && at <= x.at
  }

  /** On any row in start order an insertion leaves the range in one fresh interval. */
  lemma InsertHouses(row: Row, start: nat, end: nat, at: nat)
    requires SortedByStart(row) && start < end
    ensures Houses(Insert(row, start, end, at), start, end, at)
  {
    var added, idx := Span(start, end, at, 0), PartitionPoint(row, start);
    var m := Absorb(Seed(row, idx, added), row[idx..]).0;
    AbsorbGrows(Seed(row, idx, added), row[idx..]);
    SpliceSlot(row, idx, added);
    assert m in Insert(row, start, end, at);
  }

  lemma SpliceSlot(row: Row, idx: nat, added: Span)
    requires idx <= |row|
    ensures Absorb(Seed(row, idx, added), row[idx..]).0 in Splice(row, idx, added)
  {
    assert Splice(row, idx, added)[Kept(row, idx, added.start)] == Absorb(Seed(row, idx, added), row[idx..]).0;
  }

  /** The rows of every other key are as they were. */
  ghost predicate OthersSame(st: Staged, st': Staged, key: string) {
    forall k :: k != key ==> (k in st'.rows <==> k in st.rows) && Entry(st', k) == Entry(st, k)
  }

  predicate UnderCeiling(row: Row, start: nat, end: nat, at: nat)
    requires SortedByStart(row)
  {
    |Insert(row, start, end, at)| <= MAX_INTERVALS_PER_KEY
  }

  /** `spans` is the row with the range recorded: below the ceiling exactly its bytes are
      added, and they stand in one interval at least as fresh as `at`. */
  ghost predicate Records(before: Row, spans: Row, start: nat, end: nat, at: nat)
    requires SortedByStart(before)
  {
    UnderCeiling(before, start, end, at) ==>
      && (forall b: nat :: Covers(spans, b) <==> Covers(before, b) || start <= b < end)
      && Houses(spans, start, end, at)
  }

  lemma AddSpanRecords(row: Row, start: nat, end: nat, at: nat)
    requires SortedByStart(row) && start < end
    ensures Records(row, AddSpan(row, start, end, at), start, end, at)
  {
    if UnderCeiling(row, start, end, at) {
      InsertBytes(row, start, end, at);
      InsertHouses(row, start, end, at);
    }
  }

  lemma HousesSurvives(row: Row, start: nat, end: nat, at: nat, window: nat)
    requires Houses(row, start, end, at)
    ensures Houses(Decay(row, at, window), start, end, at)
  {
    DecayIff(row, at, window);
  }

  /** The record after a seal: without a window the row gains exactly the bytes that are
      there; with one it loses what was not read within it, and never the range just
      sealed. */
  lemma SealedSpans(r: Record, start: nat, end: nat, etag: Option<string>, total: nat, window: nat, at: nat)
    requires SortedByStart(r.spans) && start < end
    ensures var spans := SealedRow(r, start, end, etag, total, window, at).spans;
            && (window == 0 ==> Records(r.spans, spans, start, end, at))
            && (UnderCeiling(r.spans, start, end, at) ==> Houses(spans, start, end, at))
            && (forall x :: x in spans
                  <==> x in AddSpan(r.spans, start, end, at) && (window == 0 || x.at + window >= at))
  {
    AddSpanRecords(r.spans, start, end, at);
    DecayIff(AddSpan(r.spans, start, end, at), at, window);
    if UnderCeiling(r.spans, start, end, at) {
      HousesSurvives(AddSpan(r.spans, start, end, at), start, end, at, window);
    }
  }

  lemma SealedFields(r: Record, start: nat, end: nat, etag: Option<string>, total: nat, window: nat, at: nat)
    requires SortedByStart(r.spans)
    ensures var r' := SealedRow(r, start, end, etag, total, window, at);
            && r'.etag == (if etag == None then r.etag else etag)
            && r'.total == (if total == 0 then r.total else total) && r'.lastTouch == at
  {
  }

  /** How far a file of `len` bytes reaches into the span it is named for. */
  function Reach(n: Name, len: nat): nat { if n.start + len < n.end then n.start + len else n.end }

  /** Sealing a file of `len` bytes: one row is written, with the bytes that are there, the
      version the transfer reports and a fresh age; every other row is let be, and the
      account grows by the length. */
  lemma SealMeans(st: Staged, n: Name, len: nat, etag: Option<string>, total: nat, window: nat, at: nat)
    requires Ordered(st) && n.start < n.end && len > 0
    ensures var st' := SealSpec(st, n, Some(len), etag, total, window, at);
            && n.key in st'.rows && OthersSame(st, st', n.key)
            && st'.account == (if st.account + len < U64_MAX then st.account + len else U64_MAX)
            && Entry(st', n.key) == SealedRow(Entry(st, n.key), n.start, Reach(n, len), etag, total, window, at)
  {
    SealWrites(st, n, len, etag, total, window, at);
  }

  lemma SealWrites(st: Staged, n: Name, len: nat, etag: Option<string>, total: nat, window: nat, at: nat)
    requires Ordered(st) && n.start < n.end && len > 0
    ensures SealSpec(st, n, Some(len), etag, total, window, at)
         == Staged(st.rows[n.key := SealedRow(Entry(st, n.key), n.start, Reach(n, len), etag, total, window, at)],
                   SatAdd(st.account, len))
  {
  }

  /** What the sealed row claims: below the ceiling and without a window, exactly one more
      range of bytes; for any window, that range still. */
  lemma SealClaims(st: Staged, n: Name, len: nat, etag: Option<string>, total: nat, window: nat, at: nat)
    requires Ordered(st) && n.start < n.end && len > 0
    requires UnderCeiling(Entry(st, n.key).spans, n.start, Reach(n, len), at)
    ensures var spans, spans' := Entry(st, n.key).spans,
                                 Entry(SealSpec(st, n, Some(len), etag, total, window, at), n.key).spans;
            && (window == 0 ==> forall b: nat :: Covers(spans', b)
                                  <==> Covers(spans, b) || (n.start <= b < n.end && b < n.start + len))
            && exists x :: x in spans' && x.start <= n.start && Reach(n, len) <= x.end && at <= x.at
  {
    SealMeans(st, n, len, etag, total, window, at);
    SealedSpans(Entry(st, n.key), n.start, Reach(n, len), etag, total, window, at);
  }

  /** A missing file, an empty one or an empty span is refused, and only those. */
  lemma SealRefusedIff(n: Name, meta: Option<nat>)
    ensures !SealBacked(n, meta) <==> meta == None || meta == Some(0) || n.end <= n.start
  {
  }

  /** What may be claimed: the part of the file that is there, with its length; or, when
      there is no such file, the whole span, if other names cover every byte of it, with
      nothing to account. */
  lemma AdoptClaimIff(n: Name, meta: Option<nat>, files: seq<Extent>)
    requires FilesSorted(files)
    ensures var claim := AdoptClaim(n, meta, files);
            match meta
            case Some(len) =>
              && (claim.Some? <==> n.start < n.end && len > 0)
              && (claim.Some? ==> claim == Some((if n.start + len < n.end then n.start + len else n.end, len)))
            case None =>
              && (claim.Some? <==> n.start < n.end && AllNamed(files, n.start, n.end))
              && (claim.Some? ==> claim == Some((n.end, 0)))
  {
    if n.start < n.end { SweepIff(files, n.start, n.end); }
  }

  /** Adopting records the claim, touches the row, and leaves the version and every other
      row alone. */
  lemma AdoptMeans(st: Staged, n: Name, meta: Option<nat>, files: seq<Extent>, at: nat)
    requires Ordered(st)
    ensures var claim, st' := AdoptClaim(n, meta, files), AdoptSpec(st, n, meta, files, at);
            var r, r' := Entry(st, n.key), Entry(st', n.key);
            && (claim.None? ==> st' == st)
            && (claim.Some? ==>
                  && n.key in st'.rows && OthersSame(st, st', n.key)
                  && r'.etag == r.etag && r'.total == r.total && r'.lastTouch == at
                  && Records(r.spans, r'.spans, n.start, claim.value.0, at))
  {
    var claim := AdoptClaim(n, meta, files);
    if claim.Some? { AddSpanRecords(Entry(st, n.key).spans, n.start, claim.value.0, at); }
  }

  /** Re-deriving a row from at most 4096 listed files claims exactly what they name, and
      keeps its version and age; a key without a row gets none. */
  lemma ReAdoptMeans(st: Staged, key: string, freed: nat, files: seq<Extent>, now: nat)
    ensures var st' := ReAdoptSpec(st, key, freed, files, now);
            var r, r' := Entry(st, key), Entry(st', key);
            && (key in st'.rows <==> key in st.rows) && OthersSame(st, st', key)
            && st'.account == (if st.account < freed then 0 else st.account - freed)
            && r'.etag == r.etag && r'.total == r.total && r'.lastTouch == r.lastTouch
            && (key in st.rows && |files| <= MAX_INTERVALS_PER_KEY ==>
                  forall b: nat :: Covers(r'.spans, b) <==> Named(files, b))
  {
    if key in st.rows {
      forall b: nat ensures Covers(Rebuilt(st.rows[key].spans, files, now), b) <==> Named(files, b) {
        RebuiltBytes(st.rows[key].spans, files, now, b);
      }
    }
  }

  /** The startup inventory keeps the first version it learns of a key and touches every
      row it writes. */
  lemma FoundMeans(st: Staged, f: Found, at: nat)
    requires Ordered(st)
    ensures var key, st' := f.name.key, AdoptFound(st, f, at);
            var r, r' := Entry(st, key), Entry(st', key);
            && key in st'.rows && OthersSame(st, st', key) && r'.lastTouch == at
            && (r.etag != None ==> r'.etag == r.etag) && (r.etag == None ==> r'.etag == f.etag)
            && (r.total != 0 ==> r'.total == r.total) && (r.total == 0 ==> r'.total == f.total)
  {
  }

  /** The operations that move no bytes: which field of which row each writes. */
  lemma QuietMeans(st: Staged, q: Quiet)
    ensures var st', r, r' := QuietSpec(st, q), Entry(st, q.key), Entry(QuietSpec(st, q), q.key);
            && OthersSame(st, st', q.key) && st'.account == st.account
            && (q.key in st'.rows <==>
                  q.SetVersion? || (q.key in st.rows && !(q.DropIfEmpty? && r.spans == [])))
            && (q.key in st'.rows && !q.SetVersion? ==> r'.etag == r.etag && r'.total == r.total)
            && (q.key in st'.rows && !q.Touch? ==> r'.lastTouch == r.lastTouch)
            && (q.key in st'.rows && !q.Served? && !q.DecayRow? ==> r'.spans == r.spans)
            && (q.Touch? && q.key in st.rows ==> r'.lastTouch == q.at)
            && (q.SetVersion? ==> r'.etag == (if q.etag == None then r.etag else q.etag)
                                  && r'.total == (if q.total == 0 then r.total else q.total))
            && (q.DecayRow? ==> forall x :: x in r'.spans
                                  <==> x in r.spans && (q.window == 0 || x.at + q.window >= q.at))
            && (q.Served? ==> r'.spans == Credit(r.spans, q.start, q.end))
  {
    if q.DecayRow? { DecayIff(Entry(st, q.key).spans, q.at, q.window); }
  }
}
