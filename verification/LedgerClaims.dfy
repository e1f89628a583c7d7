/** What the ledger's rows claim against the files that exist: for each operation,
    exactly when it leaves every claim backed by bytes on disk. */
module LedgerClaims {
  import opened Options
  import opened Saturating
  import opened Spans
  import opened Compaction
  import opened Rows
  import opened CoverageRecord
  import opened StagedLedger
  import opened SegmentNames
  import Seqs

  /** The disk really holds byte `b` of the key. */
  ghost predicate Held(disk: Disk, key: string, b: nat) {
    exists n :: n in disk && n.key == key && n.start <= b < n.end && b < n.start + disk[n]
  }

  /** Byte `b` is named by a file of the key that is too short to hold it. */
  ghost predicate Missing(disk: Disk, key: string, b: nat) {
    exists n :: n in disk && n.key == key && n.start <= b < n.end && n.start + disk[n] <= b
  }

  /** Byte `b` is named by a file listed for the key that belongs to another key. */
  ghost predicate Foreign(disk: Disk, key: string, b: nat) {
    exists n :: n in disk && n.key != key && Caught(key, n.key) && n.start <= b < n.end
  }

  /** The listing names byte `b` on the strength of a file that does not hold it for
      the key: one that is too short, or one of another key. */
  ghost predicate Astray(disk: Disk, key: string, b: nat) { Missing(disk, key, b) || Foreign(disk, key, b) }

  /** Some file whose name starts as the key's names do has this extent. */
  ghost predicate Listed(disk: Disk, key: string, e: Extent) {
    exists n :: n in disk && Caught(key, n.key) && n.start == e.start && n.end == e.end
  }

  /** `files` is what a directory scan reports for the key, in start order. */
  ghost predicate Lists(files: seq<Extent>, disk: Disk, key: string) {
    FilesSorted(files) && forall e :: e in files <==> Listed(disk, key, e)
  }

  /** No other key on disk is this one followed by a dot and more. */
  ghost predicate Alone(disk: Disk, key: string) { forall n :: n in disk && Caught(key, n.key) ==> n.key == key }

  /** The prefix match finds the key's own files and no others exactly when no other
      key on disk extends this one by a dot. */
  lemma ListingExactIff(disk: Disk, key: string)
    ensures (forall n :: n in disk ==> (Prefix(key) <= FileName(n) <==> n.key == key))
        <==> (forall n :: n in disk && n.key != key ==> !(key + "." <= n.key))
    ensures Alone(disk, key) <==> forall n :: n in disk && n.key != key ==> !(key + "." <= n.key)
  {
    forall n | n in disk ensures Prefix(key) <= FileName(n) <==> Caught(key, n.key) { ListedIff(key, n); }
  }

  ghost predicate RowHeld(row: Row, disk: Disk, key: string) {
    forall b: nat :: Covers(row, b) ==> Held(disk, key, b)
  }

  /** Whatever the row claims of the bytes that go astray, a file of the key holds. */
  ghost predicate GapsHeld(row: Row, disk: Disk, key: string) {
    forall b: nat :: Astray(disk, key, b) && Covers(row, b) ==> Held(disk, key, b)
  }

  /** Of the bytes in the range, every one that goes astray is held by a file of the key. */
  ghost predicate AstrayHeld(disk: Disk, key: string, start: nat, end: nat) {
    forall b: nat :: start <= b < end && Astray(disk, key, b) ==> Held(disk, key, b)
  }

  /** The same, wherever the byte is. */
  ghost predicate AllAstrayHeld(disk: Disk, key: string) {
    forall b: nat :: Astray(disk, key, b) ==> Held(disk, key, b)
  }

  /** No row claims a byte outside its key's files. */
  ghost predicate Honored(st: Staged, disk: Disk) {
    && Ordered(st)
    && (forall k :: k in st.rows ==> RowHeld(st.rows[k].spans, disk, k))
  }

  lemma RecordedHeld(r: Record, disk: Disk, key: string, start: nat, end: nat, at: nat)
    requires SortedByStart(r.spans) && RowHeld(r.spans, disk, key)
    requires forall b: nat :: start <= b < end ==> Held(disk, key, b)
    ensures SortedByStart(Recorded(r, start, end, at).spans)
    ensures RowHeld(Recorded(r, start, end, at).spans, disk, key)
  {
    AddSpanBytes(r.spans, start, end, at);
  }

  lemma ExpiredHeld(r: Record, disk: Disk, key: string, at: nat, window: nat)
    requires SortedByStart(r.spans) && RowHeld(r.spans, disk, key)
    ensures SortedByStart(Expired(r, at, window).spans) && RowHeld(Expired(r, at, window).spans, disk, key)
  {
    DecayBytes(r.spans, at, window);
  }

  /** A measured span of a file on disk is held, however short the file is. */
  lemma MeasuredHeld(disk: Disk, n: Name, b: nat)
    requires n in disk && n.start <= b < Measured(n.start, n.end, disk[n])
    ensures Held(disk, n.key, b)
  {
  }

  lemma EntryHeld(st: Staged, disk: Disk, key: string)
    requires Honored(st, disk)
    ensures SortedByStart(Entry(st, key).spans) && RowHeld(Entry(st, key).spans, disk, key)
  {
  }

  lemma RowWritten(st: Staged, disk: Disk, key: string, r: Record, account: nat)
    requires Honored(st, disk) && SortedByStart(r.spans) && RowHeld(r.spans, disk, key)
    ensures Honored(Staged(st.rows[key := r], account), disk)
  {
  }

  /** Sealing claims only what the file that landed really holds. */
  lemma SealHonored(st: Staged, disk: Disk, n: Name, etag: Option<string>, total: nat, window: nat, at: nat)
    requires Honored(st, disk)
    ensures Honored(SealSpec(st, n, LengthOf(disk, n), etag, total, window, at), disk)
  {
    if SealBacked(n, LengthOf(disk, n)) {
      var end := Measured(n.start, n.end, disk[n]);
      EntryHeld(st, disk, n.key);
      var r := Versioned(Entry(st, n.key), etag, total);
      forall b: nat | n.start <= b < end ensures Held(disk, n.key, b) { MeasuredHeld(disk, n, b); }
      RecordedHeld(r, disk, n.key, n.start, end, at);
      ExpiredHeld(Recorded(r, n.start, end, at), disk, n.key, at, window);
      RowWritten(st, disk, n.key, SealedRow(Entry(st, n.key), n.start, end, etag, total, window, at),
                 SatAdd(st.account, disk[n]));
    }
  }

  /** What the listing names is what the key's files hold and what goes astray. */
  lemma NamedIff(files: seq<Extent>, disk: Disk, key: string, b: nat)
    requires Lists(files, disk, key)
    ensures Named(files, b) <==> Held(disk, key, b) || Astray(disk, key, b)
  {
    if Named(files, b) {
      var i :| 0 <= i < |files| && files[i].start <= b < files[i].end;
      assert files[i] in files && Listed(disk, key, files[i]);
    }
    if n :| n in disk && Caught(key, n.key) && n.start <= b < n.end {
      var e := Extent(n.start, n.end);
      assert Listed(disk, key, e);
      var i :| 0 <= i < |files| && files[i] == e;
      assert files[i].start <= b < files[i].end;
    }
  }

  /* ---------- adopting ---------- */

  /** Adopting a file that is there claims only what it holds, however short it is. */
  lemma AdoptMeasuredHonored(st: Staged, disk: Disk, n: Name, files: seq<Extent>, at: nat)
    requires Honored(st, disk) && n in disk
    ensures Honored(AdoptSpec(st, n, LengthOf(disk, n), files, at), disk)
  {
    var claim := AdoptClaim(n, LengthOf(disk, n), files);
    if claim.Some? {
      var end := claim.value.0;
      forall b: nat | n.start <= b < end ensures Held(disk, n.key, b) { MeasuredHeld(disk, n, b); }
      EntryHeld(st, disk, n.key);
      RecordedHeld(Entry(st, n.key), disk, n.key, n.start, end, at);
      RowWritten(st, disk, n.key, Recorded(Entry(st, n.key), n.start, end, at), SatAdd(st.account, claim.value.1));
    }
  }

  /** The row a span adopted on the strength of other files' names would leave. */
  function UnionRow(st: Staged, n: Name, at: nat): Row
    requires Ordered(st)
  {
    Recorded(Entry(st, n.key), n.start, n.end, at).spans
  }

  /** What an adoption by names needs: below the ceiling, that every byte of the span
      that goes astray is held; above it, every such byte the row still claims. */
  ghost predicate UnionSpares(st: Staged, disk: Disk, n: Name, at: nat)
    requires Ordered(st)
  {
    if |Insert(Entry(st, n.key).spans, n.start, n.end, at)| <= MAX_INTERVALS_PER_KEY
    then AstrayHeld(disk, n.key, n.start, n.end)
    else GapsHeld(UnionRow(st, n, at), disk, n.key)
  }

  /** Adopting a span whose own file is gone goes by the names the key's listing shows.
      It stays honoured exactly when it is refused or that is enough. */
  lemma AdoptUnionIff(st: Staged, disk: Disk, n: Name, files: seq<Extent>, at: nat)
    requires Honored(st, disk) && n !in disk && Lists(files, disk, n.key)
    ensures Honored(AdoptSpec(st, n, LengthOf(disk, n), files, at), disk)
        <==> (AdoptClaim(n, None, files).Some? ==> UnionSpares(st, disk, n, at))
  {
    EntryHeld(st, disk, n.key);
    if AdoptClaim(n, None, files).Some? {
      UnionRowHeldIff(st, disk, n, files, at);
      OneRowIff(st, disk, n.key, Recorded(Entry(st, n.key), n.start, n.end, at), SatAdd(st.account, 0));
      UnionSparesIff(st, disk, n, at);
    }
  }

  /** Below the ceiling the union's row claims the whole span, so only the span matters. */
  lemma UnionSparesIff(st: Staged, disk: Disk, n: Name, at: nat)
    requires Honored(st, disk)
    ensures UnionSpares(st, disk, n, at) <==> GapsHeld(UnionRow(st, n, at), disk, n.key)
  {
    var row := Entry(st, n.key).spans;
    EntryHeld(st, disk, n.key);
    if |Insert(row, n.start, n.end, at)| <= MAX_INTERVALS_PER_KEY {
      InsertBytes(row, n.start, n.end, at);
      assert UnionRow(st, n, at) == Insert(row, n.start, n.end, at);
    }
  }

  lemma UnionRowHeldIff(st: Staged, disk: Disk, n: Name, files: seq<Extent>, at: nat)
    requires Honored(st, disk) && Lists(files, disk, n.key) && AdoptClaim(n, None, files).Some?
    ensures SortedByStart(UnionRow(st, n, at))
    ensures RowHeld(UnionRow(st, n, at), disk, n.key) <==> GapsHeld(UnionRow(st, n, at), disk, n.key)
  {
    SweepIff(files, n.start, n.end);
    EntryHeld(st, disk, n.key);
    AddSpanBytes(Entry(st, n.key).spans, n.start, n.end, at);
    if GapsHeld(UnionRow(st, n, at), disk, n.key) {
      forall b: nat | Covers(UnionRow(st, n, at), b) ensures Held(disk, n.key, b) {
        if n.start <= b < n.end { NamedIff(files, disk, n.key, b); }
      }
    }
  }

  /** Writing one row of an honoured state, all turns on that row. */
  lemma OneRowIff(st: Staged, disk: Disk, key: string, r: Record, account: nat)
    requires Honored(st, disk) && SortedByStart(r.spans)
    ensures Honored(Staged(st.rows[key := r], account), disk) <==> RowHeld(r.spans, disk, key)
  {
    var st' := Staged(st.rows[key := r], account);
    assert st'.rows[key] == r;
  }

  const TWO_FILES: seq<Extent> := [Extent(0, 40), Extent(40, 80)]

  /** Forty bytes under `[0, 40)`, and five under `[40, 80)`. */
  function TwoFiles(key: string): Disk { map[Name(key, 0, 40) := 40, Name(key, 40, 80) := 5] }

  /** A disk of one key's files is listed by their extents. */
  lemma ListsOwn(files: seq<Extent>, disk: Disk, key: string)
    requires FilesSorted(files) && forall n :: n in disk ==> n.key == key
    requires forall e :: e in files <==> Name(key, e.start, e.end) in disk
    ensures Lists(files, disk, key) && Alone(disk, key)
  {
    forall e ensures e in files <==> Listed(disk, key, e) {
      if e in files { assert Name(key, e.start, e.end) in disk; }
      if Listed(disk, key, e) {
        var n :| n in disk && Caught(key, n.key) && n.start == e.start && n.end == e.end;
        assert n == Name(key, e.start, e.end);
      }
    }
  }

  lemma TwoFilesListed(key: string)
    ensures Lists(TWO_FILES, TwoFiles(key), key)
    ensures Missing(TwoFiles(key), key, 70) && !Held(TwoFiles(key), key, 70)
  {
    forall e ensures e in TWO_FILES <==> Name(key, e.start, e.end) in TwoFiles(key) {
      assert TWO_FILES[0] in TWO_FILES && TWO_FILES[1] in TWO_FILES;
      if e !in TWO_FILES { assert e != Extent(0, 40) && e != Extent(40, 80); }
    }
    ListsOwn(TWO_FILES, TwoFiles(key), key);
    assert Name(key, 40, 80) in TwoFiles(key);
  }

  /** The span `[0, 80)` has no file of its own. It is adopted whole on the strength of
      the two names, and claims byte 70, which nobody holds. */
  lemma AdoptOverclaims(key: string)
    ensures var n, st := Name(key, 0, 80), Staged(map[], 0);
            && Lists(TWO_FILES, TwoFiles(key), key) && n !in TwoFiles(key) && !Held(TwoFiles(key), key, 70)
            && AdoptClaim(n, LengthOf(TwoFiles(key), n), TWO_FILES) == Some((80, 0))
            && Ordered(st) && Covers(UnionRow(st, n, 1), 70)
            && !Honored(AdoptSpec(st, n, LengthOf(TwoFiles(key), n), TWO_FILES, 1), TwoFiles(key))
  {
    var n, st := Name(key, 0, 80), Staged(map[], 0);
    TwoFilesListed(key);
    InsertBytes([], 0, 80, 1);
    SpanOfOne(1);
    AdoptUnionIff(st, TwoFiles(key), n, TWO_FILES, 1);
  }

  lemma SpanOfOne(at: nat)
    ensures Insert([], 0, 80, at) == [Span(0, 80, at, 0)]
  {
  }

  /* ---------- re-deriving a row from its files ---------- */

  /** What a rebuild needs: up to 4096 files, that every byte that goes astray is held;
      above that, every such byte the ceiling leaves in the row. */
  ghost predicate RebuildSpares(prior: Row, files: seq<Extent>, disk: Disk, key: string, now: nat) {
    if |files| <= MAX_INTERVALS_PER_KEY then AllAstrayHeld(disk, key)
    else GapsHeld(Compact(Rebuilt(prior, files, now)), disk, key)
  }

  /** Rebuilding goes by what the listing names, overlapping, nested or empty extents
      and other keys' files included. It stays honoured exactly when that is enough. */
  lemma RebuildHonoredIff(prior: Row, files: seq<Extent>, disk: Disk, key: string, now: nat)
    requires Lists(files, disk, key)
    ensures SortedByStart(Compact(Rebuilt(prior, files, now)))
    ensures RowHeld(Compact(Rebuilt(prior, files, now)), disk, key) <==> RebuildSpares(prior, files, disk, key, now)
  {
    var row := Rebuilt(prior, files, now);
    forall b: nat ensures Covers(row, b) <==> Held(disk, key, b) || Astray(disk, key, b) {
      RebuiltBytes(prior, files, now, b);
      NamedIff(files, disk, key, b);
    }
    RebuiltBytes(prior, files, now, 0);
    CompactBounds(row);
  }

  /** A key that nothing extends by a dot has nothing but its own short files to fear. */
  lemma AloneRebuildIff(prior: Row, files: seq<Extent>, disk: Disk, key: string, now: nat)
    requires Alone(disk, key) && |files| <= MAX_INTERVALS_PER_KEY
    ensures RebuildSpares(prior, files, disk, key, now)
        <==> forall b: nat :: Missing(disk, key, b) ==> Held(disk, key, b)
  {
    forall b: nat ensures Astray(disk, key, b) <==> Missing(disk, key, b) {}
  }

  /** A concrete short file: forty bytes under a name that promises a hundred. The
      rebuilt row claims byte 70, which nobody can serve. */
  lemma ShortFileOverclaims(key: string)
    ensures var files, disk := [Extent(0, 100)], map[Name(key, 0, 100) := 40];
            && Lists(files, disk, key) && Alone(disk, key)
            && Covers(Compact(Rebuilt([], files, 1)), 70) && !Held(disk, key, 70)
  {
    var files, disk := [Extent(0, 100)], map[Name(key, 0, 100) := 40];
    assert files[0] == Extent(0, 100);
    forall e ensures e in files <==> Name(key, e.start, e.end) in disk {
      if Name(key, e.start, e.end) in disk { assert e == Extent(e.start, e.end) == files[0]; }
    }
    ListsOwn(files, disk, key);
    RebuiltClaims([], files, 0, 1, 70);
  }

  lemma RebuiltClaims(prior: Row, files: seq<Extent>, i: nat, now: nat, b: nat)
    requires i < |files| <= MAX_INTERVALS_PER_KEY && files[i].start <= b < files[i].end
    ensures Covers(Compact(Rebuilt(prior, files, now)), b)
  {
    RebuiltBytes(prior, files, now, b);
    assert Named(files, b);
  }

  /** Ten bytes of "x.tar" and ten of "x.tar.gz", neither file short. */
  const TAR: Disk := map[Name("x.tar", 0, 10) := 10, Name("x.tar.gz", 50, 60) := 10]

  const TAR_FILES: seq<Extent> := [Extent(0, 10), Extent(50, 60)]

  lemma TarListed()
    ensures Lists(TAR_FILES, TAR, "x.tar")
    ensures (forall b: nat :: !Missing(TAR, "x.tar", b)) && !Held(TAR, "x.tar", 55)
    ensures Held(TAR, "x.tar.gz", 55)
  {
    assert "x.tar" + "." <= "x.tar.gz";
    forall e ensures e in TAR_FILES <==> Listed(TAR, "x.tar", e) {
      assert TAR_FILES[0] in TAR_FILES && TAR_FILES[1] in TAR_FILES;
      if e in TAR_FILES {
        assert Name("x.tar", 0, 10) in TAR && Name("x.tar.gz", 50, 60) in TAR;
        assert e == Extent(0, 10) || e == Extent(50, 60);
      }
    }
    assert Name("x.tar.gz", 50, 60) in TAR;
  }

  /** Rebuilding "x.tar" beside "x.tar.gz" claims byte 55 for it, which only the other
      key has. */
  lemma KinOverclaims(prior: Row, now: nat)
    ensures Lists(TAR_FILES, TAR, "x.tar") && (forall b: nat :: !Missing(TAR, "x.tar", b))
    ensures Covers(Compact(Rebuilt(prior, TAR_FILES, now)), 55) && !Held(TAR, "x.tar", 55)
  {
    TarListed();
    RebuiltClaims(prior, TAR_FILES, 1, now, 55);
  }

  /* ---------- deletions ---------- */

  /** A deleted file held byte `b` for the key. */
  ghost predicate TakenAway(disk: Disk, gone: set<Name>, key: string, b: nat) {
    exists n :: n in disk && n in gone && n.key == key && n.start <= b < n.end && b < n.start + disk[n]
  }

  /** No row but the key's own claims a byte the deletion took, unless another file of
      its key holds it. */
  ghost predicate DeletionSpares(st: Staged, disk: Disk, gone: set<Name>, key: string) {
    forall k, b: nat :: k in st.rows && k != key && TakenAway(disk, gone, k, b) && Covers(st.rows[k].spans, b) ==>
      Held(disk - gone, k, b)
  }

  lemma HeldOrTaken(disk: Disk, gone: set<Name>, key: string, b: nat)
    requires Held(disk, key, b)
    ensures Held(disk - gone, key, b) || TakenAway(disk, gone, key, b)
  {
    var n :| n in disk && n.key == key && n.start <= b < n.end && b < n.start + disk[n];
    if n !in gone { assert n in disk - gone; }
  }

  /** Any files may be deleted, the key's own or another's; dropping the key's row then
      leaves the others honoured exactly when none of them lost a byte it claims. */
  lemma ForgetHonoredIff(st: Staged, disk: Disk, gone: set<Name>, key: string)
    requires Honored(st, disk)
    ensures Honored(st.(rows := st.rows - {key}), disk - gone) <==> DeletionSpares(st, disk, gone, key)
  {
    var others := st.rows - {key};
    if DeletionSpares(st, disk, gone, key) {
      forall k, b: nat | k in others && Covers(others[k].spans, b) ensures Held(disk - gone, k, b) {
        assert RowHeld(st.rows[k].spans, disk, k);
        HeldOrTaken(disk, gone, k, b);
      }
    }
    if Honored(st.(rows := others), disk - gone) {
      forall k, b: nat | k in st.rows && k != key && Covers(st.rows[k].spans, b) ensures Held(disk - gone, k, b) {
        assert RowHeld(others[k].spans, disk - gone, k);
      }
    }
  }

  /** What a reset deletes: every file listed for the key. */
  ghost function Swept(disk: Disk, key: string): set<Name> { set n | n in disk && Prefix(key) <= FileName(n) }

  /** A reset spares every other row when no other key on disk extends this one. */
  lemma AloneSpares(st: Staged, disk: Disk, key: string)
    requires Alone(disk, key)
    ensures DeletionSpares(st, disk, Swept(disk, key), key)
  {
    forall n | n in Swept(disk, key) ensures n.key == key { ListedIff(key, n); }
  }

  /** A reset takes the only file of a key that extends this one. */
  lemma SweepsKin(disk: Disk, key: string, n: Name, b: nat)
    requires n in disk && Caught(key, n.key) && n.start <= b < n.end && b < n.start + disk[n]
    requires forall m :: m in disk && m.key == n.key ==> m == n
    ensures TakenAway(disk, Swept(disk, key), n.key, b) && !Held(disk - Swept(disk, key), n.key, b)
  {
    ListedIff(key, n);
    assert n in Swept(disk, key);
  }

  lemma TarSwept()
    ensures var gone := Swept(TAR, "x.tar");
            TakenAway(TAR, gone, "x.tar.gz", 55) && !Held(TAR - gone, "x.tar.gz", 55)
  {
    assert "x.tar" + "." <= "x.tar.gz" && |"x.tar"| != |"x.tar.gz"|;
    SweepsKin(TAR, "x.tar", Name("x.tar.gz", 50, 60), 55);
  }

  lemma SparesNot(st: Staged, disk: Disk, gone: set<Name>, key: string, k: string, b: nat)
    requires k in st.rows && k != key && TakenAway(disk, gone, k, b) && Covers(st.rows[k].spans, b)
    requires !Held(disk - gone, k, b)
    ensures !DeletionSpares(st, disk, gone, key)
  {
  }

  /** Resetting "x.tar" deletes the file of "x.tar.gz", whose row goes on claiming it. */
  lemma ResetOrphans(st: Staged)
    requires Honored(st, TAR) && "x.tar.gz" in st.rows && Covers(st.rows["x.tar.gz"].spans, 55)
    ensures !DeletionSpares(st, TAR, Swept(TAR, "x.tar"), "x.tar")
    ensures !Honored(st.(rows := st.rows - {"x.tar"}), TAR - Swept(TAR, "x.tar"))
  {
    TarSwept();
    assert |"x.tar"| != |"x.tar.gz"|;
    SparesNot(st, TAR, Swept(TAR, "x.tar"), "x.tar", "x.tar.gz", 55);
    ForgetHonoredIff(st, TAR, Swept(TAR, "x.tar"), "x.tar");
  }

  /** Deleting files and re-deriving one key's row from what its listing then shows
      keeps every claim backed exactly when no other row lost a byte it claims and the
      key has no row or its rebuild is spared. */
  lemma ReAdoptHonoredIff(st: Staged, disk: Disk, gone: set<Name>, key: string, freed: nat,
                          files: seq<Extent>, now: nat)
    requires Honored(st, disk) && Lists(files, disk - gone, key)
    ensures Honored(ReAdoptSpec(st, key, freed, files, now), disk - gone)
        <==> DeletionSpares(st, disk, gone, key)
             && (key in st.rows ==> RebuildSpares(st.rows[key].spans, files, disk - gone, key, now))
  {
    ForgetHonoredIff(st, disk, gone, key);
    var others, account := st.rows - {key}, SatSub(st.account, freed);
    if key in st.rows {
      var row := Compact(Rebuilt(st.rows[key].spans, files, now));
      RebuildHonoredIff(st.rows[key].spans, files, disk - gone, key, now);
      TwoRowsIff(others, disk - gone, key, st.rows[key].(spans := row), st.account, account);
      assert others[key := st.rows[key].(spans := row)] == st.rows[key := st.rows[key].(spans := row)];
    } else {
      assert others == st.rows;
    }
  }

  /** One more row is honoured with the rest exactly when it is and they are. */
  lemma TwoRowsIff(rows: map<string, Record>, disk: Disk, key: string, r: Record, was: nat, account: nat)
    requires key !in rows && SortedByStart(r.spans)
    ensures Honored(Staged(rows[key := r], account), disk)
        <==> Honored(Staged(rows, was), disk) && RowHeld(r.spans, disk, key)
  {
    var more := rows[key := r];
    assert more[key] == r;
    assert forall k :: k in rows ==> k in more && more[k] == rows[k];
  }

  /* ---------- files landing ---------- */

  /** Byte `b` was held under this name and is not any more once the file is `len` long. */
  ghost predicate Lost(disk: Disk, n: Name, len: nat, b: nat) {
    n in disk && n.start <= b < n.end && n.start + len <= b < n.start + disk[n]
  }

  /** The key's row claims none of the bytes the landing file takes away, unless
      another file holds them. */
  ghost predicate LandingSpares(st: Staged, disk: Disk, n: Name, len: nat) {
    n.key in st.rows ==>
      forall b: nat :: Lost(disk, n, len, b) && Covers(st.rows[n.key].spans, b) ==> Held(disk[n := len], n.key, b)
  }

  lemma HeldAfterLanding(disk: Disk, n: Name, len: nat, key: string, b: nat)
    requires Held(disk, key, b) && !(key == n.key && Lost(disk, n, len, b))
    ensures Held(disk[n := len], key, b)
  {
    var m :| m in disk && m.key == key && m.start <= b < m.end && b < m.start + disk[m];
    assert m in disk[n := len];
  }

  /** A file may land under a new name or over an old one, longer or shorter. */
  lemma LandHonoredIff(st: Staged, disk: Disk, n: Name, len: nat)
    requires Honored(st, disk)
    ensures Honored(st, disk[n := len]) <==> LandingSpares(st, disk, n, len)
  {
    var disk' := disk[n := len];
    if LandingSpares(st, disk, n, len) {
      forall k, b: nat | k in st.rows && Covers(st.rows[k].spans, b) ensures Held(disk', k, b) {
        if !(k == n.key && Lost(disk, n, len, b)) { HeldAfterLanding(disk, n, len, k, b); }
      }
    }
  }

  /* ---------- everything else ---------- */

  lemma QuietHonored(st: Staged, disk: Disk, q: Quiet)
    requires Honored(st, disk)
    ensures Honored(QuietSpec(st, q), disk) && QuietSpec(st, q).account == st.account
  {
    match q
    case Touch(key, at) =>
    case Served(key, start, end) =>
      if key in st.rows { CreditBytes(st.rows[key].spans, start, end); }
    case SetVersion(key, etag, total) =>
    case DecayRow(key, at, window) =>
      if key in st.rows { ExpiredHeld(st.rows[key], disk, key, at, window); }
    case DropIfEmpty(key) =>
  }

  /* ---------- the startup inventory ---------- */

  /** `scan` is what the startup reads off the disk, file by file: each of `fs` once, at
      its real length, under the key its name gives back. */
  ghost predicate Inventory(scan: seq<Found>, fs: seq<Name>, disk: Disk) {
    && Reads(scan, fs, disk)
    && (forall n :: n in disk ==> n in fs)
  }

  ghost predicate Reads(scan: seq<Found>, fs: seq<Name>, disk: Disk) {
    && |scan| == |fs|
    && (forall i :: 0 <= i < |fs| ==> ReadsAs(scan[i], fs[i], disk))
    && (forall i, j :: 0 <= i < j < |fs| ==> fs[i] != fs[j])
  }

  ghost predicate ReadsAs(f: Found, n: Name, disk: Disk) {
    n in disk && f.len == disk[n] && f.name == n.(key := ReadBack(n.key))
  }

  /** The inventory's line claims byte `b` for the key. */
  ghost predicate Claims(f: Found, key: string, b: nat) {
    f.name.key == key && f.name.start <= b < Measured(f.name.start, f.name.end, f.len)
  }

  ghost predicate ScanClaims(scan: seq<Found>, key: string, b: nat) {
    exists i :: 0 <= i < |scan| && Claims(scan[i], key, b)
  }

  function CountFor(scan: seq<Found>, key: string): nat {
    if |scan| == 0 then 0
    else CountFor(scan[..|scan| - 1], key) + if scan[|scan| - 1].name.key == key then 1 else 0
  }

  lemma ScanClaimsSnoc(scan: seq<Found>, n: nat, key: string, b: nat)
    requires |scan| == n + 1
    ensures ScanClaims(scan, key, b) <==> ScanClaims(scan[..n], key, b) || Claims(scan[n], key, b)
  {
    if ScanClaims(scan, key, b) {
      var i :| 0 <= i < |scan| && Claims(scan[i], key, b);
      if i < n { assert scan[..n][i] == scan[i]; }
    }
    if ScanClaims(scan[..n], key, b) {
      var i :| 0 <= i < n && Claims(scan[..n][i], key, b);
      assert scan[..n][i] == scan[i];
    }
  }

  lemma InsertLength(row: Row, start: nat, end: nat, now: nat)
    requires SortedByStart(row)
    ensures |Insert(row, start, end, now)| <= |row| + 1
  {
  }

  /** Short of the ceiling, adding a span adds its bytes and at most one interval. */
  lemma AddedBytes(row: Row, start: nat, end: nat, at: nat, b: nat)
    requires SortedByStart(row)
    ensures Covers(AddSpan(row, start, end, at), b) ==> Covers(row, b) || start <= b < end
    ensures |row| < MAX_INTERVALS_PER_KEY ==>
              && |AddSpan(row, start, end, at)| <= |row| + 1
              && (Covers(AddSpan(row, start, end, at), b) <==> Covers(row, b) || start <= b < end)
  {
    AddSpanBytes(row, start, end, at);
    InsertLength(row, start, end, at);
    InsertBytes(row, start, end, at);
  }

  ghost function RowOf(scan: seq<Found>, at: nat, key: string): Row { Entry(AdoptAllSpec(scan, at), key).spans }

  lemma RowSnoc(scan: seq<Found>, n: nat, at: nat, key: string)
    requires |scan| == n + 1
    ensures SortedByStart(RowOf(scan[..n], at, key))
    ensures var f, row := scan[n], RowOf(scan[..n], at, key);
            RowOf(scan, at, key)
            == if f.name.key != key then row
               else AddSpan(row, f.name.start, Measured(f.name.start, f.name.end, f.len), at)
  {
  }

  /** A row built from the inventory claims nothing the inventory does not, and with at
      most 4096 files of its key everything it does. */
  lemma {:induction false} AdoptAllBytes(scan: seq<Found>, at: nat, key: string, b: nat)
    ensures Covers(RowOf(scan, at, key), b) ==> ScanClaims(scan, key, b)
    ensures CountFor(scan, key) <= MAX_INTERVALS_PER_KEY ==>
              && |RowOf(scan, at, key)| <= CountFor(scan, key)
              && (Covers(RowOf(scan, at, key), b) <==> ScanClaims(scan, key, b))
  {
    if |scan| > 0 {
      var n := |scan| - 1;
      var f := scan[n];
      AdoptAllBytes(scan[..n], at, key, b);
      RowSnoc(scan, n, at, key);
      ScanClaimsSnoc(scan, n, key, b);
      if f.name.key == key {
        AddedBytes(RowOf(scan[..n], at, key), f.name.start, Measured(f.name.start, f.name.end, f.len), at, b);
      }
    }
  }

  /** Byte `b` is held by a file of another key whose name reads back as this one. */
  ghost predicate Misfiled(disk: Disk, key: string, b: nat) {
    exists n :: n in disk && n.key != key && ReadBack(n.key) == key && n.start <= b < n.end && b < n.start + disk[n]
  }

  lemma ScanClaimsHeld(scan: seq<Found>, fs: seq<Name>, disk: Disk, key: string, b: nat)
    requires Reads(scan, fs, disk) && ScanClaims(scan, key, b)
    ensures Held(disk, key, b) || Misfiled(disk, key, b)
  {
    var i :| 0 <= i < |scan| && Claims(scan[i], key, b);
    assert ReadsAs(scan[i], fs[i], disk);
  }

  lemma MisfiledClaimed(scan: seq<Found>, fs: seq<Name>, disk: Disk, key: string, b: nat)
    requires Inventory(scan, fs, disk) && Misfiled(disk, key, b)
    ensures ScanClaims(scan, key, b)
  {
    var n :| n in disk && n.key != key && ReadBack(n.key) == key && n.start <= b < n.end && b < n.start + disk[n];
    var i :| 0 <= i < |fs| && fs[i] == n;
    assert ReadsAs(scan[i], fs[i], disk);
    assert Claims(scan[i], key, b);
  }

  ghost predicate WithinCeiling(scan: seq<Found>) { forall key :: CountFor(scan, key) <= MAX_INTERVALS_PER_KEY }

  /** What a restart needs: with at most 4096 files a key, that every byte filed under
      another key is held for that one too; above that, every such byte the ceiling
      leaves in a row. */
  ghost predicate RestartSpares(scan: seq<Found>, disk: Disk, at: nat) {
    if WithinCeiling(scan) then forall key, b: nat :: Misfiled(disk, key, b) ==> Held(disk, key, b)
    else forall key, b: nat :: Misfiled(disk, key, b) && Covers(RowOf(scan, at, key), b) ==> Held(disk, key, b)
  }

  /** Rebuilding every row from the inventory measures, so short files are harmless;
      it goes wrong exactly where a key did not survive its file name. */
  lemma RestartHonoredIff(scan: seq<Found>, fs: seq<Name>, disk: Disk, at: nat)
    requires Inventory(scan, fs, disk)
    ensures Honored(AdoptAllSpec(scan, at), disk) <==> RestartSpares(scan, disk, at)
  {
    forall key, b: nat
      ensures Covers(RowOf(scan, at, key), b) ==> Held(disk, key, b) || Misfiled(disk, key, b)
      ensures WithinCeiling(scan) && Misfiled(disk, key, b) ==> Covers(RowOf(scan, at, key), b)
    {
      AdoptAllBytes(scan, at, key, b);
      if ScanClaims(scan, key, b) { ScanClaimsHeld(scan, fs, disk, key, b); }
      if Misfiled(disk, key, b) { MisfiledClaimed(scan, fs, disk, key, b); }
    }
    RowsHeldIff(scan, disk, at);
  }

  lemma RowsHeldIff(scan: seq<Found>, disk: Disk, at: nat)
    ensures Honored(AdoptAllSpec(scan, at), disk)
        <==> forall key, b: nat :: Covers(RowOf(scan, at, key), b) ==> Held(disk, key, b)
  {
    var st := AdoptAllSpec(scan, at);
    if Honored(st, disk) {
      forall key, b: nat | Covers(RowOf(scan, at, key), b) ensures Held(disk, key, b) {
        EntryHeld(st, disk, key);
      }
    }
    if forall key, b: nat :: Covers(RowOf(scan, at, key), b) ==> Held(disk, key, b) {
      forall key | key in st.rows ensures RowHeld(st.rows[key].spans, disk, key) {
        assert RowOf(scan, at, key) == st.rows[key].spans;
      }
    }
  }

  /** When every key on disk is plain ASCII a restart leaves every claim backed. */
  lemma AsciiRestart(scan: seq<Found>, disk: Disk, at: nat)
    requires forall n :: n in disk ==> Ascii(n.key)
    ensures RestartSpares(scan, disk, at)
  {
    forall n | n in disk ensures ReadBack(n.key) == n.key { RoundTripIff(n.key); }
  }

  const E_ACUTE: string := "\U{E9}"
  const E_ACUTE_BYTES: string := "\U{C3}\U{A9}"

  lemma AcuteReadsBack()
    ensures ReadBack(E_ACUTE) == E_ACUTE_BYTES != E_ACUTE
  {
    assert E_ACUTE[1..] == "";
    assert ReadBackChar(E_ACUTE[0]) == E_ACUTE_BYTES;
    Seqs.EmptyConcat(E_ACUTE_BYTES);
    assert |E_ACUTE| != |E_ACUTE_BYTES|;
  }

  /** One file of a key that is a single accented letter: the restart files it under the
      two characters its UTF-8 bytes look like, where no file holds byte 5. */
  lemma RestartMisfiles(at: nat)
    ensures var n := Name(E_ACUTE, 0, 10);
            var disk, scan := map[n := 10], [Found(n.(key := E_ACUTE_BYTES), 10, None, 0)];
            Inventory(scan, [n], disk) && Covers(RowOf(scan, at, E_ACUTE_BYTES), 5) && !Held(disk, E_ACUTE_BYTES, 5)
  {
    var n := Name(E_ACUTE, 0, 10);
    var disk, scan := map[n := 10], [Found(n.(key := E_ACUTE_BYTES), 10, None, 0)];
    AcuteReadsBack();
    assert ReadsAs(scan[0], n, disk);
    assert scan[..0] == [];
    assert CountFor(scan, E_ACUTE_BYTES) == 1;
    assert Claims(scan[0], E_ACUTE_BYTES, 5);
    AdoptAllBytes(scan, at, E_ACUTE_BYTES, 5);
  }
}
