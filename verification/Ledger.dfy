/** The staged state: the per-key rows and the byte account, against the sidecar
    files on disk. File-system answers (a file's length, a key's files, a whole
    inventory) are parameters. */
module StagedLedger {
  import opened Options
  import opened Saturating
  import opened Spans
  import opened Compaction
  import opened Rows
  import opened CoverageRecord
  import opened SegmentNames
  import Seqs

  /** The sidecars on disk, each with its real length. */
  type Disk = map<Name, nat>

  datatype Staged = Staged(rows: map<string, Record>, account: nat)

  /** What a file really backs of the extent its name promises. */
  function Measured(start: nat, end: nat, len: nat): nat { Min(end, start + len) }

  function Entry(st: Staged, key: string): Record {
    if key in st.rows then st.rows[key] else EMPTY
  }

  ghost predicate Ordered(st: Staged) {
    forall k :: k in st.rows ==> SortedByStart(st.rows[k].spans)
  }

  function LengthOf(disk: Disk, n: Name): Option<nat> {
    if n in disk then Some(disk[n]) else None
  }

  /* ---------- does the disk cover a span ---------- */

  /** The greedy sweep over a key's files in start order. */
  function Sweep(files: seq<Extent>, at: nat, end: nat): bool {
    if |files| == 0 then false
    else if files[0].start <= at < files[0].end then
      files[0].end >= end || Sweep(files[1..], files[0].end, end)
    else Sweep(files[1..], at, end)
  }

  ghost predicate AllNamed(files: seq<Extent>, lo: nat, hi: nat) {
    forall b: nat :: lo <= b < hi ==> Named(files, b)
  }

  lemma NamedHead(files: seq<Extent>, b: nat)
    requires |files| > 0
    ensures Named(files, b) <==> files[0].start <= b < files[0].end || Named(files[1..], b)
  {
    if Named(files, b) {
      var i :| 0 <= i < |files| && files[i].start <= b < files[i].end;
      if i > 0 { assert files[1..][i - 1] == files[i]; }
    }
    if Named(files[1..], b) {
      var i :| 0 <= i < |files[1..]| && files[1..][i].start <= b < files[1..][i].end;
      assert files[i + 1] == files[1..][i];
    }
  }

  /** For a non-empty span the sweep answers yes exactly when the union of the
      files, sorted by start and possibly overlapping or nested, names every byte. */
  lemma {:induction false} SweepIff(files: seq<Extent>, at: nat, end: nat)
    requires FilesSorted(files) && at < end
    ensures Sweep(files, at, end) <==> AllNamed(files, at, end)
  {
    if |files| == 0 {
      assert AllNamed(files, at, end) ==> Named(files, at);
    } else {
      var f, rest := files[0], files[1..];
      forall b: nat { NamedHead(files, b); }
      if f.start <= at < f.end {
        if f.end < end {
          SweepIff(rest, f.end, end);
        }
      } else {
        SweepIff(rest, at, end);
        if f.start > at {
          assert !Named(files, at);
        }
      }
    }
  }

  /* ---------- the operations, on values ---------- */

  /** The row with one more span, stamped and touched at `at`. */
  function Recorded(r: Record, start: nat, end: nat, at: nat): Record
    requires SortedByStart(r.spans)
  {
    r.(spans := AddSpan(r.spans, start, end, at), lastTouch := at)
  }

  /** The row with the version a transfer reports; absent values say nothing. */
  function Versioned(r: Record, etag: Option<string>, total: nat): Record {
    r.(etag := if etag.Some? then etag else r.etag, total := if total != 0 then total else r.total)
  }

  function Expired(r: Record, at: nat, window: nat): Record {
    r.(spans := Decay(r.spans, at, window))
  }

  function SealedRow(r: Record, start: nat, end: nat, etag: Option<string>, total: nat, window: nat, at: nat): Record
    requires SortedByStart(r.spans)
  {
    Expired(Recorded(Versioned(r, etag, total), start, end, at), at, window)
  }

  function SealSpec(st: Staged, n: Name, meta: Option<nat>, etag: Option<string>, total: nat,
                    window: nat, at: nat): Staged
    requires Ordered(st)
  {
    if meta.None? || Measured(n.start, n.end, meta.value) <= n.start then st
    else
      var end := Measured(n.start, n.end, meta.value);
      Staged(st.rows[n.key := SealedRow(Entry(st, n.key), n.start, end, etag, total, window, at)],
             SatAdd(st.account, meta.value))
  }

  predicate SealBacked(n: Name, meta: Option<nat>) {
    meta.Some? && Measured(n.start, n.end, meta.value) > n.start
  }

  /** What an adoption records: the end it claims and the bytes it accounts. */
  function AdoptClaim(n: Name, meta: Option<nat>, files: seq<Extent>): Option<(nat, nat)> {
    if meta.Some? then
      if Measured(n.start, n.end, meta.value) <= n.start then None
      else Some((Measured(n.start, n.end, meta.value), meta.value))
    else if Sweep(files, n.start, n.end) && n.start < n.end then Some((n.end, 0))
    else None
  }

  function AdoptSpec(st: Staged, n: Name, meta: Option<nat>, files: seq<Extent>, at: nat): Staged
    requires Ordered(st)
  {
    match AdoptClaim(n, meta, files)
    case None => st
    case Some((end, bytes)) =>
      Staged(st.rows[n.key := Recorded(Entry(st, n.key), n.start, end, at)], SatAdd(st.account, bytes))
  }

  function ForgetSpec(st: Staged, key: string, freed: nat): Staged {
    Staged(st.rows - {key}, SatSub(st.account, freed))
  }

  function ReAdoptSpec(st: Staged, key: string, freed: nat, files: seq<Extent>, now: nat): Staged {
    Staged(if key in st.rows
           then st.rows[key := st.rows[key].(spans := Compact(Rebuilt(st.rows[key].spans, files, now)))]
           else st.rows,
           SatSub(st.account, freed))
  }

  /** One file of the startup inventory, under the key its name was read back to. */
  datatype Found = Found(name: Name, len: nat, etag: Option<string>, total: nat)

  function AdoptFound(st: Staged, f: Found, at: nat): Staged
    requires Ordered(st)
  {
    var r := Entry(st, f.name.key);
    var known := r.(etag := if r.etag.None? then f.etag else r.etag,
                    total := if r.total == 0 then f.total else r.total);
    var claimed := Recorded(known, f.name.start, Measured(f.name.start, f.name.end, f.len), at);
    Staged(st.rows[f.name.key := claimed], SatAdd(st.account, f.len))
  }

  lemma AddSpanBytes(row: Row, start: nat, end: nat, now: nat)
    requires SortedByStart(row)
    ensures SortedByStart(AddSpan(row, start, end, now))
    ensures forall b: nat :: Covers(AddSpan(row, start, end, now), b) ==> Covers(row, b) || start <= b < end
  {
    InsertBytes(row, start, end, now);
    CompactBounds(Insert(row, start, end, now));
  }

  lemma DecayBytes(row: Row, now: nat, window: nat)
    requires SortedByStart(row)
    ensures SortedByStart(Decay(row, now, window)) && SubBytes(Decay(row, now, window), row)
  {
    FreshOrdered(row, Cutoff(now, window));
    FreshMembers(row, Cutoff(now, window));
    MembersCover(Decay(row, now, window), row);
  }

  /** The rebuild from an inventory, file by file. */
  function AdoptAllSpec(scan: seq<Found>, at: nat): (st: Staged)
    ensures Ordered(st)
  {
    if |scan| == 0 then Staged(map[], 0)
    else
      var before := AdoptAllSpec(scan[..|scan| - 1], at);
      var f := scan[|scan| - 1];
      AddSpanBytes(Entry(before, f.name.key).spans, f.name.start, Measured(f.name.start, f.name.end, f.len), at);
      AdoptFound(before, f, at)
  }

  lemma AdoptAllSnoc(scan: seq<Found>, i: nat, at: nat)
    requires i < |scan|
    ensures AdoptAllSpec(scan[..i + 1], at) == AdoptFound(AdoptAllSpec(scan[..i], at), scan[i], at)
  {
    Seqs.TakeTake(scan, i, i + 1);
  }

  /** The operations that move rows but never bytes. */
  datatype Quiet =
    | Touch(key: string, at: nat)
    | Served(key: string, start: nat, end: nat)
    | SetVersion(key: string, etag: Option<string>, total: nat)
    | DecayRow(key: string, at: nat, window: nat)
    | DropIfEmpty(key: string)

  function QuietSpec(st: Staged, q: Quiet): Staged {
    match q
    case Touch(key, at) =>
      if key in st.rows then st.(rows := st.rows[key := st.rows[key].(lastTouch := at)]) else st
    case Served(key, start, end) =>
      if key in st.rows
      then st.(rows := st.rows[key := st.rows[key].(spans := Credit(st.rows[key].spans, start, end))]) else st
    case SetVersion(key, etag, total) =>
      st.(rows := st.rows[key := Versioned(Entry(st, key), etag, total)])
    case DecayRow(key, at, window) =>
      if key in st.rows
      then st.(rows := st.rows[key := Expired(st.rows[key], at, window)]) else st
    case DropIfEmpty(key) =>
      if key in st.rows && st.rows[key].spans == [] then st.(rows := st.rows - {key}) else st
  }

  /* ---------- the ledger itself ---------- */

  class Ledger {
    var rows: map<string, Record>
    var totalStaged: nat

    ghost function State(): Staged
      reads this
    {
      Staged(rows, totalStaged)
    }

    constructor ()
      ensures State() == Staged(map[], 0)
    {
      rows, totalStaged := map[], 0;
    }

    /** The row with one more span, stamped and touched at `at`. */
    static method AddTo(r: Record, start: nat, end: nat, at: nat) returns (r': Record)
      requires SortedByStart(r.spans)
      ensures r' == Recorded(r, start, end, at)
    {
      var entry := new Coverage(r);
      entry.AddInterval(start, end, at);
      r' := Record(entry.etag, entry.total, entry.intervals, at);
    }

    /** The row after the coverage window, and the bytes it still covers. */
    static method Expire(r: Record, at: nat, window: nat) returns (r': Record, covered: int)
      ensures r' == Expired(r, at, window)
      ensures covered == Covered(r'.spans)
    {
      var entry := new Coverage(r);
      covered := entry.DecayAndCovered(at, window);
      r' := Record(entry.etag, entry.total, entry.intervals, entry.lastTouch);
    }

    static method SealRow(r: Record, start: nat, end: nat, etag: Option<string>, total: nat, window: nat, at: nat)
      returns (r': Record)
      requires SortedByStart(r.spans)
      ensures r' == SealedRow(r, start, end, etag, total, window, at)
    {
      r' := r;
      if etag.Some? { r' := r'.(etag := etag); }
      if total != 0 { r' := r'.(total := total); }
      r' := AddTo(r', start, end, at);
      var covered;
      r', covered := Expire(r', at, window);
    }

    /** Put a sealed span on its key's row. */
    method SealInto(key: string, start: nat, end: nat, etag: Option<string>, total: nat, window: nat, at: nat)
      requires Ordered(State())
      modifies this`rows
      ensures rows == old(rows)[key := SealedRow(Entry(old(State()), key), start, end, etag, total, window, at)]
    {
      var entry := SealRow(if key in rows then rows[key] else EMPTY, start, end, etag, total, window, at);
      rows := rows[key := entry];
    }

    /** One completed span: version, claim, age and window under one guard. */
    method Seal(n: Name, meta: Option<nat>, etag: Option<string>, total: nat, window: nat, at: nat)
      returns (backed: bool)
      requires Ordered(State())
      modifies this
      ensures State() == SealSpec(old(State()), n, meta, etag, total, window, at)
      ensures backed == SealBacked(n, meta)
    {
      if meta.None? { return false; }
      var end := Min(n.end, n.start + meta.value);
      if end <= n.start { return false; }
      SealInto(n.key, n.start, end, etag, total, window, at);
      totalStaged := SatAdd(totalStaged, meta.value);
      backed := true;
    }

    method DiskCovers(files: seq<Extent>, start: nat, end: nat) returns (covered: bool)
      ensures covered == Sweep(files, start, end)
    {
      var at: nat := start;
      for i := 0 to |files|
        invariant Sweep(files[i..], at, end) == Sweep(files, start, end)
      {
        assert files[i..][0] == files[i];
        Seqs.DropDrop(files, i, i + 1);
        if files[i].start <= at < files[i].end {
          at := files[i].end;
          if at >= end { return true; }
        }
      }
      return false;
    }

    /** The end a claim may record and the bytes it accounts, measured off the disk. */
    method Claim(n: Name, meta: Option<nat>, files: seq<Extent>) returns (claim: Option<(nat, nat)>)
      ensures claim == AdoptClaim(n, meta, files)
    {
      var end, bytes := n.end, 0;
      if meta.Some? {
        end, bytes := Min(n.end, n.start + meta.value), meta.value;
      } else {
        var covered := DiskCovers(files, n.start, n.end);
        if !covered { return None; }
      }
      if end <= n.start { return None; }
      return Some((end, bytes));
    }

    method Adopt(n: Name, meta: Option<nat>, files: seq<Extent>, at: nat) returns (backed: bool)
      requires Ordered(State())
      modifies this
      ensures State() == AdoptSpec(old(State()), n, meta, files, at)
      ensures backed == AdoptClaim(n, meta, files).Some?
    {
      var claim := Claim(n, meta, files);
      if claim.None? { return false; }
      Claimed(n.key, n.start, claim.value.0, at);
      totalStaged := SatAdd(totalStaged, claim.value.1);
      backed := true;
    }

    /** Put one more span on a key's row. */
    method Claimed(key: string, start: nat, end: nat, at: nat)
      requires Ordered(State())
      modifies this`rows
      ensures rows == old(rows)[key := Recorded(Entry(old(State()), key), start, end, at)]
    {
      var entry := AddTo(if key in rows then rows[key] else EMPTY, start, end, at);
      rows := rows[key := entry];
    }

    method AdoptAll(scan: seq<Found>, at: nat)
      modifies this
      ensures State() == AdoptAllSpec(scan, at)
    {
      var total := 0;
      rows := map[];
      assert scan[..0] == [];
      for i := 0 to |scan|
        invariant Staged(rows, total) == AdoptAllSpec(scan[..i], at)
      {
        var f := scan[i];
        AdoptAllSnoc(scan, i, at);
        total := SatAdd(total, f.len);
        var entry := if f.name.key in rows then rows[f.name.key] else EMPTY;
        if entry.etag.None? { entry := entry.(etag := f.etag); }
        if entry.total == 0 { entry := entry.(total := f.total); }
        entry := AddTo(entry, f.name.start, Min(f.name.end, f.name.start + f.len), at);
        rows := rows[f.name.key := entry];
      }
      assert scan[..|scan|] == scan;
      totalStaged := total;
    }

    method Forget(key: string, freed: nat)
      modifies this
      ensures State() == ForgetSpec(old(State()), key, freed)
    {
      rows := rows - {key};
      totalStaged := SatSub(totalStaged, freed);
    }

    method ReAdopt(key: string, freed: nat, survivors: seq<Extent>, now: nat)
      modifies this
      ensures State() == ReAdoptSpec(old(State()), key, freed, survivors, now)
    {
      totalStaged := SatSub(totalStaged, freed);
      if key in rows {
        var entry := new Coverage(rows[key]);
        entry.AdoptFiles(survivors, now);
        rows := rows[key := Record(entry.etag, entry.total, entry.intervals, entry.lastTouch)];
      }
    }

    /** Bytes left the disk for a reader. */
    method CreditRead(key: string, start: nat, end: nat)
      modifies this
      ensures State() == QuietSpec(old(State()), Served(key, start, end))
    {
      if start >= end {
        assert key in rows ==> rows[key := rows[key]] == rows;
        return;
      }
      if key in rows {
        var spans := rows[key].spans;
        ghost var before := spans;
        for i := 0 to |spans|
          invariant |spans| == |before|
          invariant forall k :: 0 <= k < i ==> spans[k] == Credited(before[k], start, end)
          invariant forall k :: i <= k < |spans| ==> spans[k] == before[k]
        {
          if spans[i].start < end && start < spans[i].end {
            spans := spans[i := spans[i].(heat := Min(spans[i].heat + 1, U64_MAX))];
          }
        }
        assert spans == Credit(before, start, end);
        rows := rows[key := rows[key].(spans := spans)];
      }
    }

    /** Bytes the key may still be served from after the window dropped the rest. */
    method DecayedCoverage(key: string, at: nat, window: nat) returns (covered: int)
      modifies this
      ensures State() == QuietSpec(old(State()), DecayRow(key, at, window))
      ensures covered == if key in rows then Covered(rows[key].spans) else 0
    {
      if key !in rows { return 0; }
      var entry;
      entry, covered := Expire(rows[key], at, window);
      rows := rows[key := entry];
    }
  }
}
