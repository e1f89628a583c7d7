/** Whole runs of the staged ledger against the disk: exactly when no row ever claims
    a byte nobody can serve, and exactly when the account is the total length of the
    live sidecars. */
module LedgerRuns {
  import opened Options
  import opened Saturating
  import opened Spans
  import opened Compaction
  import opened Rows
  import opened CoverageRecord
  import opened StagedLedger
  import opened SegmentNames
  import opened LedgerClaims
  import Sums
  import Seqs

  /** The account is the measured length of the files counted so far. */
  ghost predicate Exact(st: Staged, disk: Disk, counted: set<Name>) {
    && counted <= disk.Keys
    && st.account == Sums.Sum(Sums.On(disk, counted))
    && Sums.Sum(disk) <= U64_MAX
  }

  ghost function SetOf(fs: seq<Name>): set<Name> { set n | n in fs }

  lemma SetSnoc(fs: seq<Name>, n: nat)
    requires |fs| == n + 1 && forall i, j :: 0 <= i < j < |fs| ==> fs[i] != fs[j]
    ensures SetOf(fs) == SetOf(fs[..n]) + {fs[n]} && fs[n] !in SetOf(fs[..n])
  {
    assert fs == fs[..n] + [fs[n]];
  }

  lemma ReadsPart(scan: seq<Found>, fs: seq<Name>, disk: Disk, n: nat)
    requires Reads(scan, fs, disk) && n <= |scan|
    ensures Reads(scan[..n], fs[..n], disk)
  {
    forall i | 0 <= i < n ensures ReadsAs(scan[..n][i], fs[..n][i], disk) {
      assert ReadsAs(scan[i], fs[i], disk);
    }
  }

  lemma AdoptAllAccount(scan: seq<Found>, n: nat, at: nat)
    requires |scan| == n + 1
    ensures AdoptAllSpec(scan, at).account == SatAdd(AdoptAllSpec(scan[..n], at).account, scan[n].len)
  {
  }

  /** At every prefix of the inventory the account is the length of the files read so
      far, whatever keys they are filed under. */
  lemma {:induction false} AdoptAllPart(scan: seq<Found>, fs: seq<Name>, disk: Disk, at: nat)
    requires Reads(scan, fs, disk) && Sums.Sum(disk) <= U64_MAX
    ensures Exact(AdoptAllSpec(scan, at), disk, SetOf(fs))
  {
    if |scan| == 0 {
      Sums.OnNone(disk);
      assert SetOf(fs) == {};
    } else {
      var n := |scan| - 1;
      ReadsPart(scan, fs, disk, n);
      AdoptAllPart(scan[..n], fs[..n], disk, at);
      assert ReadsAs(scan[n], fs[n], disk);
      SetSnoc(fs, n);
      AdoptAllAccount(scan, n, at);
      CountOne(AdoptAllSpec(scan[..n], at), disk, SetOf(fs[..n]), fs[n]);
    }
  }

  /* ---------- the account ---------- */

  /** Counting one uncounted file adds exactly its length; nothing saturates. */
  lemma CountOne(st: Staged, disk: Disk, counted: set<Name>, n: Name)
    requires Exact(st, disk, counted) && n in disk && n !in counted
    ensures SatAdd(st.account, disk[n]) == Sums.Sum(Sums.On(disk, counted + {n}))
    ensures SatAdd(st.account, disk[n]) <= U64_MAX
  {
    var more := Sums.On(disk, counted + {n});
    Sums.OnOneMore(disk, counted, n);
    Sums.SumWithout(more, n);
    Sums.SumSubset(disk, counted + {n});
  }

  /** Giving up the measured length of counted files never saturates. */
  lemma FreeCounted(st: Staged, disk: Disk, counted: set<Name>, gone: set<Name>)
    requires Exact(st, disk, counted) && gone <= counted
    ensures SatSub(st.account, Sums.Sum(Sums.On(disk, gone))) == Sums.Sum(Sums.On(disk - gone, counted - gone))
    ensures Sums.Sum(disk - gone) <= U64_MAX
  {
    Sums.SumSplit(Sums.On(disk, counted), gone);
    CountedSplits(disk, counted, gone);
    Sums.SumSplit(disk, gone);
  }

  lemma CountedSplits(disk: Disk, counted: set<Name>, gone: set<Name>)
    requires gone <= counted
    ensures Sums.On(Sums.On(disk, counted), gone) == Sums.On(disk, gone)
    ensures Sums.On(disk, counted) - gone == Sums.On(disk - gone, counted - gone)
  {
    Sums.OnPart(disk, counted, gone);
  }

  /** The file a seal measures replaced `was` bytes under the same name: the
      account follows the disk exactly when nothing was replaced, or, for a span
      that is refused, when the length did not change. */
  lemma SealTracksDiskIff(st: Staged, disk: Disk, n: Name, len: nat, etag: Option<string>, total: nat,
                          window: nat, at: nat)
    requires Ordered(st) && st.account == Sums.Sum(disk) && st.account + len <= U64_MAX
    ensures SealSpec(st, n, Some(len), etag, total, window, at).account == Sums.Sum(disk[n := len])
        <==> if SealBacked(n, Some(len)) then Under(disk, n) == 0 else Under(disk, n) == len
  {
    SealAccount(st, n, Some(len), etag, total, window, at);
    SumRewritten(disk, n, len);
  }

  /** The bytes on disk under a name. */
  function Under(disk: Disk, n: Name): nat { if n in disk then disk[n] else 0 }

  lemma SumRewritten(disk: Disk, n: Name, len: nat)
    ensures Sums.Sum(disk[n := len]) + Under(disk, n) == Sums.Sum(disk) + len
  {
    Sums.SumUpdate(disk, n, len);
  }

  lemma SealAccount(st: Staged, n: Name, meta: Option<nat>, etag: Option<string>, total: nat, window: nat, at: nat)
    requires Ordered(st)
    ensures SealSpec(st, n, meta, etag, total, window, at).account
         == if SealBacked(n, meta) then SatAdd(st.account, meta.value) else st.account
  {
  }

  /** Ten bytes already sealed and counted under a name are sealed there again: ten
      are on disk and twenty are counted. */
  lemma ResealDrifts(st: Staged, n: Name)
    requires Ordered(st) && st.account == 10 && n.start + 10 == n.end
    ensures var disk := map[n := 10];
            && st.account == Sums.Sum(disk) == Sums.Sum(disk[n := 10])
            && SealSpec(st, n, Some(10), None, 0, 0, 2).account == 20
  {
    var none: Disk := map[];
    SumRewritten(none, n, 10);
    assert none[n := 10] == map[n := 10] && map[n := 10][n := 10] == map[n := 10];
    SealAccount(st, n, Some(10), None, 0, 0, 2);
  }

  /* ---------- runs ---------- */

  /** The ledger, the disk, and which files have been accounted. */
  datatype World = World(st: Staged, disk: Disk, counted: set<Name>)

  datatype Event =
    | Land(name: Name, len: nat)
    | Seal(name: Name, etag: Option<string>, total: nat, window: nat, at: nat)
    | Adopt(name: Name, files: seq<Extent>, at: nat)
    | Evict(key: string, gone: set<Name>, files: seq<Extent>, now: nat)
    | Forget(key: string, gone: set<Name>)
    | Quietly(q: Quiet)
    | Restart(scan: seq<Found>, fs: seq<Name>, at: nat)

  ghost function Freed(w: World, gone: set<Name>): nat { Sums.Sum(Sums.On(w.disk, gone)) }

  /** One step. A file lands, under a new name or over an old one, at any length; any
      name is sealed or adopted any number of times; any files at all are deleted, the
      key's own or others, and what is freed is their measured length; listings are by
      name prefix and the inventory is by names read back. */
  ghost predicate Step(w: World, ev: Event, w': World) {
    match ev
    case Land(n, len) =>
      w' == w.(disk := w.disk[n := len])
    case Seal(n, etag, total, window, at) =>
      && Ordered(w.st)
      && w' == w.(st := SealSpec(w.st, n, LengthOf(w.disk, n), etag, total, window, at),
                  counted := if SealBacked(n, LengthOf(w.disk, n)) then w.counted + {n} else w.counted)
    case Adopt(n, files, at) =>
      && Ordered(w.st) && Lists(files, w.disk, n.key)
      && w' == w.(st := AdoptSpec(w.st, n, LengthOf(w.disk, n), files, at),
                  counted := if Counts(w, n, files) then w.counted + {n} else w.counted)
    case Evict(key, gone, files, now) =>
      && Lists(files, w.disk - gone, key)
      && w' == World(ReAdoptSpec(w.st, key, Freed(w, gone), files, now), w.disk - gone, w.counted - gone)
    case Forget(key, gone) =>
      w' == World(ForgetSpec(w.st, key, Freed(w, gone)), w.disk - gone, w.counted - gone)
    case Quietly(q) =>
      w' == w.(st := QuietSpec(w.st, q))
    case Restart(scan, fs, at) =>
      && Inventory(scan, fs, w.disk)
      && w' == World(AdoptAllSpec(scan, at), w.disk, w.disk.Keys)
  }

  /** The adoption accounts the file of that name. */
  ghost predicate Counts(w: World, n: Name, files: seq<Extent>) {
    n in w.disk && AdoptClaim(n, LengthOf(w.disk, n), files).Some?
  }

  /** The length of a disk is a 64-bit number. */
  ghost predicate Fits(w: World) { Sums.Sum(w.disk) <= U64_MAX }

  ghost predicate FitsAt(ws: seq<World>, k: nat)
    requires k < |ws|
  {
    Fits(ws[k])
  }

  ghost predicate StepAt(ws: seq<World>, evs: seq<Event>, i: nat)
    requires i < |evs| && i + 1 < |ws|
  {
    Step(ws[i], evs[i], ws[i + 1])
  }

  /** A run: consecutive worlds linked by the events between them, from an empty node. */
  ghost predicate IsRun(ws: seq<World>, evs: seq<Event>) {
    && |ws| == |evs| + 1 && ws[0] == World(Staged(map[], 0), map[], {})
    && (forall i :: 0 <= i < |evs| ==> StepAt(ws, evs, i))
    && (forall k :: 0 <= k < |ws| ==> FitsAt(ws, k))
  }

  /** From any ledger state at all a restart makes the account the length of the disk. */
  lemma RestartExact(w: World, scan: seq<Found>, fs: seq<Name>, at: nat, w': World)
    requires Fits(w) && Step(w, Restart(scan, fs, at), w')
    ensures Exact(w'.st, w'.disk, w'.counted) && w'.st.account == Sums.Sum(w'.disk)
  {
    AdoptAllPart(scan, fs, w.disk, at);
    InventoryNames(scan, fs, w.disk);
    Sums.OnAll(w.disk);
  }

  lemma InventoryNames(scan: seq<Found>, fs: seq<Name>, disk: Disk)
    requires Inventory(scan, fs, disk)
    ensures SetOf(fs) == disk.Keys
  {
    forall n | n in SetOf(fs) ensures n in disk {
      var i :| 0 <= i < |fs| && fs[i] == n;
      assert ReadsAs(scan[i], fs[i], disk);
    }
  }

  /* ---------- the order of every row ---------- */

  lemma QuietOrdered(st: Staged, q: Quiet)
    requires Ordered(st)
    ensures Ordered(QuietSpec(st, q))
  {
    if q.Served? && q.key in st.rows { CreditBytes(st.rows[q.key].spans, q.start, q.end); }
    if q.DecayRow? && q.key in st.rows { DecayBytes(st.rows[q.key].spans, q.at, q.window); }
  }

  lemma RowOrdered(st: Staged, key: string, r: Record, account: nat)
    requires Ordered(st) && SortedByStart(r.spans)
    ensures Ordered(Staged(st.rows[key := r], account))
  {
  }

  lemma SealOrdered(st: Staged, n: Name, meta: Option<nat>, etag: Option<string>, total: nat, window: nat, at: nat)
    requires Ordered(st)
    ensures Ordered(SealSpec(st, n, meta, etag, total, window, at))
  {
    if SealBacked(n, meta) {
      var end, row := Measured(n.start, n.end, meta.value), Entry(st, n.key).spans;
      AddSpanBytes(row, n.start, end, at);
      DecayBytes(AddSpan(row, n.start, end, at), at, window);
      RowOrdered(st, n.key, SealedRow(Entry(st, n.key), n.start, end, etag, total, window, at),
                 SatAdd(st.account, meta.value));
    }
  }

  lemma AdoptOrdered(st: Staged, n: Name, meta: Option<nat>, files: seq<Extent>, at: nat)
    requires Ordered(st)
    ensures Ordered(AdoptSpec(st, n, meta, files, at))
  {
    var claim := AdoptClaim(n, meta, files);
    if claim.Some? { AddSpanBytes(Entry(st, n.key).spans, n.start, claim.value.0, at); }
  }

  /** Every row stays in start order, so nothing a step asks of the rows shuts a run out. */
  lemma StepOrdered(w: World, ev: Event, w': World)
    requires Ordered(w.st) && Step(w, ev, w')
    ensures Ordered(w'.st)
  {
    match ev
    case Land(_, _) =>
    case Seal(n, etag, total, window, at) => SealOrdered(w.st, n, LengthOf(w.disk, n), etag, total, window, at);
    case Adopt(n, files, at) => AdoptOrdered(w.st, n, LengthOf(w.disk, n), files, at);
    case Evict(key, gone, files, now) =>
      if key in w.st.rows { RebuildHonoredIff(w.st.rows[key].spans, files, w.disk - gone, key, now); }
    case Forget(_, _) =>
    case Quietly(q) => QuietOrdered(w.st, q);
    case Restart(_, _, _) =>
  }

  lemma OrderedNext(ws: seq<World>, evs: seq<Event>, i: nat)
    requires IsRun(ws, evs) && i < |evs| && Ordered(ws[i].st)
    ensures Ordered(ws[i + 1].st)
  {
    assert StepAt(ws, evs, i);
    StepOrdered(ws[i], evs[i], ws[i + 1]);
  }

  lemma {:induction false} RunOrdered(ws: seq<World>, evs: seq<Event>, k: nat)
    requires IsRun(ws, evs) && k < |ws|
    ensures Ordered(ws[k].st)
  {
    if k > 0 {
      RunOrdered(ws, evs, k - 1);
      OrderedNext(ws, evs, k - 1);
    }
  }

  /* ---------- a row is its key's history ---------- */

  /** What an event does to the row of a key, as operations on rows. */
  function KeyOps(w: World, ev: Event, key: string): seq<RowOp> {
    match ev
    case Seal(n, _, _, window, at) =>
      if n.key == key && SealBacked(n, LengthOf(w.disk, n))
      then [Stage(Add(n.start, Measured(n.start, n.end, w.disk[n]), at)), Expire(at, window)] else []
    case Adopt(n, files, at) =>
      var claim := AdoptClaim(n, LengthOf(w.disk, n), files);
      if n.key == key && claim.Some? then [Stage(Add(n.start, claim.value.0, at))] else []
    case Quietly(q) => QuietOps(q, key)
    case _ => []
  }

  /** Everything that was sealed, adopted, served and expired for the key since it was
      last forgotten. */
  function History(ws: seq<World>, evs: seq<Event>, k: nat, key: string): seq<RowOp>
    requires |ws| == |evs| + 1 && k <= |evs|
  {
    if k == 0 || (evs[k - 1].Forget? && evs[k - 1].key == key) then []
    else History(ws, evs, k - 1, key) + KeyOps(ws[k - 1], evs[k - 1], key)
  }

  /** The event re-derives the key's row instead of adding to it. */
  predicate Rederives(ev: Event, key: string) { ev.Restart? || (ev.Evict? && ev.key == key) }

  lemma RunSnoc(h: seq<RowOp>, op: RowOp)
    ensures Run(h + [op]) == Apply(Run(h), op)
  {
    assert (h + [op])[..|h|] == h;
  }

  lemma SealSpans(st: Staged, n: Name, meta: Option<nat>, etag: Option<string>, total: nat, window: nat, at: nat)
    requires Ordered(st) && SealBacked(n, meta)
    ensures Entry(SealSpec(st, n, meta, etag, total, window, at), n.key).spans
         == Decay(AddSpan(Entry(st, n.key).spans, n.start, Measured(n.start, n.end, meta.value), at), at, window)
  {
  }

  lemma StageExpireRun(h: seq<RowOp>, a: Add, at: nat, window: nat)
    ensures Decay(AddSpan(Run(h), a.start, a.end, a.at), at, window) == Run(h + [Stage(a), Expire(at, window)])
  {
    RunSnoc(h, Stage(a));
    ExpireRun(h + [Stage(a)], at, window);
    assert h + [Stage(a), Expire(at, window)] == (h + [Stage(a)]) + [Expire(at, window)];
  }

  lemma SealRow(st: Staged, n: Name, meta: Option<nat>, etag: Option<string>, total: nat, window: nat, at: nat,
                h: seq<RowOp>)
    requires Ordered(st) && SealBacked(n, meta) && Entry(st, n.key).spans == Run(h)
    ensures Entry(SealSpec(st, n, meta, etag, total, window, at), n.key).spans
         == Run(h + [Stage(Add(n.start, Measured(n.start, n.end, meta.value), at)), Expire(at, window)])
  {
    SealSpans(st, n, meta, etag, total, window, at);
    StageExpireRun(h, Add(n.start, Measured(n.start, n.end, meta.value), at), at, window);
  }

  lemma AdoptRow(st: Staged, n: Name, meta: Option<nat>, files: seq<Extent>, at: nat, h: seq<RowOp>)
    requires Ordered(st) && AdoptClaim(n, meta, files).Some? && Entry(st, n.key).spans == Run(h)
    ensures Entry(AdoptSpec(st, n, meta, files, at), n.key).spans
         == Run(h + [Stage(Add(n.start, AdoptClaim(n, meta, files).value.0, at))])
  {
    RunSnoc(h, Stage(Add(n.start, AdoptClaim(n, meta, files).value.0, at)));
  }

  /** A quiet operation acts on the spans of its own key only, by a credit or a decay. */
  lemma QuietSpans(st: Staged, q: Quiet, key: string)
    ensures var spans := Entry(st, key).spans;
            Entry(QuietSpec(st, q), key).spans
            == if q.key != key then spans
               else if q.Served? then Credit(spans, q.start, q.end)
               else if q.DecayRow? then Decay(spans, q.at, q.window)
               else spans
  {
  }

  lemma ServeRun(h: seq<RowOp>, start: nat, end: nat)
    ensures Credit(Run(h), start, end) == Run(h + [Serve(start, end)])
  {
    RunSnoc(h, Serve(start, end));
  }

  lemma ExpireRun(h: seq<RowOp>, at: nat, window: nat)
    ensures Decay(Run(h), at, window) == Run(h + [Expire(at, window)])
  {
    RunSnoc(h, Expire(at, window));
  }

  /** What a quiet operation is to the key's row. */
  function QuietOps(q: Quiet, key: string): seq<RowOp> {
    if q.key != key then []
    else if q.Served? then [Serve(q.start, q.end)]
    else if q.DecayRow? then [Expire(q.at, q.window)]
    else []
  }

  lemma QuietRow(st: Staged, q: Quiet, key: string, h: seq<RowOp>)
    requires Entry(st, key).spans == Run(h)
    ensures Entry(QuietSpec(st, q), key).spans == Run(h + QuietOps(q, key))
  {
    QuietSpans(st, q, key);
    if q.key == key && q.Served? { ServeRun(h, q.start, q.end); }
    else if q.key == key && q.DecayRow? { ExpireRun(h, q.at, q.window); }
    else { Seqs.EmptyConcat(h); }
  }

  lemma NoOps(w: World, ev: Event, key: string, h: seq<RowOp>)
    requires KeyOps(w, ev, key) == []
    ensures Run(h + KeyOps(w, ev, key)) == Run(h)
  {
    Seqs.EmptyConcat(h);
  }

  lemma SealNext(w: World, ev: Event, w': World, key: string, h: seq<RowOp>)
    requires Step(w, ev, w') && ev.Seal? && Entry(w.st, key).spans == Run(h)
    ensures Entry(w'.st, key).spans == Run(h + KeyOps(w, ev, key))
  {
    if ev.name.key == key && SealBacked(ev.name, LengthOf(w.disk, ev.name)) {
      SealRow(w.st, ev.name, LengthOf(w.disk, ev.name), ev.etag, ev.total, ev.window, ev.at, h);
    } else {
      NoOps(w, ev, key, h);
    }
  }

  /** An adoption that claims nothing, or for another key, leaves the key's row. */
  lemma AdoptElsewhere(st: Staged, n: Name, meta: Option<nat>, files: seq<Extent>, at: nat, key: string)
    requires Ordered(st) && (n.key == key ==> AdoptClaim(n, meta, files).None?)
    ensures Entry(AdoptSpec(st, n, meta, files, at), key) == Entry(st, key)
  {
  }

  lemma AdoptNext(w: World, ev: Event, w': World, key: string, h: seq<RowOp>)
    requires Step(w, ev, w') && ev.Adopt? && Entry(w.st, key).spans == Run(h)
    ensures Entry(w'.st, key).spans == Run(h + KeyOps(w, ev, key))
  {
    if ev.name.key == key && AdoptClaim(ev.name, LengthOf(w.disk, ev.name), ev.files).Some? {
      AdoptRow(w.st, ev.name, LengthOf(w.disk, ev.name), ev.files, ev.at, h);
    } else {
      AdoptElsewhere(w.st, ev.name, LengthOf(w.disk, ev.name), ev.files, ev.at, key);
      NoOps(w, ev, key, h);
    }
  }

  /** A landing moves no row, and a deletion or reset of one key no other's. */
  lemma OthersNext(w: World, ev: Event, w': World, key: string)
    requires Step(w, ev, w') && (ev.Land? || (ev.Evict? && ev.key != key) || ev.Forget?)
    ensures Entry(w'.st, key).spans == if ev.Forget? && ev.key == key then [] else Entry(w.st, key).spans
  {
  }

  /** One event acts on the key's row as its row operations do. */
  lemma RowNext(w: World, ev: Event, w': World, key: string, h: seq<RowOp>)
    requires Step(w, ev, w') && !Rederives(ev, key) && Entry(w.st, key).spans == Run(h)
    ensures Entry(w'.st, key).spans
         == if ev.Forget? && ev.key == key then [] else Run(h + KeyOps(w, ev, key))
  {
    if ev.Quietly? { QuietRow(w.st, ev.q, key, h); }
    else if ev.Seal? { SealNext(w, ev, w', key, h); }
    else if ev.Adopt? { AdoptNext(w, ev, w', key, h); }
    else {
      OthersNext(w, ev, w', key);
      NoOps(w, ev, key, h);
    }
  }

  ghost predicate IsHistory(ws: seq<World>, evs: seq<Event>, k: nat, key: string, h: seq<RowOp>)
    requires |ws| == |evs| + 1 && k <= |evs|
  {
    h == History(ws, evs, k, key)
  }

  /** The key's row is what its history makes of an empty one. */
  ghost predicate RowAt(ws: seq<World>, evs: seq<Event>, k: nat, key: string)
    requires |ws| == |evs| + 1 && k <= |evs|
  {
    forall h {:trigger IsHistory(ws, evs, k, key, h)} ::
      IsHistory(ws, evs, k, key, h) ==> Entry(ws[k].st, key).spans == Run(h)
  }

  lemma HistoryNext(ws: seq<World>, evs: seq<Event>, i: nat, key: string)
    requires IsRun(ws, evs) && i < |evs| && UndisturbedAt(evs, i, key) && RowAt(ws, evs, i, key)
    ensures RowAt(ws, evs, i + 1, key)
  {
    var h := History(ws, evs, i, key);
    assert StepAt(ws, evs, i) && IsHistory(ws, evs, i, key, h);
    RowNext(ws[i], evs[i], ws[i + 1], key, h);
  }

  ghost predicate UndisturbedAt(evs: seq<Event>, i: nat, key: string)
    requires i < |evs|
  {
    !Rederives(evs[i], key)
  }

  /** Nothing re-derived the key's row up to there. */
  ghost predicate Undisturbed(evs: seq<Event>, k: nat, key: string) {
    k <= |evs| && forall i :: 0 <= i < k ==> UndisturbedAt(evs, i, key)
  }

  lemma {:induction false} RowUpTo(ws: seq<World>, evs: seq<Event>, k: nat, key: string)
    requires IsRun(ws, evs) && Undisturbed(evs, k, key)
    ensures RowAt(ws, evs, k, key)
  {
    if k == 0 {
      StartsEmpty(ws, evs, key);
    } else {
      RowUpTo(ws, evs, k - 1, key);
      HistoryNext(ws, evs, k - 1, key);
    }
  }

  lemma StartsEmpty(ws: seq<World>, evs: seq<Event>, key: string)
    requires IsRun(ws, evs)
    ensures RowAt(ws, evs, 0, key)
  {
  }

  /** In every run, until its row is re-derived from files, a key's row is exactly what
      its seals, adoptions, reads and expiries make of an empty one: nothing sealed or
      adopted is left out. */
  lemma RowIsHistory(ws: seq<World>, evs: seq<Event>, k: nat, key: string)
    requires IsRun(ws, evs) && Undisturbed(evs, k, key)
    ensures Entry(ws[k].st, key).spans == Run(History(ws, evs, k, key))
  {
    RowUpTo(ws, evs, k, key);
    assert IsHistory(ws, evs, k, key, History(ws, evs, k, key));
  }

  /** So, while no window expires anything and no cold drop is forced, the row claims
      exactly the bytes sealed and adopted: both directions, over whole runs. */
  lemma RowClaimsExactly(ws: seq<World>, evs: seq<Event>, k: nat, key: string, b: nat)
    requires IsRun(ws, evs) && Undisturbed(evs, k, key) && Unreduced(History(ws, evs, k, key))
    ensures Covers(Entry(ws[k].st, key).spans, b) <==> Rows.Staged(History(ws, evs, k, key), b)
  {
    RowIsHistory(ws, evs, k, key);
    RunExact(History(ws, evs, k, key), b);
  }

  /* ---------- claims over runs ---------- */

  /** What a step needs so that every claim stays backed. A file that takes bytes away
      must not take claimed ones; the two places that go by what the listing names must
      meet no astray byte that no file of the key holds; and a restart none filed under
      a key that does not hold it. */
  ghost predicate Backed(w: World, ev: Event) {
    && Ordered(w.st)
    && match ev
       case Land(n, len) => LandingSpares(w.st, w.disk, n, len)
       case Adopt(n, files, at) =>
         n !in w.disk && AdoptClaim(n, None, files).Some? ==> UnionSpares(w.st, w.disk, n, at)
       case Evict(key, gone, files, now) =>
         && DeletionSpares(w.st, w.disk, gone, key)
         && (key in w.st.rows ==> RebuildSpares(w.st.rows[key].spans, files, w.disk - gone, key, now))
       case Forget(key, gone) => DeletionSpares(w.st, w.disk, gone, key)
       case Restart(scan, _, at) => RestartSpares(scan, w.disk, at)
       case _ => true
  }

  lemma StepHonoredIff(w: World, ev: Event, w': World)
    requires Honored(w.st, w.disk) && Step(w, ev, w')
    ensures Honored(w'.st, w'.disk) <==> Backed(w, ev)
  {
    match ev
    case Land(n, len) => LandHonoredIff(w.st, w.disk, n, len);
    case Seal(n, etag, total, window, at) => SealHonored(w.st, w.disk, n, etag, total, window, at);
    case Adopt(n, files, at) =>
      if n in w.disk { AdoptMeasuredHonored(w.st, w.disk, n, files, at); }
      else { AdoptUnionIff(w.st, w.disk, n, files, at); }
    case Evict(key, gone, files, now) =>
      ReAdoptHonoredIff(w.st, w.disk, gone, key, Freed(w, gone), files, now);
    case Forget(key, gone) => ForgetHonoredIff(w.st, w.disk, gone, key);
    case Quietly(q) => QuietHonored(w.st, w.disk, q);
    case Restart(scan, fs, at) => RestartHonoredIff(scan, fs, w.disk, at);
  }

  /** Where no key extends another by a dot and every key is plain ASCII, short files
      and files that lose bytes are all a run has to fear. */
  lemma PlainKeysBacked(w: World, ev: Event)
    requires Honored(w.st, w.disk) && (forall n :: n in w.disk ==> Alone(w.disk, n.key) && Ascii(n.key))
    ensures ev.Restart? ==> Backed(w, ev)
    ensures ev.Forget? && ev.gone == Swept(w.disk, ev.key) && Alone(w.disk, ev.key) ==> Backed(w, ev)
  {
    if ev.Restart? { AsciiRestart(ev.scan, w.disk, ev.at); }
    if ev.Forget? && ev.gone == Swept(w.disk, ev.key) && Alone(w.disk, ev.key) { AloneSpares(w.st, w.disk, ev.key); }
  }

  ghost predicate HonoredAt(ws: seq<World>, k: nat)
    requires k < |ws|
  {
    Honored(ws[k].st, ws[k].disk)
  }

  ghost predicate BackedAt(ws: seq<World>, evs: seq<Event>, i: nat)
    requires i < |ws| && i < |evs|
  {
    Backed(ws[i], evs[i])
  }

  lemma HonoredStepIff(ws: seq<World>, evs: seq<Event>, i: nat)
    requires IsRun(ws, evs) && i < |evs| && HonoredAt(ws, i)
    ensures HonoredAt(ws, i + 1) <==> BackedAt(ws, evs, i)
  {
    assert StepAt(ws, evs, i);
    StepHonoredIff(ws[i], evs[i], ws[i + 1]);
  }

  lemma {:induction false} BackedRunHonored(ws: seq<World>, evs: seq<Event>, k: nat)
    requires IsRun(ws, evs) && k < |ws| && forall i :: 0 <= i < k ==> BackedAt(ws, evs, i)
    ensures HonoredAt(ws, k)
  {
    if k > 0 {
      BackedRunHonored(ws, evs, k - 1);
      HonoredStepIff(ws, evs, k - 1);
    }
  }

  /** Over every run: no row ever claims a byte outside its key's files, if and only if
      every step was backed: none took claimed bytes away, the listing named none that
      nobody holds for the key, and no restart filed any under the wrong one. */
  lemma RunHonoredIff(ws: seq<World>, evs: seq<Event>)
    requires IsRun(ws, evs)
    ensures (forall k :: 0 <= k < |ws| ==> HonoredAt(ws, k))
        <==> (forall i :: 0 <= i < |evs| ==> BackedAt(ws, evs, i))
  {
    if forall k :: 0 <= k < |ws| ==> HonoredAt(ws, k) {
      forall i | 0 <= i < |evs| ensures BackedAt(ws, evs, i) {
        assert HonoredAt(ws, i) && HonoredAt(ws, i + 1);
        HonoredStepIff(ws, evs, i);
      }
    }
    if forall i :: 0 <= i < |evs| ==> BackedAt(ws, evs, i) {
      forall k | 0 <= k < |ws| ensures HonoredAt(ws, k) { BackedRunHonored(ws, evs, k); }
    }
  }

  /* ---------- the account over runs ---------- */

  /** What a step needs so that the account stays the length of the counted files: a
      counted file keeps its length and is not counted again, and only counted bytes
      are freed (or the account is pinned at its bound or drained). */
  ghost predicate Booked(w: World, ev: Event) {
    match ev
    case Land(n, len) => n in w.counted && n in w.disk ==> len == w.disk[n]
    case Seal(n, _, _, _, _) =>
      SealBacked(n, LengthOf(w.disk, n)) && n in w.counted ==> w.st.account == U64_MAX
    case Adopt(n, files, _) => Counts(w, n, files) && n in w.counted ==> w.st.account == U64_MAX
    case Evict(_, gone, _, _) => FreesCounted(w, gone)
    case Forget(_, gone) => FreesCounted(w, gone)
    case Quietly(_) => true
    case Restart(_, _, _) => true
  }

  ghost predicate FreesCounted(w: World, gone: set<Name>) {
    Freed(w, gone - w.counted) == 0 || w.st.account == Freed(w, gone * w.counted)
  }

  lemma LandExactIff(w: World, n: Name, len: nat)
    requires Exact(w.st, w.disk, w.counted) && Sums.Sum(w.disk[n := len]) <= U64_MAX
    ensures Exact(w.st, w.disk[n := len], w.counted) <==> (n in w.counted ==> len == w.disk[n])
  {
    if n in w.counted {
      Sums.OnWrite(w.disk, n, len, w.counted);
      Sums.SumUpdate(Sums.On(w.disk, w.counted), n, len);
    } else {
      Sums.OnUpdate(w.disk, n, len, w.counted);
    }
  }

  /** Counting a file again moves the account, unless it is already at its bound. */
  lemma CountExactIff(w: World, n: Name, st': Staged)
    requires Exact(w.st, w.disk, w.counted) && n in w.disk && w.disk[n] > 0
    requires st'.account == SatAdd(w.st.account, w.disk[n])
    ensures Exact(st', w.disk, w.counted + {n}) <==> (n in w.counted ==> w.st.account == U64_MAX)
  {
    Sums.SumSubset(w.disk, w.counted);
    if n in w.counted {
      assert w.counted + {n} == w.counted;
    } else {
      CountOne(w.st, w.disk, w.counted, n);
    }
  }

  lemma FreeExactIff(w: World, gone: set<Name>, st': Staged)
    requires Exact(w.st, w.disk, w.counted) && st'.account == SatSub(w.st.account, Freed(w, gone))
    ensures Exact(st', w.disk - gone, w.counted - gone) <==> FreesCounted(w, gone)
  {
    var inside, outside := Freed(w, gone * w.counted), Freed(w, gone - w.counted);
    FreeCounted(w.st, w.disk, w.counted, gone * w.counted);
    FreedSplits(w, gone);
    Remaining(w.disk, gone, w.counted);
    FreeingIff(w.st.account, inside, outside);
  }

  /** Freeing more than was counted clips the account off what is left, unless nothing is. */
  lemma FreeingIff(account: nat, inside: nat, outside: nat)
    requires inside <= account
    ensures SatSub(account, inside + outside) == SatSub(account, inside) <==> outside == 0 || account == inside
  {
  }

  lemma Remaining(disk: Disk, gone: set<Name>, counted: set<Name>)
    ensures Sums.Sum(disk - gone) <= Sums.Sum(disk)
    ensures Sums.On(disk - gone, counted - gone) == Sums.On(disk - gone * counted, counted - gone * counted)
  {
    Sums.SumSplit(disk, gone);
    Sums.OnGone(disk, gone, counted);
  }

  lemma FreedSplits(w: World, gone: set<Name>)
    ensures Freed(w, gone) == Freed(w, gone * w.counted) + Freed(w, gone - w.counted)
    ensures Exact(w.st, w.disk, w.counted) ==> Freed(w, gone * w.counted) <= w.st.account
  {
    Sums.SumSplit(Sums.On(w.disk, gone), w.counted);
    Sums.OnOn(w.disk, gone, w.counted);
    Sums.SumSplit(Sums.On(w.disk, w.counted), gone);
    Sums.OnOn(w.disk, w.counted, gone);
    assert w.counted * gone == gone * w.counted;
  }

  lemma SealExactIff(w: World, n: Name, etag: Option<string>, total: nat, window: nat, at: nat, w': World)
    requires Exact(w.st, w.disk, w.counted) && Step(w, Seal(n, etag, total, window, at), w')
    ensures Exact(w'.st, w'.disk, w'.counted) <==> Booked(w, Seal(n, etag, total, window, at))
  {
    SealAccount(w.st, n, LengthOf(w.disk, n), etag, total, window, at);
    if SealBacked(n, LengthOf(w.disk, n)) { CountExactIff(w, n, w'.st); }
  }

  lemma AdoptExactIff(w: World, n: Name, files: seq<Extent>, at: nat, w': World)
    requires Exact(w.st, w.disk, w.counted) && Step(w, Adopt(n, files, at), w')
    ensures Exact(w'.st, w'.disk, w'.counted) <==> Booked(w, Adopt(n, files, at))
  {
    AdoptAccount(w, n, files, at);
    if Counts(w, n, files) { CountExactIff(w, n, w'.st); }
  }

  /** Every step keeps the account the length of the counted files exactly when it
      keeps the books. */
  lemma StepExactIff(w: World, ev: Event, w': World)
    requires Exact(w.st, w.disk, w.counted) && Step(w, ev, w') && Fits(w')
    ensures Exact(w'.st, w'.disk, w'.counted) <==> Booked(w, ev)
  {
    match ev
    case Land(n, len) => LandExactIff(w, n, len);
    case Seal(n, etag, total, window, at) => SealExactIff(w, n, etag, total, window, at, w');
    case Adopt(n, files, at) => AdoptExactIff(w, n, files, at, w');
    case Evict(key, gone, files, now) => FreeExactIff(w, gone, w'.st);
    case Forget(key, gone) => FreeExactIff(w, gone, w'.st);
    case Quietly(q) => QuietAccount(w.st, q);
    case Restart(scan, fs, at) => RestartExact(w, scan, fs, at, w');
  }

  lemma QuietAccount(st: Staged, q: Quiet)
    ensures QuietSpec(st, q).account == st.account
  {
  }

  /** Only the file of that name is accounted by an adoption. */
  lemma AdoptAccount(w: World, n: Name, files: seq<Extent>, at: nat)
    requires Ordered(w.st) && Exact(w.st, w.disk, w.counted)
    ensures AdoptSpec(w.st, n, LengthOf(w.disk, n), files, at).account
         == if Counts(w, n, files) then SatAdd(w.st.account, w.disk[n]) else w.st.account
    ensures Counts(w, n, files) ==> w.disk[n] > 0
  {
    Sums.SumSubset(w.disk, w.counted);
  }

  ghost predicate ExactAt(ws: seq<World>, k: nat)
    requires k < |ws|
  {
    Exact(ws[k].st, ws[k].disk, ws[k].counted)
  }

  ghost predicate BookedAt(ws: seq<World>, evs: seq<Event>, i: nat)
    requires i < |ws| && i < |evs|
  {
    Booked(ws[i], evs[i])
  }

  lemma ExactStepIff(ws: seq<World>, evs: seq<Event>, i: nat)
    requires IsRun(ws, evs) && i < |evs| && ExactAt(ws, i)
    ensures ExactAt(ws, i + 1) <==> BookedAt(ws, evs, i)
  {
    assert StepAt(ws, evs, i) && FitsAt(ws, i + 1);
    StepExactIff(ws[i], evs[i], ws[i + 1]);
  }

  lemma {:induction false} BookedRunExact(ws: seq<World>, evs: seq<Event>, k: nat)
    requires IsRun(ws, evs) && k < |ws| && forall i :: 0 <= i < k ==> BookedAt(ws, evs, i)
    ensures ExactAt(ws, k)
  {
    if k > 0 {
      BookedRunExact(ws, evs, k - 1);
      ExactStepIff(ws, evs, k - 1);
    } else {
      Sums.OnNone<Name>(map[]);
    }
  }

  /** Over every run: the account is at every point the length of the files counted so
      far, if and only if every step kept the books; and once every file is counted it
      is then the total length on disk. */
  lemma RunExactIff(ws: seq<World>, evs: seq<Event>)
    requires IsRun(ws, evs)
    ensures (forall k :: 0 <= k < |ws| ==> ExactAt(ws, k)) <==> (forall i :: 0 <= i < |evs| ==> BookedAt(ws, evs, i))
    ensures forall k :: 0 <= k < |ws| && ExactAt(ws, k) && ws[k].counted == ws[k].disk.Keys ==>
              ws[k].st.account == Sums.Sum(ws[k].disk)
  {
    if forall k :: 0 <= k < |ws| ==> ExactAt(ws, k) {
      forall i | 0 <= i < |evs| ensures BookedAt(ws, evs, i) {
        assert ExactAt(ws, i) && ExactAt(ws, i + 1);
        ExactStepIff(ws, evs, i);
      }
    }
    if forall i :: 0 <= i < |evs| ==> BookedAt(ws, evs, i) {
      forall k | 0 <= k < |ws| ensures ExactAt(ws, k) { BookedRunExact(ws, evs, k); }
    }
    forall k | 0 <= k < |ws| && ExactAt(ws, k) && ws[k].counted == ws[k].disk.Keys
      ensures ws[k].st.account == Sums.Sum(ws[k].disk)
    {
      Sums.OnAll(ws[k].disk);
    }
  }
}
