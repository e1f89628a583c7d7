/** Per-session request and byte budgets over sliding windows that age out on contact. */
module SessionBudgets {
  import Seqs
  import opened Lex

  /** What one second of a window holds; also one recorded addition. */
  datatype Bucket = Bucket(sec: int, count: nat)

  /* ---------- windows ---------- */

  function Prune(bs: seq<Bucket>, now: int, window: int): seq<Bucket> {
    if |bs| > 0 && bs[0].sec <= now - window then Prune(bs[1..], now, window) else bs
  }

  function Total(bs: seq<Bucket>): nat { if |bs| == 0 then 0 else bs[0].count + Total(bs[1..]) }

  /** The pruned window with `amount` more in this second. */
  function Grown(kept: seq<Bucket>, now: int, amount: nat): seq<Bucket> {
    if |kept| > 0 && kept[|kept| - 1].sec == now
    then kept[|kept| - 1 := Bucket(now, kept[|kept| - 1].count + amount)]
    else kept + [Bucket(now, amount)]
  }

  function Add(bs: seq<Bucket>, now: int, window: int, amount: nat): seq<Bucket> {
    Grown(Prune(bs, now, window), now, amount)
  }

  /** The amounts recorded after second `t`. */
  function After(bs: seq<Bucket>, t: int): nat {
    if |bs| == 0 then 0 else (if bs[0].sec > t then bs[0].count else 0) + After(bs[1..], t)
  }

  class Window {
    var buckets: seq<Bucket>
    const span: int

    constructor (span: int)
      ensures buckets == [] && this.span == span
    {
      buckets := [];
      this.span := span;
    }

    method PruneAt(now: int)
      modifies this
      ensures buckets == Prune(old(buckets), now, span)
    {
      while |buckets| > 0 && buckets[0].sec <= now - span
        invariant Prune(buckets, now, span) == Prune(old(buckets), now, span)
        decreases |buckets|
      {
        buckets := buckets[1..];
      }
    }

    /** What the window currently holds, pruned while looking. */
    method Used(now: int) returns (used: nat)
      modifies this
      ensures buckets == Prune(old(buckets), now, span) && used == Total(buckets)
    {
      PruneAt(now);
      used := 0;
      for i := 0 to |buckets|
        invariant buckets == Prune(old(buckets), now, span)
        invariant used + Total(buckets[i..]) == Total(buckets)
      {
        assert buckets[i..][0] == buckets[i];
        Seqs.DropDrop(buckets, i, i + 1);
        used := used + buckets[i].count;
      }
    }

    method AddAt(now: int, amount: nat)
      modifies this
      ensures buckets == Add(old(buckets), now, span, amount)
    {
      PruneAt(now);
      if |buckets| > 0 && buckets[|buckets| - 1].sec == now {
        var last := |buckets| - 1;
        buckets := buckets[last := Bucket(now, buckets[last].count + amount)];
      } else {
        buckets := buckets + [Bucket(now, amount)];
      }
    }
  }

  /* ---------- a window stands for its history ---------- */

  ghost predicate Ascending(bs: seq<Bucket>) {
    forall i, j :: 0 <= i < j < |bs| ==> bs[i].sec < bs[j].sec
  }

  ghost predicate UpTo(bs: seq<Bucket>, now: int) { forall i :: 0 <= i < |bs| ==> bs[i].sec <= now }

  /** The buckets agree with everything ever added, as far back as any later look
      can reach. */
  ghost predicate Stands(bs: seq<Bucket>, history: seq<Bucket>, window: int, now: int) {
    && Ascending(bs) && UpTo(bs, now) && UpTo(history, now)
    && (forall t :: t >= now - window ==> After(bs, t) == After(history, t))
  }

  lemma {:induction false} AfterConcat(a: seq<Bucket>, c: seq<Bucket>, t: int)
    ensures After(a + c, t) == After(a, t) + After(c, t)
  {
    if |a| == 0 {
      Seqs.EmptyConcat(c);
    } else {
      AfterConcat(a[1..], c, t);
      Seqs.TailConcat(a, c);
    }
  }

  /** Pruning an ascending window removes exactly what has aged out. */
  lemma {:induction false} PruneKeepsAfter(bs: seq<Bucket>, now: int, window: int, t: int)
    requires t >= now - window
    ensures After(Prune(bs, now, window), t) == After(bs, t)
  {
    if |bs| > 0 && bs[0].sec <= now - window {
      PruneKeepsAfter(bs[1..], now, window, t);
    }
  }

  lemma {:induction false} PruneShape(bs: seq<Bucket>, now: int, window: int)
    requires Ascending(bs)
    ensures Ascending(Prune(bs, now, window))
    ensures forall i :: 0 <= i < |Prune(bs, now, window)| ==> Prune(bs, now, window)[i].sec > now - window
    ensures forall n :: UpTo(bs, n) ==> UpTo(Prune(bs, now, window), n)
  {
    if |bs| > 0 && bs[0].sec <= now - window {
      var rest := bs[1..];
      assert Ascending(rest) && forall n :: UpTo(bs, n) ==> UpTo(rest, n);
      PruneShape(rest, now, window);
    }
  }

  lemma {:induction false} AllAfter(bs: seq<Bucket>, t: int)
    requires forall i :: 0 <= i < |bs| ==> bs[i].sec > t
    ensures After(bs, t) == Total(bs)
  {
    if |bs| > 0 {
      assert forall i :: 0 <= i < |bs[1..]| ==> bs[1..][i] == bs[i + 1];
      AllAfter(bs[1..], t);
    }
  }

  /** With a clock that never goes back, what a window reports is the sum of the
      amounts added inside `(now - window, now]`. */
  lemma UsedIsTheTrailingSum(bs: seq<Bucket>, history: seq<Bucket>, window: int, before: int, now: int)
    requires Stands(bs, history, window, before) && before <= now
    ensures Total(Prune(bs, now, window)) == After(history, now - window)
    ensures Stands(Prune(bs, now, window), history, window, now)
  {
    var kept := Prune(bs, now, window);
    PruneShape(bs, now, window);
    assert UpTo(bs, before);
    forall t | t >= now - window ensures After(kept, t) == After(history, t) {
      PruneKeepsAfter(bs, now, window, t);
    }
    AllAfter(kept, now - window);
    assert UpTo(kept, before);
  }

  lemma AddLast(kept: seq<Bucket>, now: int, amount: nat, t: int)
    requires |kept| > 0 && kept[|kept| - 1].sec == now
    ensures After(kept[|kept| - 1 := Bucket(now, kept[|kept| - 1].count + amount)], t)
         == After(kept, t) + if now > t then amount else 0
  {
    var n := |kept| - 1;
    var front, last := kept[..n], kept[n];
    var more := Bucket(now, last.count + amount);
    assert kept == front + [last] && kept[n := more] == front + [more];
    AfterConcat(front, [last], t);
    AfterConcat(front, [more], t);
    assert [last][1..] == [] && [more][1..] == [];
  }

  /** Adding keeps the window standing for its history. */
  lemma AddStands(bs: seq<Bucket>, history: seq<Bucket>, window: int, before: int, now: int, amount: nat)
    requires Stands(bs, history, window, before) && before <= now
    ensures Stands(Add(bs, now, window, amount), history + [Bucket(now, amount)], window, now)
  {
    UsedIsTheTrailingSum(bs, history, window, before, now);
    GrownShape(Prune(bs, now, window), now, amount);
    forall t | t >= now - window
      ensures After(Add(bs, now, window, amount), t) == After(history + [Bucket(now, amount)], t)
    {
      AddCounts(Prune(bs, now, window), now, amount, t);
      AfterConcat(history, [Bucket(now, amount)], t);
      assert [Bucket(now, amount)][1..] == [];
    }
  }

  lemma GrownShape(kept: seq<Bucket>, now: int, amount: nat)
    requires Ascending(kept) && UpTo(kept, now)
    ensures Ascending(Grown(kept, now, amount)) && UpTo(Grown(kept, now, amount), now)
  {
  }

  lemma AddCounts(kept: seq<Bucket>, now: int, amount: nat, t: int)
    ensures After(Grown(kept, now, amount), t) == After(kept, t) + if now > t then amount else 0
  {
    if |kept| > 0 && kept[|kept| - 1].sec == now {
      AddLast(kept, now, amount, t);
    } else {
      AfterConcat(kept, [Bucket(now, amount)], t);
      assert [Bucket(now, amount)][1..] == [];
    }
  }

  /* ---------- sessions ---------- */

  const SESSION_TABLE_CAP: nat := 4096
  const SESSION_IDLE_SECS: int := 300

  datatype Budget = Budget(requests: seq<Bucket>, bytes: seq<Bucket>, lastSeen: int)

  datatype Verdict = Admitted | RateExceeded | BytesExceeded

  /** The request half of a budget, one second wide, then the byte half, a minute wide. */
  function AdmitEntry(e: Budget, now: int, rps: nat, bytesPerMin: nat): (Budget, Verdict) {
    var requests := Prune(e.requests, now, 1);
    if Total(requests) + 1 > rps then (Budget(requests, e.bytes, now), RateExceeded)
    else
      var bytes := Prune(e.bytes, now, 60);
      if Total(bytes) >= bytesPerMin then (Budget(requests, bytes, now), BytesExceeded)
      else (Budget(Add(requests, now, 1, 1), bytes, now), Admitted)
  }

  function ObserveEntry(e: Budget, now: int, bytes: nat): Budget {
    if bytes == 0 then e else Budget(e.requests, Add(e.bytes, now, 60, bytes), now)
  }

  const FRESH: Budget := Budget([], [], 0)

  type Sessions = map<string, Budget>

  function EntryFor(ss: Sessions, key: string): Budget { if key in ss then ss[key] else FRESH }

  /** The sessions seen recently enough to survive the age sweep. */
  function Live(ss: Sessions, now: int): Sessions {
    map k | k in ss && now - ss[k].lastSeen <= SESSION_IDLE_SECS :: ss[k]
  }

  /** The order sessions are dropped in: the longest unseen first, by key among equals. */
  predicate Earlier(ss: Sessions, d: string, k: string)
    requires d in ss && k in ss
  {
    ss[d].lastSeen < ss[k].lastSeen || (ss[d].lastSeen == ss[k].lastSeen && Less(d, k))
  }

  /** `gone` are the first of `ss` in that order. */
  ghost predicate First(ss: Sessions, gone: set<string>) {
    gone <= ss.Keys && forall d, k :: d in gone && k in ss && k !in gone ==> Earlier(ss, d, k)
  }

  /** Room for one more. Below the cap nothing changes; at the cap every idle session
      goes, and only if that is not enough exactly the first of the live ones go, as
      many as it takes to leave one place. */
  ghost predicate Roomed(before: Sessions, after: Sessions, now: int) {
    var live := Live(before, now);
    if |before| < SESSION_TABLE_CAP then after == before
    else if |live| < SESSION_TABLE_CAP then after == live
    else exists gone :: First(live, gone) && |gone| == |live| - SESSION_TABLE_CAP + 1 && after == live - gone
  }

  class SessionTables {
    var sessions: Sessions

    constructor ()
      ensures sessions == map[]
    {
      sessions := map[];
    }

    /** The first `n` sessions in drop order. */
    static method Oldest(ss: Sessions, n: nat) returns (gone: set<string>)
      requires n <= |ss|
      ensures First(ss, gone) && |gone| == n
    {
      gone := {};
      while |gone| < n
        invariant First(ss, gone) && |gone| <= n
        decreases n - |gone|
      {
        SomeLeft(ss, gone);
        var next := OldestOf(ss, ss.Keys - gone);
        NextFirst(ss, gone, next);
        gone := gone + {next};
      }
    }

    static method OldestOf(ss: Sessions, left: set<string>) returns (oldest: string)
      requires left != {} && left <= ss.Keys
      ensures Leads(ss, left, oldest)
    {
      oldest :| oldest in left;
      var seen := {oldest};
      while seen != left
        invariant seen <= left && Leads(ss, seen, oldest)
        decreases left - seen
      {
        assert left == seen + (left - seen);
        var k :| k in left - seen;
        NextLeads(ss, seen, oldest, k);
        if ss[k].lastSeen < ss[oldest].lastSeen || (ss[k].lastSeen == ss[oldest].lastSeen && Less(k, oldest)) {
          oldest := k;
        }
        seen := seen + {k};
      }
    }

    method MakeRoom(now: int)
      modifies this
      ensures Roomed(old(sessions), sessions, now)
    {
      if |sessions| >= SESSION_TABLE_CAP {
        sessions := map k | k in sessions && now - sessions[k].lastSeen <= SESSION_IDLE_SECS :: sessions[k];
        if |sessions| >= SESSION_TABLE_CAP {
          var gone := Oldest(sessions, |sessions| - SESSION_TABLE_CAP + 1);
          sessions := sessions - gone;
        }
      }
    }

    /** Count one request, or refuse it; the table never outgrows its cap. */
    method Admit(key: string, now: int, rps: nat, bytesPerMin: nat) returns (verdict: Verdict, ghost kept: Sessions)
      modifies this
      ensures Roomed(old(sessions), kept, now)
      ensures sessions == kept[key := AdmitEntry(EntryFor(kept, key), now, rps, bytesPerMin).0]
      ensures verdict == AdmitEntry(EntryFor(kept, key), now, rps, bytesPerMin).1
      ensures |sessions| <= SESSION_TABLE_CAP
    {
      MakeRoom(now);
      kept := sessions;
      var entry;
      entry, verdict := AdmitBudget(if key in sessions then sessions[key] else FRESH, now, rps, bytesPerMin);
      RoomedShape(old(sessions), sessions, now);
      OneMore(sessions, key, entry);
      sessions := sessions[key := entry];
    }

    static method AdmitBudget(e: Budget, now: int, rps: nat, bytesPerMin: nat) returns (e': Budget, verdict: Verdict)
      ensures (e', verdict) == AdmitEntry(e, now, rps, bytesPerMin)
    {
      var requests := new Window(1);
      requests.buckets := e.requests;
      var used := requests.Used(now);
      if used + 1 > rps {
        return Budget(requests.buckets, e.bytes, now), RateExceeded;
      }
      var bytes := new Window(60);
      bytes.buckets := e.bytes;
      used := bytes.Used(now);
      if used >= bytesPerMin {
        return Budget(requests.buckets, bytes.buckets, now), BytesExceeded;
      }
      requests.AddAt(now, 1);
      return Budget(requests.buckets, bytes.buckets, now), Admitted;
    }

    /** Bytes moved for a session that is still in the table. */
    method Observe(key: string, now: int, amount: nat)
      modifies this
      ensures sessions == if key in old(sessions)
                          then old(sessions)[key := ObserveEntry(old(sessions)[key], now, amount)] else old(sessions)
    {
      if amount == 0 {
        assert key in sessions ==> sessions[key := sessions[key]] == sessions;
        return;
      }
      if key in sessions {
        var bytes := new Window(60);
        bytes.buckets := sessions[key].bytes;
        bytes.AddAt(now, amount);
        sessions := sessions[key := Budget(sessions[key].requests, bytes.buckets, now)];
      }
    }
  }

  /** `oldest` is one of `seen` and comes before the rest of them. */
  ghost predicate Leads(ss: Sessions, seen: set<string>, oldest: string) {
    seen <= ss.Keys && oldest in seen && forall k :: k in seen && k != oldest ==> Earlier(ss, oldest, k)
  }

  lemma EarlierOrder(ss: Sessions, a: string, b: string, c: string)
    requires a in ss && b in ss && c in ss
    ensures a == b || Earlier(ss, a, b) || Earlier(ss, b, a)
    ensures Earlier(ss, a, b) && Earlier(ss, b, c) ==> Earlier(ss, a, c)
  {
    Trichotomy(a, b);
    if Less(a, b) && Less(b, c) { Transitive(a, b, c); }
  }

  lemma NextLeads(ss: Sessions, seen: set<string>, oldest: string, k: string)
    requires Leads(ss, seen, oldest) && k in ss && k !in seen
    ensures Leads(ss, seen + {k}, if Earlier(ss, k, oldest) then k else oldest)
  {
    forall j | j in seen ensures Earlier(ss, k, oldest) ==> Earlier(ss, k, j) { EarlierOrder(ss, k, oldest, j); }
    EarlierOrder(ss, k, oldest, k);
  }

  lemma NextFirst(ss: Sessions, gone: set<string>, next: string)
    requires First(ss, gone) && Leads(ss, ss.Keys - gone, next)
    ensures First(ss, gone + {next})
  {
  }

  lemma SomeLeft(ss: Sessions, gone: set<string>)
    requires gone <= ss.Keys && |gone| < |ss|
    ensures ss.Keys - gone != {}
  {
    assert |ss.Keys - gone| == |ss.Keys| - |gone|;
  }

  /** There is room for one more, and what stays is as it was. */
  lemma RoomedShape(before: Sessions, after: Sessions, now: int)
    requires Roomed(before, after, now)
    ensures |after| < SESSION_TABLE_CAP && forall k :: k in after ==> k in before && after[k] == before[k]
  {
    var live := Live(before, now);
    if |before| >= SESSION_TABLE_CAP && |live| >= SESSION_TABLE_CAP {
      var gone :| First(live, gone) && |gone| == |live| - SESSION_TABLE_CAP + 1 && after == live - gone;
      KeysLeft(live, gone);
    }
  }

  lemma KeysLeft(live: Sessions, gone: set<string>)
    requires gone <= live.Keys
    ensures |live - gone| == |live| - |gone|
  {
    assert (live - gone).Keys == live.Keys - gone;
  }

  lemma OneMore(ss: Sessions, key: string, e: Budget)
    ensures |ss[key := e]| <= |ss| + 1
  {
    assert ss[key := e].Keys == ss.Keys + {key};
  }

  /* ---------- what a session kept in the table gets ---------- */

  /** What really happened to a session since it entered the table: the admissions, the
      bytes moved, and when it last asked, admitted or not, or moved any. */
  datatype Log = Log(admits: seq<Bucket>, bytes: seq<Bucket>, seen: int)

  ghost predicate Tracks(e: Budget, log: Log, now: int) {
    && Stands(e.requests, log.admits, 1, now) && Stands(e.bytes, log.bytes, 60, now)
    && e.lastSeen == log.seen
  }

  /** What a request leaves in the log. */
  function Logged(log: Log, now: int, verdict: Verdict): Log {
    Log(if verdict == Admitted then log.admits + [Bucket(now, 1)] else log.admits, log.bytes, now)
  }

  /** A request is admitted exactly when fewer than `rps` were admitted this second
      and fewer than the allowed bytes moved in the trailing minute; and the budget
      goes on tracking what happened. */
  lemma AdmitIff(e: Budget, log: Log, before: int, now: int, rps: nat, bytesPerMin: nat)
    requires Tracks(e, log, before) && before <= now
    ensures var r := AdmitEntry(e, now, rps, bytesPerMin);
            && (r.1 == Admitted <==> After(log.admits, now - 1) < rps && After(log.bytes, now - 60) < bytesPerMin)
            && (r.1 == RateExceeded <==> After(log.admits, now - 1) >= rps)
            && Tracks(r.0, Logged(log, now, r.1), now)
  {
    UsedIsTheTrailingSum(e.requests, log.admits, 1, before, now);
    UsedIsTheTrailingSum(e.bytes, log.bytes, 60, before, now);
    AddStands(Prune(e.requests, now, 1), log.admits, 1, now, now, 1);
    StandsLater(e.bytes, log.bytes, 60, before, now);
  }

  lemma StandsLater(bs: seq<Bucket>, history: seq<Bucket>, window: int, before: int, now: int)
    requires Stands(bs, history, window, before) && before <= now
    ensures Stands(bs, history, window, now)
  {
  }

  /** How many admissions fell in one second. */
  function At(bs: seq<Bucket>, t: int): nat {
    if |bs| == 0 then 0 else (if bs[0].sec == t then bs[0].count else 0) + At(bs[1..], t)
  }

  lemma {:induction false} AtConcat(a: seq<Bucket>, c: seq<Bucket>, t: int)
    ensures At(a + c, t) == At(a, t) + At(c, t)
  {
    if |a| == 0 {
      Seqs.EmptyConcat(c);
    } else {
      AtConcat(a[1..], c, t);
      Seqs.TailConcat(a, c);
    }
  }

  lemma {:induction false} ThisSecond(bs: seq<Bucket>, now: int)
    requires UpTo(bs, now)
    ensures After(bs, now - 1) == At(bs, now)
  {
    if |bs| > 0 {
      assert forall i :: 0 <= i < |bs[1..]| ==> bs[1..][i] == bs[i + 1];
      ThisSecond(bs[1..], now);
    }
  }

  datatype Event = Ask(now: int) | Moved(now: int, amount: nat)

  /** One session over time: its budget, its log, the clock. */
  datatype Session = Session(e: Budget, log: Log, clock: int)

  function Next(s: Session, ev: Event, rps: nat, bytesPerMin: nat): Session {
    match ev
    case Ask(now) =>
      var r := AdmitEntry(s.e, now, rps, bytesPerMin);
      Session(r.0, Logged(s.log, now, r.1), now)
    case Moved(now, amount) =>
      Session(ObserveEntry(s.e, now, amount),
              if amount == 0 then s.log else s.log.(bytes := s.log.bytes + [Bucket(now, amount)], seen := now), now)
  }

  ghost predicate WithinRate(s: Session, rps: nat) { forall t :: At(s.log.admits, t) <= rps }

  lemma MovedTracks(s: Session, now: int, amount: nat)
    requires Tracks(s.e, s.log, s.clock) && s.clock <= now
    ensures var s' := Next(s, Moved(now, amount), 0, 0);
            Tracks(s'.e, s'.log, s'.clock) && s'.log.admits == s.log.admits && s'.clock == now
  {
    StandsLater(s.e.requests, s.log.admits, 1, s.clock, now);
    if amount == 0 {
      StandsLater(s.e.bytes, s.log.bytes, 60, s.clock, now);
    } else {
      AddStands(s.e.bytes, s.log.bytes, 60, s.clock, now, amount);
    }
  }

  lemma NextTracks(s: Session, ev: Event, rps: nat, bytesPerMin: nat)
    requires Tracks(s.e, s.log, s.clock) && s.clock <= ev.now && WithinRate(s, rps)
    ensures var s' := Next(s, ev, rps, bytesPerMin);
            Tracks(s'.e, s'.log, s'.clock) && WithinRate(s', rps) && s'.clock == ev.now
  {
    match ev
    case Ask(now) =>
      AdmitIff(s.e, s.log, s.clock, now, rps, bytesPerMin);
      var s' := Next(s, ev, rps, bytesPerMin);
      if AdmitEntry(s.e, now, rps, bytesPerMin).1 == Admitted {
        assert UpTo(s.log.admits, now);
        ThisSecond(s.log.admits, now);
        forall t ensures At(s'.log.admits, t) <= rps {
          AtConcat(s.log.admits, [Bucket(now, 1)], t);
          assert [Bucket(now, 1)][1..] == [];
        }
      }
    case Moved(now, amount) => MovedTracks(s, now, amount);
  }

  /* ---------- the whole table ---------- */

  /** The sessions, what really happened to each since it last entered the table, and
      the clock. */
  datatype Table = Table(sessions: Sessions, logs: map<string, Log>, clock: int)

  /** Each key's own limits. */
  datatype Limits = Limits(rps: string -> nat, bytesPerMin: string -> nat)

  /** A request leaves room by keeping `kept`; a transfer moves `amount` bytes. */
  datatype TableEvent = Request(key: string, now: int, kept: Sessions) | Transfer(key: string, now: int, amount: nat)

  const NOTHING: Log := Log([], [], 0)

  /** What is known of the key once room is made; a session that is not there any more
      starts again. */
  function LogFor(t: Table, kept: Sessions, key: string): Log {
    if key in kept && key in t.logs then t.logs[key] else NOTHING
  }

  /** The logs of the sessions that stay. */
  function KeptLogs(logs: map<string, Log>, kept: Sessions): map<string, Log> {
    map k | k in kept && k in logs :: logs[k]
  }

  lemma KeptKeys(logs: map<string, Log>, kept: Sessions, key: string, e: Budget, log: Log)
    requires forall k :: k in kept ==> k in logs
    ensures kept[key := e].Keys == kept.Keys + {key} == KeptLogs(logs, kept)[key := log].Keys
  {
  }

  /** One call of `Admit`, at a clock that never goes back. */
  ghost predicate RequestStep(limits: Limits, t: Table, key: string, now: int, kept: Sessions, t': Table) {
    && t.clock <= now == t'.clock && Roomed(t.sessions, kept, now)
    && var r := AdmitEntry(EntryFor(kept, key), now, limits.rps(key), limits.bytesPerMin(key));
       && t'.sessions == kept[key := r.0]
       && t'.logs == KeptLogs(t.logs, kept)[key := Logged(LogFor(t, kept, key), now, r.1)]
  }

  /** One call of `Observe`. */
  ghost predicate TransferStep(t: Table, key: string, now: int, amount: nat, t': Table) {
    && t.clock <= now == t'.clock
    && if key in t.sessions && key in t.logs then
         var s := Next(Session(t.sessions[key], t.logs[key], t.clock), Moved(now, amount), 0, 0);
         t'.sessions == t.sessions[key := s.e] && t'.logs == t.logs[key := s.log]
       else t'.sessions == t.sessions && t'.logs == t.logs
  }

  ghost predicate TableStep(limits: Limits, t: Table, ev: TableEvent, t': Table) {
    match ev
    case Request(key, now, kept) => RequestStep(limits, t, key, now, kept, t')
    case Transfer(key, now, amount) => TransferStep(t, key, now, amount, t')
  }

  /** The budget of one session agrees with what happened to it, and the rate held. */
  ghost predicate Good(limits: Limits, t: Table, key: string)
    requires key in t.sessions && key in t.logs
  {
    Tracks(t.sessions[key], t.logs[key], t.clock) && forall sec :: At(t.logs[key].admits, sec) <= limits.rps(key)
  }

  ghost predicate TableInv(limits: Limits, t: Table) {
    && t.sessions.Keys == t.logs.Keys && |t.sessions| <= SESSION_TABLE_CAP
    && forall k :: k in t.sessions ==> Good(limits, t, k)
  }

  /** Time alone takes nothing from a session that is let be. */
  lemma Untouched(limits: Limits, t: Table, t': Table, key: string)
    requires key in t.sessions && key in t.logs && Good(limits, t, key) && t.clock <= t'.clock
    requires key in t'.sessions && t'.sessions[key] == t.sessions[key]
    requires key in t'.logs && t'.logs[key] == t.logs[key]
    ensures Good(limits, t', key)
  {
    StandsLater(t.sessions[key].requests, t.logs[key].admits, 1, t.clock, t'.clock);
    StandsLater(t.sessions[key].bytes, t.logs[key].bytes, 60, t.clock, t'.clock);
  }

  /** What an admission finds: a fresh budget, or one that tracks its session. */
  lemma FoundTracks(limits: Limits, t: Table, kept: Sessions, now: int, key: string)
    requires TableInv(limits, t) && Roomed(t.sessions, kept, now)
    ensures Tracks(EntryFor(kept, key), LogFor(t, kept, key), t.clock)
    ensures forall sec :: At(LogFor(t, kept, key).admits, sec) <= limits.rps(key)
  {
    RoomedShape(t.sessions, kept, now);
    if key in kept { assert Good(limits, t, key); }
  }

  lemma RequestGood(limits: Limits, t: Table, key: string, now: int, kept: Sessions, t': Table)
    requires TableInv(limits, t) && RequestStep(limits, t, key, now, kept, t')
    ensures key in t'.sessions && key in t'.logs && Good(limits, t', key)
  {
    FoundTracks(limits, t, kept, now, key);
    NextTracks(Session(EntryFor(kept, key), LogFor(t, kept, key), t.clock), Ask(now),
               limits.rps(key), limits.bytesPerMin(key));
  }

  lemma OthersGood(limits: Limits, t: Table, key: string, now: int, kept: Sessions, t': Table, k: string)
    requires TableInv(limits, t) && RequestStep(limits, t, key, now, kept, t') && k in kept && k != key
    ensures k in t'.sessions && k in t'.logs && Good(limits, t', k)
  {
    RoomedShape(t.sessions, kept, now);
    Untouched(limits, t, t', k);
  }

  lemma RequestShape(limits: Limits, t: Table, key: string, now: int, kept: Sessions, t': Table)
    requires TableInv(limits, t) && RequestStep(limits, t, key, now, kept, t')
    ensures t'.sessions.Keys == kept.Keys + {key} == t'.logs.Keys && |t'.sessions| <= SESSION_TABLE_CAP
  {
    RoomedShape(t.sessions, kept, now);
    var r := AdmitEntry(EntryFor(kept, key), now, limits.rps(key), limits.bytesPerMin(key));
    KeptKeys(t.logs, kept, key, r.0, Logged(LogFor(t, kept, key), now, r.1));
    OneMore(kept, key, r.0);
  }

  lemma RequestKeeps(limits: Limits, t: Table, key: string, now: int, kept: Sessions, t': Table)
    requires TableInv(limits, t) && RequestStep(limits, t, key, now, kept, t')
    ensures TableInv(limits, t')
  {
    RequestShape(limits, t, key, now, kept, t');
    forall k | k in t'.sessions ensures k in t'.logs && Good(limits, t', k) {
      if k == key { RequestGood(limits, t, key, now, kept, t'); } else { OthersGood(limits, t, key, now, kept, t', k); }
    }
  }

  lemma TransferGood(limits: Limits, t: Table, key: string, now: int, amount: nat, t': Table)
    requires TableInv(limits, t) && TransferStep(t, key, now, amount, t') && key in t.sessions
    ensures t'.sessions.Keys == t.sessions.Keys && t'.logs.Keys == t.logs.Keys && Good(limits, t', key)
  {
    assert Good(limits, t, key);
    MovedTracks(Session(t.sessions[key], t.logs[key], t.clock), now, amount);
  }

  lemma TransferKeeps(limits: Limits, t: Table, key: string, now: int, amount: nat, t': Table)
    requires TableInv(limits, t) && TransferStep(t, key, now, amount, t')
    ensures TableInv(limits, t')
  {
    if key in t.sessions { TransferGood(limits, t, key, now, amount, t'); }
    assert |t'.sessions.Keys| == |t.sessions.Keys|;
    forall k | k in t'.sessions ensures k in t'.logs && Good(limits, t', k) {
      if k != key { Untouched(limits, t, t', k); }
    }
  }

  /** A run of the table, from empty. */
  ghost predicate TableRun(limits: Limits, ts: seq<Table>, evs: seq<TableEvent>) {
    && |ts| == |evs| + 1 && ts[0].sessions == map[] && ts[0].logs == map[]
    && (forall i :: 0 <= i < |evs| ==> StepAt(limits, ts, evs, i))
  }

  ghost predicate StepAt(limits: Limits, ts: seq<Table>, evs: seq<TableEvent>, i: nat)
    requires i < |evs| && i + 1 < |ts|
  {
    TableStep(limits, ts[i], evs[i], ts[i + 1])
  }

  lemma {:induction false} TableKeeps(limits: Limits, ts: seq<Table>, evs: seq<TableEvent>, k: nat)
    requires TableRun(limits, ts, evs) && k < |ts|
    ensures TableInv(limits, ts[k])
  {
    if k > 0 {
      TableKeeps(limits, ts, evs, k - 1);
      assert StepAt(limits, ts, evs, k - 1);
      match evs[k - 1]
      case Request(key, now, kept) => RequestKeeps(limits, ts[k - 1], key, now, kept, ts[k]);
      case Transfer(key, now, amount) => TransferKeeps(limits, ts[k - 1], key, now, amount, ts[k]);
    }
  }

  /** Over every run of the whole table, with any number of other sessions coming,
      going and being dropped in between: the table stays within its cap, and since it
      last entered the table no session was admitted more than its `rps` times in any
      one second, and what decides who is dropped is when it last asked or moved bytes. */
  lemma SessionWithinRate(limits: Limits, ts: seq<Table>, evs: seq<TableEvent>, k: nat, key: string)
    requires TableRun(limits, ts, evs) && k < |ts| && key in ts[k].sessions
    ensures |ts[k].sessions| <= SESSION_TABLE_CAP && key in ts[k].logs
    ensures forall sec :: At(ts[k].logs[key].admits, sec) <= limits.rps(key)
    ensures ts[k].sessions[key].lastSeen == ts[k].logs[key].seen
  {
    TableKeeps(limits, ts, evs, k);
    assert Good(limits, ts[k], key);
  }

  /** Every request of every run is admitted exactly when its session, since it last
      entered the table, was admitted fewer than `rps` times this second and moved
      fewer bytes than allowed in the trailing minute. */
  lemma EveryAdmissionIff(limits: Limits, ts: seq<Table>, evs: seq<TableEvent>, k: nat)
    requires TableRun(limits, ts, evs) && k < |evs| && evs[k].Request?
    ensures var key, now, log := evs[k].key, evs[k].now, LogFor(ts[k], evs[k].kept, evs[k].key);
            var r := AdmitEntry(EntryFor(evs[k].kept, key), now, limits.rps(key), limits.bytesPerMin(key));
            && key in ts[k + 1].sessions && ts[k + 1].sessions[key] == r.0
            && (r.1 == Admitted
                <==> At(log.admits, now) < limits.rps(key) && After(log.bytes, now - 60) < limits.bytesPerMin(key))
  {
    TableKeeps(limits, ts, evs, k);
    assert StepAt(limits, ts, evs, k);
    AdmissionIff(limits, ts[k], evs[k].kept, evs[k].now, evs[k].key);
  }

  lemma AdmissionIff(limits: Limits, t: Table, kept: Sessions, now: int, key: string)
    requires TableInv(limits, t) && Roomed(t.sessions, kept, now) && t.clock <= now
    ensures var log := LogFor(t, kept, key);
            AdmitEntry(EntryFor(kept, key), now, limits.rps(key), limits.bytesPerMin(key)).1 == Admitted
            <==> At(log.admits, now) < limits.rps(key) && After(log.bytes, now - 60) < limits.bytesPerMin(key)
  {
    FoundTracks(limits, t, kept, now, key);
    AdmitIff(EntryFor(kept, key), LogFor(t, kept, key), t.clock, now, limits.rps(key), limits.bytesPerMin(key));
    ThisSecond(LogFor(t, kept, key).admits, now);
  }

  /* ---------- the budget key ---------- */

  const SESSION_MAX_LEN: nat := 128
  const SEPARATOR: char := '\U{1}'

  predicate ValidSession(s: string) {
    0 < |s| <= SESSION_MAX_LEN && forall i :: 0 <= i < |s| ==> ' ' <= s[i] <= '~' && s[i] != '\''
  }

  function BudgetKey(credential: string, session: string): string { credential + [SEPARATOR] + session }

  /** Distinct (credential, session) pairs never share a budget, whatever bytes the
      credential contains. */
  lemma BudgetKeysApart(c: string, s: string, d: string, t: string)
    requires ValidSession(s) && ValidSession(t) && BudgetKey(c, s) == BudgetKey(d, t)
    ensures c == d && s == t
  {
    CutNoLater(c, s, d, t);
    CutNoLater(d, t, c, s);
    var a := BudgetKey(c, s);
    assert c == a[..|c|] && d == a[..|d|] && s == a[|c| + 1..] && t == a[|d| + 1..];
  }

  /** The separator of one reading cannot fall inside the other's session. */
  lemma CutNoLater(c: string, s: string, d: string, t: string)
    requires ValidSession(s) && BudgetKey(c, s) == BudgetKey(d, t)
    ensures |d| <= |c|
  {
    var a := BudgetKey(c, s);
    assert BudgetKey(d, t)[|d|] == SEPARATOR;
    assert forall i :: |c| < i < |a| ==> a[i] == s[i - |c| - 1];
  }
}
