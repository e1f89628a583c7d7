/** Read leases: a key being streamed to a viewer, or streamed a moment ago, is not
    evicted. The bookkeeping is pruned as it is read; nobody can tell. */
module Leases {
  import opened Saturating
  import Magazine
  import MagazineState

  /** How many bodies hold the key, and when the last one let go. */
  datatype Entry = Entry(active: nat, lastEnd: nat)

  type LeaseMap = map<string, Entry>

  predicate Protects(e: Entry, now: nat, grace: nat) {
    e.active > 0 || (e.lastEnd > 0 && SatSub(now, e.lastEnd) < grace)
  }

  function Acquired(m: LeaseMap, key: string): LeaseMap {
    m[key := if key in m then m[key].(active := m[key].active + 1) else Entry(1, 0)]
  }

  function Released(m: LeaseMap, key: string, now: nat): LeaseMap {
    if key in m then
      var left := SatSub(m[key].active, 1);
      m[key := Entry(left, if left == 0 then now else m[key].lastEnd)]
    else m
  }

  function Pruned(m: LeaseMap, now: nat, grace: nat): LeaseMap {
    map k | k in m && (Protects(m[k], now, grace) || m[k].active > 0) :: m[k]
  }

  function ProtectedKeys(m: LeaseMap, now: nat, grace: nat): set<string> {
    set k | k in m && Protects(m[k], now, grace)
  }

  class LeaseTable {
    var entries: LeaseMap
    const grace: nat

    constructor (grace: nat)
      ensures entries == map[] && this.grace == grace
    {
      entries := map[];
      this.grace := grace;
    }

    method Acquire(key: string)
      modifies this
      ensures entries == Acquired(old(entries), key)
    {
      var e := if key in entries then entries[key] else Entry(0, 0);
      entries := entries[key := e.(active := e.active + 1)];
    }

    /** A guard is dropped: its body ended or its viewer went away. */
    method Release(key: string, now: nat)
      modifies this
      ensures entries == Released(old(entries), key, now)
    {
      if key in entries {
        var e := entries[key];
        e := e.(active := SatSub(e.active, 1));
        if e.active == 0 { e := e.(lastEnd := now); }
        entries := entries[key := e];
      }
    }

    /** The keys eviction must leave alone; expired bookkeeping is pruned here. */
    method Protected(now: nat) returns (keys: set<string>)
      modifies this
      ensures entries == Pruned(old(entries), now, grace)
      ensures keys == ProtectedKeys(old(entries), now, grace)
    {
      entries := map k | k in entries && (Protects(entries[k], now, grace) || entries[k].active > 0) :: entries[k];
      keys := set k | k in entries && Protects(entries[k], now, grace);
    }

    method IsProtected(key: string, now: nat) returns (b: bool)
      ensures b <==> key in ProtectedKeys(entries, now, grace)
    {
      b := key in entries && Protects(entries[key], now, grace);
    }
  }

  /* ---------- the simple form: guards and end times, never pruned ---------- */

  /** The guards alive, and when each key was last let go by its last guard. */
  datatype History = History(live: multiset<string>, ended: map<string, nat>)

  /** The rule: a live guard, or a last end less than the grace ago. */
  ghost predicate Holds(h: History, key: string, now: nat, grace: nat) {
    h.live[key] > 0 || (key in h.ended && SatSub(now, h.ended[key]) < grace)
  }

  /** The rule's one hole: a key let go when the clock read zero, still inside its grace. */
  ghost predicate EndedAtZero(h: History, key: string, now: nat, grace: nat) {
    h.live[key] == 0 && key in h.ended && h.ended[key] == 0 && now < grace
  }

  datatype Event = Acquire(key: string) | Release(key: string, now: nat) | Sweep(now: nat)

  datatype System = System(table: LeaseMap, h: History, clock: nat)

  /** One step, at a clock that never goes back. A release drops a guard that is alive. */
  ghost predicate Step(grace: nat, s: System, ev: Event, s': System) {
    match ev
    case Acquire(key) =>
      s' == System(Acquired(s.table, key), s.h.(live := s.h.live + multiset{key}), s.clock)
    case Release(key, now) =>
      && s.h.live[key] > 0 && s.clock <= now
      && var live := s.h.live - multiset{key};
         s' == System(Released(s.table, key, now),
                      History(live, if live[key] == 0 then s.h.ended[key := now] else s.h.ended), now)
    case Sweep(now) =>
      s.clock <= now && s' == System(Pruned(s.table, now, grace), s.h, now)
  }

  /** How the pruned table stands for the unpruned history. */
  ghost predicate Stands(grace: nat, s: System, key: string) {
    && (s.h.live[key] > 0 ==> key in s.table && s.table[key].active == s.h.live[key])
    && (s.h.live[key] == 0 && key in s.table ==>
          s.table[key].active == 0 && key in s.h.ended && s.table[key].lastEnd == s.h.ended[key])
    && (s.h.live[key] == 0 && key !in s.table && key in s.h.ended ==>
          s.h.ended[key] == 0 || s.h.ended[key] + grace <= s.clock)
    && (key in s.h.ended ==> s.h.ended[key] <= s.clock)
  }

  ghost predicate Inv(grace: nat, s: System) { forall key :: Stands(grace, s, key) }

  lemma StepKeeps(grace: nat, s: System, ev: Event, s': System)
    requires Inv(grace, s) && Step(grace, s, ev, s')
    ensures Inv(grace, s')
  {
    forall key ensures Stands(grace, s', key) {
      assert Stands(grace, s, key);
      if ev.Release? { assert Stands(grace, s, ev.key); }
    }
  }

  ghost predicate StepAt(grace: nat, ss: seq<System>, evs: seq<Event>, i: nat)
    requires i < |evs| && i + 1 < |ss|
  {
    Step(grace, ss[i], evs[i], ss[i + 1])
  }

  ghost predicate IsRun(grace: nat, ss: seq<System>, evs: seq<Event>) {
    && |ss| == |evs| + 1 && ss[0] == System(map[], History(multiset{}, map[]), 0)
    && (forall i :: 0 <= i < |evs| ==> StepAt(grace, ss, evs, i))
  }

  lemma {:induction false} RunKeeps(grace: nat, ss: seq<System>, evs: seq<Event>, k: nat)
    requires IsRun(grace, ss, evs) && k < |ss|
    ensures Inv(grace, ss[k])
  {
    if k > 0 {
      RunKeeps(grace, ss, evs, k - 1);
      assert StepAt(grace, ss, evs, k - 1);
      StepKeeps(grace, ss[k - 1], evs[k - 1], ss[k]);
    }
  }

  /** In every run, at every later moment: a key's count is its live guards, and the
      protected keys are exactly those with a live guard or let go at a positive clock
      less than the grace ago. That pruning happened in between cannot be told. */
  lemma ProtectedExactly(grace: nat, ss: seq<System>, evs: seq<Event>, k: nat, now: nat)
    requires IsRun(grace, ss, evs) && k < |ss| && ss[k].clock <= now
    ensures forall key :: key in ProtectedKeys(ss[k].table, now, grace)
              <==> Holds(ss[k].h, key, now, grace) && !EndedAtZero(ss[k].h, key, now, grace)
    ensures forall key :: key in ss[k].table ==> ss[k].table[key].active == ss[k].h.live[key]
  {
    RunKeeps(grace, ss, evs, k);
    forall key
      ensures key in ProtectedKeys(ss[k].table, now, grace)
          <==> Holds(ss[k].h, key, now, grace) && !EndedAtZero(ss[k].h, key, now, grace)
      ensures key in ss[k].table ==> ss[k].table[key].active == ss[k].h.live[key]
    {
      assert Stands(grace, ss[k], key);
    }
  }

  /** The table answers by the rule for a key exactly when the key was not let go at
      clock zero with its grace still running. */
  lemma RuleHoldsIff(grace: nat, ss: seq<System>, evs: seq<Event>, k: nat, now: nat, key: string)
    requires IsRun(grace, ss, evs) && k < |ss| && ss[k].clock <= now
    ensures (key in ProtectedKeys(ss[k].table, now, grace) <==> Holds(ss[k].h, key, now, grace))
        <==> !EndedAtZero(ss[k].h, key, now, grace)
  {
    ProtectedExactly(grace, ss, evs, k, now);
  }

  /** A dropped guard always finds its entry, with something to count down. */
  lemma ReleaseFindsItsEntry(grace: nat, ss: seq<System>, evs: seq<Event>, k: nat, key: string)
    requires IsRun(grace, ss, evs) && k < |ss| && ss[k].h.live[key] > 0
    ensures key in ss[k].table && ss[k].table[key].active > 0
  {
    RunKeeps(grace, ss, evs, k);
    assert Stands(grace, ss[k], key);
  }

  /** A body that ends at clock zero leaves no grace, at any later time. */
  lemma ZeroClockLosesGrace(key: string, now: nat, grace: nat)
    ensures var m := Released(Acquired(map[], key), key, 0);
            key !in ProtectedKeys(m, now, grace)
  {
  }

  /** A key held by a live guard or inside its grace survives a budget sweep that
      asked for the protected keys, and falls to the reaper only as a tombstone. */
  lemma LeasedKeySurvives(grace: nat, ss: seq<System>, evs: seq<Event>, k: nat, now: nat, key: string,
                          watched: set<string>, es: Magazine.Entries, cfg: Magazine.Config,
                          order: seq<string>, n: nat, ttlMs: nat)
    requires IsRun(grace, ss, evs) && k < |ss| && ss[k].clock <= now
    requires Holds(ss[k].h, key, now, grace) && !EndedAtZero(ss[k].h, key, now, grace)
    requires Magazine.LruOrder(order, es, cfg, ProtectedKeys(ss[k].table, now, grace) + watched) && n <= |order|
    ensures key !in order[..n]
    ensures MagazineState.Reapable(es, key, ttlMs, now, ProtectedKeys(ss[k].table, now, grace) + watched)
        ==> es[key].negativeUntil.Some?
  {
    ProtectedExactly(grace, ss, evs, k, now);
    if key in order[..n] {
      MagazineState.SweepSpares(order, es, cfg, ProtectedKeys(ss[k].table, now, grace) + watched, n, key);
    }
  }
}
