/** The magazine's state as the program keeps it, each sweep one call under the
    guard, and what every serial run of them does to the byte account. */
module MagazineState {
  import opened Options
  import opened Saturating
  import opened Magazine
  import Sums
  import Seqs
  import Sorting

  /* ---------- installs ---------- */

  function SizeOf(es: Entries, key: string): nat { if key in es then es[key].size else 0 }

  /** The second half of an install: it gives up the size its first half read. */
  function WriteSpec(st: Mag, key: string, e: Entry, was: nat): Mag {
    Mag(st.entries[key := e], SatSub(st.total, was) + e.size)
  }

  /** Both halves with nothing in between. */
  function InstallSpec(st: Mag, key: string, e: Entry): Mag { WriteSpec(st, key, e, SizeOf(st.entries, key)) }

  function Tombstone(now: nat, until: nat): Entry { Entry(0, now, now, Some(until), false) }

  /** A tombstone takes the row's place but leaves the total alone. */
  function NegativeSpec(st: Mag, key: string, now: nat, until: nat): Mag {
    st.(entries := st.entries[key := Tombstone(now, until)])
  }

  function RebuildRow(st: Mag, key: string, e: Entry): Mag {
    Mag(st.entries[key := e], st.total + e.size)
  }

  /* ---------- which rows a reap takes ---------- */

  predicate Expired(e: Entry, ttlMs: nat, now: nat) {
    match e.negativeUntil
    case Some(until) => now >= until
    case None => SatSub(now, e.lastAccess) >= ttlMs
  }

  predicate Reapable(es: Entries, k: string, ttlMs: nat, now: nat, spared: set<string>) {
    k in es && Expired(es[k], ttlMs, now) && (es[k].negativeUntil.Some? || k !in spared)
  }

  ghost predicate Exactly(ks: seq<string>, s: set<string>) {
    && (forall k :: k in ks <==> k in s)
    && (forall i, j :: 0 <= i < j < |ks| ==> ks[i] != ks[j])
  }

  /** Removing distinct rows one by one removes exactly those rows. */
  lemma {:induction false} RemoveRowsEntries(st: Mag, ks: seq<string>)
    ensures RemoveRows(st, ks).entries == st.entries - (set k | k in ks)
    decreases |ks|
  {
    if |ks| > 0 {
      RemoveRowsEntries(RemoveRow(st, ks[0]), ks[1..]);
      assert (set k | k in ks) == {ks[0]} + (set k | k in ks[1..]) by { Seqs.ConsTail(ks); }
      RemoveInTurn(st.entries, ks[0], set k | k in ks[1..]);
      if ks[0] !in st.entries { assert st.entries - {ks[0]} == st.entries; }
    }
  }

  lemma RemoveInTurn(es: Entries, k: string, s: set<string>)
    ensures (es - {k}) - s == es - ({k} + s)
  {
  }

  /* ---------- the taking loop ---------- */

  ghost predicate Distinct(order: seq<string>) { forall i, j :: 0 <= i < j < |order| ==> order[i] != order[j] }

  /** The rows not yet taken are as they were. */
  ghost predicate Waiting(order: seq<string>, i: nat, before: Entries, now: Entries) {
    && Distinct(order)
    && (forall k :: i <= k < |order| ==> order[k] in before && order[k] in now && now[order[k]] == before[order[k]])
  }

  /** `i` rows taken and `freed` bytes on the way to the cut. */
  ghost predicate Cutting(order: seq<string>, es: Entries, i: nat, freed: nat, bytes: nat, count: nat) {
    && i <= |order|
    && i + Cut(order[i..], es, SatSub(bytes, freed), SatSub(count, i)) == Cut(order, es, bytes, count)
  }

  lemma TakeStarts(st: Mag, order: seq<string>, bytes: nat, count: nat)
    ensures order[..0] == [] && Cutting(order, st.entries, 0, 0, bytes, count)
  {
    assert order[0..] == order;
  }

  /** Taking the next row leaves the later ones waiting. */
  lemma TakeTurn(st: Mag, order: seq<string>, i: nat, now: Entries)
    requires i < |order| && Waiting(order, i, st.entries, now)
    ensures RemoveRows(st, order[..i + 1]) == RemoveRow(RemoveRows(st, order[..i]), order[i])
    ensures order[..i + 1] == order[..i] + [order[i]]
    ensures Waiting(order, i + 1, st.entries, now - {order[i]})
  {
    RemoveLaterRows(st, order, i);
  }

  lemma CutTurn(order: seq<string>, es: Entries, i: nat, freed: nat, bytes: nat, count: nat)
    requires Cutting(order, es, i, freed, bytes, count) && i < |order| && order[i] in es
    requires !(freed >= bytes && i >= count)
    ensures Cutting(order, es, i + 1, freed + es[order[i]].size, bytes, count)
  {
    assert order[i..][0] == order[i];
    Seqs.DropDrop(order, i, i + 1);
  }

  lemma CutStops(order: seq<string>, es: Entries, i: nat, freed: nat, bytes: nat, count: nat)
    requires Cutting(order, es, i, freed, bytes, count) && (i == |order| || (freed >= bytes && i >= count))
    ensures Cut(order, es, bytes, count) == i
  {
  }

  /* ---------- the state ---------- */

  class CacheState {
    var entries: Entries
    var totalBytes: nat

    ghost function State(): Mag
      reads this
    {
      Mag(entries, totalBytes)
    }

    constructor ()
      ensures State() == Mag(map[], 0)
    {
      entries, totalBytes := map[], 0;
    }

    /** The bytes of resident strays, by a walk over the rows. */
    method StraysHeld() returns (bytes: nat)
      ensures bytes == StrayBytes(entries)
    {
      var left: Entries := entries;
      bytes := 0;
      while left.Keys != {}
        invariant bytes + StrayBytes(left) == StrayBytes(entries)
        decreases left.Keys
      {
        var k :| k in left.Keys;
        RemoveBytes(left, k);
        if left[k].oversize { bytes := bytes + left[k].size; }
        left := left - {k};
      }
      assert StraySizes(left) == map[];
    }

    /** The keys of a set, in an arbitrary order. */
    static method Enumerate(s: set<string>) returns (ks: seq<string>)
      ensures Exactly(ks, s)
    {
      ks := [];
      var left := s;
      while left != {}
        invariant forall k :: k in ks <==> k in s && k !in left
        invariant left <= s
        invariant forall i, j :: 0 <= i < j < |ks| ==> ks[i] != ks[j]
        decreases left
      {
        var k :| k in left;
        assert k !in ks;
        ks, left := ks + [k], left - {k};
      }
    }

    /** Keys sorted by eligibility, ties in no particular order. */
    static method ByEligibility(es: Entries, s: set<string>, ttlSecs: nat) returns (ks: seq<string>)
      ensures Exactly(ks, s)
      ensures forall i, j :: 0 <= i < j < |ks| ==> EligibleAt(es, ks[i], ttlSecs) <= EligibleAt(es, ks[j], ttlSecs)
    {
      var any := Enumerate(s);
      var le := (a: string, b: string) => EligibleAt(es, a, ttlSecs) <= EligibleAt(es, b, ttlSecs);
      ks := Sorting.Sort(any, le);
      Sorting.SortSorts(any, le);
      SortedExactly(any, ks, s);
      forall i, j | 0 <= i < j < |ks| ensures EligibleAt(es, ks[i], ttlSecs) <= EligibleAt(es, ks[j], ttlSecs) {
        assert le(ks[i], ks[j]);
      }
    }

    /** One row leaves, and its bytes with it. */
    method TakeRow(key: string)
      modifies this
      ensures State() == RemoveRow(old(State()), key)
    {
      if key in entries {
        totalBytes := SatSub(totalBytes, entries[key].size);
        entries := entries - {key};
      }
    }

    /** Take rows off the front of the order until both shortfalls are met. */
    method TakeWhileOver(order: seq<string>, bytesOver: nat, entriesOver: nat) returns (out: seq<string>)
      requires Distinct(order) && forall i :: 0 <= i < |order| ==> order[i] in entries
      modifies this
      ensures out == order[..Cut(order, old(entries), bytesOver, entriesOver)]
      ensures State() == RemoveRows(old(State()), out)
    {
      ghost var st := State();
      out := [];
      var freed: nat := 0;
      var i := 0;
      TakeStarts(st, order, bytesOver, entriesOver);
      while i < |order| && !(freed >= bytesOver && i >= entriesOver)
        invariant 0 <= i <= |order| && out == order[..i]
        invariant State() == RemoveRows(st, order[..i]) && Waiting(order, i, st.entries, entries)
        invariant Cutting(order, st.entries, i, freed, bytesOver, entriesOver)
      {
        var key := order[i];
        TakeTurn(st, order, i, entries);
        CutTurn(order, st.entries, i, freed, bytesOver, entriesOver);
        freed := freed + entries[key].size;
        TakeRow(key);
        out := out + [key];
        i := i + 1;
      }
      CutStops(order, st.entries, i, freed, bytesOver, entriesOver);
    }

    /** The budget sweep. `order` is the order the candidates were sorted into. */
    method EvictPick(cfg: Config, spared: set<string>) returns (out: seq<string>, ghost order: seq<string>)
      modifies this
      ensures LruOrder(order, old(entries), cfg, spared)
      ensures out == order[..Cut(order, old(entries), BytesOver(cfg, old(State())), EntriesOver(cfg, old(State())))]
      ensures State() == RemoveRows(old(State()), out)
    {
      var strays := StraysHeld();
      var resident := SatSub(totalBytes, strays);
      var candidates := set k | k in entries && entries[k].negativeUntil.None? && !entries[k].oversize && k !in spared;
      var sorted := ByEligibility(entries, candidates, cfg.inactiveTtlSecs);
      order := sorted;
      forall i | 0 <= i < |sorted| ensures sorted[i] in entries {
        assert sorted[i] in candidates;
      }
      var bytesOver := SatSub(resident, cfg.maxSize);
      var entriesOver := if cfg.maxEntries > 0 then SatSub(|entries|, cfg.maxEntries) else 0;
      out := TakeWhileOver(sorted, bytesOver, entriesOver);
    }

    /** Disk pressure: strays only, oldest first, until `need` bytes are freed. */
    method PickStraysForPressure(cfg: Config, need: nat) returns (out: seq<string>, ghost order: seq<string>)
      modifies this
      ensures Exactly(order, Stray(old(entries)))
      ensures forall i, j :: 0 <= i < j < |order| ==>
                EligibleAt(old(entries), order[i], cfg.inactiveTtlSecs)
                <= EligibleAt(old(entries), order[j], cfg.inactiveTtlSecs)
      ensures out == order[..Cut(order, old(entries), need, 0)]
      ensures State() == RemoveRows(old(State()), out)
    {
      var strays := set k | k in entries && entries[k].oversize;
      var sorted := ByEligibility(entries, strays, cfg.inactiveTtlSecs);
      order := sorted;
      forall i | 0 <= i < |sorted| ensures sorted[i] in entries {
        assert sorted[i] in strays;
      }
      out := TakeWhileOver(sorted, need, 0);
    }

    /** The inactivity reap takes every expired row that is not spared, and expired
        tombstones whether spared or not. */
    method ReapCollect(ttlMs: nat, now: nat, spared: set<string>) returns (out: seq<string>)
      modifies this
      ensures Exactly(out, set k | k in old(entries) && Reapable(old(entries), k, ttlMs, now, spared))
      ensures State() == RemoveRows(old(State()), out)
    {
      var expired := set k | k in entries && Reapable(entries, k, ttlMs, now, spared);
      var ks := Enumerate(expired);
      ghost var st := State();
      out := [];
      assert ks[..0] == [];
      for i := 0 to |ks|
        invariant out == ks[..i] && State() == RemoveRows(st, ks[..i])
      {
        RemoveLaterRows(st, ks, i);
        TakeRow(ks[i]);
        out := out + [ks[i]];
      }
      assert ks[..|ks|] == ks;
    }

    /** The first half of an install, under a read guard: the size to give up and the
        row to write. */
    method InstallRead(key: string, size: nat, now: nat, oversize: bool) returns (was: nat, e: Entry)
      ensures was == SizeOf(entries, key)
      ensures e == Entry(size, if key in entries then entries[key].created else now, now, None, oversize)
    {
      was := if key in entries then entries[key].size else 0;
      e := Entry(size, if key in entries then entries[key].created else now, now, None, oversize);
    }

    method PutRow(key: string, was: nat, e: Entry)
      modifies this
      ensures State() == WriteSpec(old(State()), key, e, was)
    {
      totalBytes := SatSub(totalBytes, was) + e.size;
      entries := entries[key := e];
    }

    /** The second half, under a write guard, whatever happened in between: write the
        row, then sweep what it pushed over budget. */
    method InstallWrite(cfg: Config, key: string, was: nat, e: Entry, spared: set<string>)
      returns (evicted: seq<string>, ghost order: seq<string>)
      modifies this
      ensures var st := WriteSpec(old(State()), key, e, was);
              && LruOrder(order, st.entries, cfg, spared)
              && evicted == order[..Cut(order, st.entries, BytesOver(cfg, st), EntriesOver(cfg, st))]
              && State() == RemoveRows(st, evicted)
    {
      PutRow(key, was, e);
      evicted, order := EvictPick(cfg, spared);
    }

    /** An install nobody comes between. */
    method Install(cfg: Config, key: string, size: nat, now: nat, oversize: bool, spared: set<string>)
      returns (evicted: seq<string>, ghost order: seq<string>)
      modifies this
      ensures var e := Entry(size, if key in old(entries) then old(entries)[key].created else now, now, None, oversize);
              var st := InstallSpec(old(State()), key, e);
              && LruOrder(order, st.entries, cfg, spared)
              && evicted == order[..Cut(order, st.entries, BytesOver(cfg, st), EntriesOver(cfg, st))]
              && State() == RemoveRows(st, evicted)
    {
      var was, e := InstallRead(key, size, now, oversize);
      evicted, order := InstallWrite(cfg, key, was, e, spared);
    }

    method InstallNegative(cfg: Config, key: string, now: nat)
      modifies this
      ensures State() == NegativeSpec(old(State()), key, now, now + cfg.negativeTtlSecs * 1000)
    {
      entries := entries[key := Entry(0, now, now, Some(now + cfg.negativeTtlSecs * 1000), false)];
    }
  }

  lemma SortedExactly(any: seq<string>, ks: seq<string>, s: set<string>)
    requires Exactly(any, s) && multiset(any) == multiset(ks)
    ensures Exactly(ks, s)
  {
    Sorting.SameElements(any, ks);
    forall i, j | 0 <= i < j < |ks| ensures ks[i] != ks[j] {
      if ks[i] == ks[j] {
        Sorting.Once(any, ks[i]);
        Sorting.Twice(ks, i, j);
        assert false;
      }
    }
  }

  /* ---------- who is never taken ---------- */

  /** A budget sweep takes no spared key, no stray and no tombstone. */
  lemma SweepSpares(order: seq<string>, es: Entries, cfg: Config, spared: set<string>, n: nat, k: string)
    requires LruOrder(order, es, cfg, spared) && n <= |order| && k in order[..n]
    ensures k !in spared && k in es && !es[k].oversize && es[k].negativeUntil.None?
  {
    assert k in order;
  }

  /* ---------- which rows go, in plain terms ---------- */

  /** A row a budget sweep may take: an object, neither a stray nor spared. */
  ghost predicate Evictable(es: Entries, k: string, spared: set<string>) {
    k in es && es[k].negativeUntil == None && !es[k].oversize && k !in spared
  }

  /** Inside both budgets; an entry budget of zero is none. */
  ghost predicate Inside(cfg: Config, st: Mag) {
    Resident(st) <= cfg.maxSize && (cfg.maxEntries == 0 || |st.entries| <= cfg.maxEntries)
  }

  /** The victims of an order are least recently accessed: no row that could have gone and
      did not was accessed before one that went. */
  lemma VictimsAreOldest(order: seq<string>, es: Entries, cfg: Config, spared: set<string>, n: nat)
    requires LruOrder(order, es, cfg, spared) && n <= |order|
    ensures forall v :: v in order[..n] ==> Evictable(es, v, spared)
    ensures forall v, k :: v in order[..n] && Evictable(es, k, spared) && k !in order[..n] ==>
              v in es && es[v].lastAccess <= es[k].lastAccess
  {
    forall v | v in order[..n] ensures Evictable(es, v, spared) { assert v in order; }
    forall v, k | v in order[..n] && Evictable(es, k, spared) && k !in order[..n]
      ensures v in es && es[v].lastAccess <= es[k].lastAccess
    {
      assert v in order;
      assert IsCandidate(es, k, spared) && k in order;
      var i :| 0 <= i < n && order[..n][i] == v;
      var j :| 0 <= j < |order| && order[j] == k;
      assert order[i] == v && i < j;
    }
  }

  /** The one-by-one policy ends inside both budgets or with nothing evictable left, and
      the last row it took was needed. */
  lemma {:induction false} OneByOneEnds(cfg: Config, st: Mag, spared: set<string>, victims: seq<string>)
    requires OneByOne(cfg, st, spared, victims)
    ensures Inside(cfg, RemoveRows(st, victims)) || forall k :: !Evictable(RemoveRows(st, victims).entries, k, spared)
    ensures |victims| > 0 ==> !Inside(cfg, RemoveRows(st, victims[..|victims| - 1]))
    decreases |victims|
  {
    if |victims| == 0 {
      forall k ensures Evictable(st.entries, k, spared) <==> IsCandidate(st.entries, k, spared) {}
    } else {
      OneByOneEnds(cfg, RemoveRow(st, victims[0]), spared, victims[1..]);
      AllButLast(st, victims);
    }
  }

  lemma AllButLast(st: Mag, victims: seq<string>)
    requires |victims| > 0
    ensures RemoveRows(st, victims) == RemoveRows(RemoveRow(st, victims[0]), victims[1..])
    ensures |victims| == 1 ==> RemoveRows(st, victims[..|victims| - 1]) == st
    ensures |victims| > 1 ==>
              RemoveRows(st, victims[..|victims| - 1])
              == RemoveRows(RemoveRow(st, victims[0]), victims[1..][..|victims| - 2])
  {
    var front := victims[..|victims| - 1];
    if |victims| > 1 { assert front[0] == victims[0] && front[1..] == victims[1..][..|victims| - 2]; }
  }

  /** A budget sweep in plain terms: it takes least recently accessed objects, no more
      than it needs, until both budgets hold or nothing more may go. */
  lemma SweepMeans(cfg: Config, st: Mag, spared: set<string>, order: seq<string>)
    requires Accounted(st) && LruOrder(order, st.entries, cfg, spared)
    ensures var victims := order[..Cut(order, st.entries, BytesOver(cfg, st), EntriesOver(cfg, st))];
            && (forall v :: v in victims ==> Evictable(st.entries, v, spared))
            && (forall v, k :: v in victims && Evictable(st.entries, k, spared) && k !in victims ==>
                  v in st.entries && st.entries[v].lastAccess <= st.entries[k].lastAccess)
            && (Inside(cfg, RemoveRows(st, victims))
                || forall k :: !Evictable(RemoveRows(st, victims).entries, k, spared))
            && (|victims| > 0 ==> !Inside(cfg, RemoveRows(st, victims[..|victims| - 1])))
  {
    var n := Cut(order, st.entries, BytesOver(cfg, st), EntriesOver(cfg, st));
    VictimsAreOldest(order, st.entries, cfg, spared, n);
    OnePassIsOneByOne(cfg, st, spared, order);
    OneByOneEnds(cfg, st, spared, order[..n]);
  }

  /** Under pressure strays go oldest access first. */
  lemma PressureOldest(order: seq<string>, es: Entries, cfg: Config, n: nat)
    requires Exactly(order, Stray(es)) && n <= |order|
    requires forall i, j :: 0 <= i < j < |order| ==>
               EligibleAt(es, order[i], cfg.inactiveTtlSecs) <= EligibleAt(es, order[j], cfg.inactiveTtlSecs)
    ensures forall v :: v in order[..n] ==> v in es && es[v].oversize
    ensures forall v, k :: v in order[..n] && k in es && es[k].oversize && k !in order[..n] ==>
              v in es && es[v].lastAccess <= es[k].lastAccess
  {
    forall v | v in order[..n] ensures v in es && es[v].oversize { assert v in order; }
    forall v, k | v in order[..n] && k in es && es[k].oversize && k !in order[..n]
      ensures v in es && es[v].lastAccess <= es[k].lastAccess
    {
      assert v in order;
      assert k in Stray(es) && k in order;
      var i :| 0 <= i < n && order[..n][i] == v;
      var j :| 0 <= j < |order| && order[j] == k;
      assert order[i] == v && i < j;
    }
  }

  /** The reaper takes a tombstone from the moment it was to last until, spared or not,
      and an object that is not spared once its whole time has passed without an access. */
  lemma ReapIff(es: Entries, k: string, ttlMs: nat, now: nat, spared: set<string>)
    requires k in es
    ensures Reapable(es, k, ttlMs, now, spared)
        <==> match es[k].negativeUntil
             case Some(until) => until <= now
             case None => k !in spared && (ttlMs == 0 || es[k].lastAccess + ttlMs <= now)
  {
  }

  /** A tombstone holds no bytes, is never swept for budget, and is reaped from its own
      time on and not before. */
  lemma TombstoneMeans(st: Mag, cfg: Config, key: string, now: nat, t: nat, ttlMs: nat, spared: set<string>)
    ensures var st' := NegativeSpec(st, key, now, now + cfg.negativeTtlSecs * 1000);
            && key in st'.entries && st'.entries[key].size == 0 && !Evictable(st'.entries, key, spared)
            && (Reapable(st'.entries, key, ttlMs, t, spared) <==> t >= now + cfg.negativeTtlSecs * 1000)
            && (forall k :: k != key ==> (k in st'.entries <==> k in st.entries))
            && (forall k :: k != key && k in st.entries ==> st'.entries[k] == st.entries[k])
  {
  }

  /* ---------- the account over serial runs ---------- */

  datatype Op =
    | Put(key: string, e: Entry)
    | Negative(key: string, now: nat, until: nat)
    | Take(victims: seq<string>)
    | Rebuild(rows: seq<(string, Entry)>)

  /** The state and the bytes of positive rows overwritten without being subtracted. */
  datatype Books = Books(st: Mag, leaked: nat)

  function RebuildAll(b: Books, rows: seq<(string, Entry)>): Books
    decreases |rows|
  {
    if |rows| == 0 then b
    else
      var (key, e) := rows[0];
      var was := SizeOf(b.st.entries, key);
      RebuildAll(Books(RebuildRow(b.st, key, e), b.leaked + was), rows[1..])
  }

  function ApplyOp(b: Books, op: Op): Books {
    match op
    case Put(key, e) => b.(st := InstallSpec(b.st, key, e))
    case Negative(key, now, until) =>
      Books(NegativeSpec(b.st, key, now, until),
            b.leaked + SizeOf(b.st.entries, key))
    case Take(victims) => b.(st := RemoveRows(b.st, victims))
    case Rebuild(rows) => RebuildAll(b, rows)
  }

  /** The total is the bytes of the rows plus what tombstones (or a rebuild over
      existing rows) overwrote. */
  ghost predicate Balanced(b: Books) { b.st.total == RowBytes(b.st.entries) + b.leaked }

  lemma WriteRow(es: Entries, key: string, e: Entry)
    ensures RowBytes(es[key := e]) + SizeOf(es, key) == RowBytes(es) + e.size
  {
    WriteSize(es, key, e);
    Sums.SumUpdate(Sizes(es), key, e.size);
  }

  lemma WriteSize(es: Entries, key: string, e: Entry)
    ensures Sizes(es[key := e]) == Sizes(es)[key := e.size]
  {
  }

  lemma {:induction false} TakeBalanced(b: Books, ks: seq<string>)
    requires Balanced(b)
    ensures Balanced(b.(st := RemoveRows(b.st, ks)))
    decreases |ks|
  {
    if |ks| > 0 {
      if ks[0] in b.st.entries { RemoveBytes(b.st.entries, ks[0]); }
      TakeBalanced(b.(st := RemoveRow(b.st, ks[0])), ks[1..]);
    }
  }

  lemma {:induction false} RebuildBalanced(b: Books, rows: seq<(string, Entry)>)
    requires Balanced(b)
    ensures Balanced(RebuildAll(b, rows))
    decreases |rows|
  {
    if |rows| > 0 {
      var (key, e) := rows[0];
      WriteRow(b.st.entries, key, e);
      var was := SizeOf(b.st.entries, key);
      RebuildBalanced(Books(RebuildRow(b.st, key, e), b.leaked + was), rows[1..]);
    }
  }

  lemma ApplyBalanced(b: Books, op: Op)
    requires Balanced(b)
    ensures Balanced(ApplyOp(b, op))
  {
    match op
    case Put(key, e) => WriteRow(b.st.entries, key, e);
                        if key in b.st.entries { RemoveBytes(b.st.entries, key); }
    case Negative(key, now, until) => WriteRow(b.st.entries, key, Tombstone(now, until));
    case Take(victims) => TakeBalanced(b, victims);
    case Rebuild(rows) => RebuildBalanced(b, rows);
  }

  function RunOps(ops: seq<Op>): Books {
    if |ops| == 0 then Books(Mag(map[], 0), 0) else ApplyOp(RunOps(ops[..|ops| - 1]), ops[|ops| - 1])
  }

  /** A write over the key would lose no bytes: it has no row, or an empty one. */
  predicate Vacant(es: Entries, key: string) { key in es ==> es[key].size == 0 }

  /** The rows of a rebuild, written in turn, meet no row with bytes. */
  ghost predicate RebuildsVacant(es: Entries, rows: seq<(string, Entry)>)
    decreases |rows|
  {
    |rows| == 0 || (Vacant(es, rows[0].0) && RebuildsVacant(es[rows[0].0 := rows[0].1], rows[1..]))
  }

  /** The operation overwrites no bytes behind the account's back. */
  ghost predicate Careful(es: Entries, op: Op) {
    match op
    case Put(_, _) => true
    case Negative(key, _, _) => Vacant(es, key)
    case Take(_) => true
    case Rebuild(rows) => RebuildsVacant(es, rows)
  }

  lemma {:induction false} RebuildLeaks(b: Books, rows: seq<(string, Entry)>)
    ensures RebuildAll(b, rows).leaked >= b.leaked
    ensures RebuildAll(b, rows).leaked == b.leaked <==> RebuildsVacant(b.st.entries, rows)
    decreases |rows|
  {
    if |rows| > 0 {
      var (key, e) := rows[0];
      var was := SizeOf(b.st.entries, key);
      RebuildLeaks(Books(RebuildRow(b.st, key, e), b.leaked + was), rows[1..]);
    }
  }

  lemma ApplyLeaks(b: Books, op: Op)
    ensures ApplyOp(b, op).leaked >= b.leaked
    ensures ApplyOp(b, op).leaked == b.leaked <==> Careful(b.st.entries, op)
  {
    if op.Rebuild? { RebuildLeaks(b, op.rows); }
  }

  /** The operation was careful where it struck in the history. */
  ghost predicate CarefulAt(ops: seq<Op>, i: nat)
    requires i < |ops|
  {
    Careful(RunOps(ops[..i]).st.entries, ops[i])
  }

  ghost predicate CarefulRun(ops: seq<Op>) { forall i :: 0 <= i < |ops| ==> CarefulAt(ops, i) }

  lemma CarefulPrefix(ops: seq<Op>, n: nat, i: nat)
    requires i < n <= |ops|
    ensures CarefulAt(ops[..n], i) <==> CarefulAt(ops, i)
  {
    Seqs.TakeTake(ops, i, n);
  }

  lemma CarefulSnoc(ops: seq<Op>, n: nat)
    requires |ops| == n + 1
    ensures CarefulRun(ops) <==> CarefulRun(ops[..n]) && CarefulAt(ops, n)
  {
    forall i | 0 <= i < n ensures CarefulAt(ops[..n], i) <==> CarefulAt(ops, i) { CarefulPrefix(ops, n, i); }
  }

  lemma {:induction false} LeaksIff(ops: seq<Op>)
    ensures RunOps(ops).leaked == 0 <==> CarefulRun(ops)
  {
    if |ops| > 0 {
      var n := |ops| - 1;
      LeaksIff(ops[..n]);
      ApplyLeaks(RunOps(ops[..n]), ops[n]);
      CarefulSnoc(ops, n);
    }
  }

  /** In every serial run the total is the row bytes plus the overwritten bytes: it
      never under-counts and no saturating subtraction ever clips. It is exact
      exactly when no tombstone and no rebuilt row was written over a row with
      bytes. */
  lemma {:induction false} RunBalanced(ops: seq<Op>)
    ensures var b := RunOps(ops);
            && Balanced(b) && Accounted(b.st)
            && (forall k :: k in b.st.entries ==> b.st.entries[k].size <= b.st.total)
            && (b.st.total == RowBytes(b.st.entries) <==> CarefulRun(ops))
  {
    OpsBalanced(ops);
    LeaksIff(ops);
    var b := RunOps(ops);
    forall k | k in b.st.entries ensures b.st.entries[k].size <= b.st.total {
      RemoveBytes(b.st.entries, k);
    }
  }

  lemma {:induction false} OpsBalanced(ops: seq<Op>)
    ensures Balanced(RunOps(ops))
  {
    if |ops| > 0 {
      OpsBalanced(ops[..|ops| - 1]);
      ApplyBalanced(RunOps(ops[..|ops| - 1]), ops[|ops| - 1]);
    } else {
      assert Sizes(map[]) == map[];
    }
  }

  /** How far the total is ahead of the rows. */
  ghost function Drift(st: Mag): int { st.total - RowBytes(st.entries) }

  /** An install whose read and write are apart moves the drift exactly when the row
      changed size in between, save for a row that is all there is to give up. */
  lemma InstallGapIff(st: Mag, key: string, e: Entry, was: nat)
    requires Accounted(st)
    ensures var now := SizeOf(st.entries, key);
            Drift(WriteSpec(st, key, e, was)) == Drift(st) <==> was == now || (now == st.total && was > now)
  {
    WriteRow(st.entries, key, e);
    if key in st.entries { RemoveBytes(st.entries, key); }
  }

  /** Two installs of one absent key that both read before either writes: ten bytes
      are held and twenty are counted. */
  lemma RacingInstallsOvercount(e: Entry)
    requires e.size == 10
    ensures var st := WriteSpec(WriteSpec(Mag(map[], 0), "a", e, 0), "a", e, 0);
            st.total == 20 && RowBytes(st.entries) == 10
  {
    WriteRow(map[], "a", e);
    WriteRow(map["a" := e], "a", e);
    assert Sizes(map[]) == map[];
    assert map["a" := e]["a" := e] == map["a" := e];
  }

  /* ---------- runs in which installs are split ---------- */

  /** The magazine, and the installs that have read and not yet written: the key and the
      size each saw. */
  datatype Split = Split(st: Mag, pending: map<nat, (string, nat)>)

  datatype SplitOp = ReadOld(id: nat, key: string) | WriteNew(id: nat, e: Entry) | Whole(op: Op)

  ghost predicate SplitStep(s: Split, op: SplitOp, s': Split) {
    match op
    case ReadOld(id, key) =>
      id !in s.pending && s' == s.(pending := s.pending[id := (key, SizeOf(s.st.entries, key))])
    case WriteNew(id, e) =>
      && id in s.pending
      && s' == Split(WriteSpec(s.st, s.pending[id].0, e, s.pending[id].1), s.pending - {id})
    case Whole(o) => s' == s.(st := ApplyOp(Books(s.st, 0), o).st)
  }

  /** What a step needs so that an exact total stays exact: an install finds the size it
      saw, or finds a row that is all there is and saw more; everything else is careful
      what it overwrites. */
  ghost predicate Steady(s: Split, op: SplitOp) {
    match op
    case ReadOld(_, _) => true
    case WriteNew(id, _) =>
      id in s.pending ==>
        var now := SizeOf(s.st.entries, s.pending[id].0);
        s.pending[id].1 == now || (now == s.st.total && s.pending[id].1 > now)
    case Whole(o) => Careful(s.st.entries, o)
  }

  lemma SplitStepIff(s: Split, op: SplitOp, s': Split)
    requires Drift(s.st) == 0 && SplitStep(s, op, s')
    ensures Drift(s'.st) == 0 <==> Steady(s, op)
  {
    match op
    case ReadOld(_, _) =>
    case WriteNew(id, e) => InstallGapIff(s.st, s.pending[id].0, e, s.pending[id].1);
    case Whole(o) =>
      ApplyBalanced(Books(s.st, 0), o);
      ApplyLeaks(Books(s.st, 0), o);
  }

  ghost predicate SplitStepAt(ss: seq<Split>, ops: seq<SplitOp>, i: nat)
    requires i < |ops| && i + 1 < |ss|
  {
    SplitStep(ss[i], ops[i], ss[i + 1])
  }

  ghost predicate SplitRun(ss: seq<Split>, ops: seq<SplitOp>) {
    && |ss| == |ops| + 1 && ss[0] == Split(Mag(map[], 0), map[])
    && (forall i :: 0 <= i < |ops| ==> SplitStepAt(ss, ops, i))
  }

  ghost predicate ExactAt(ss: seq<Split>, k: nat)
    requires k < |ss|
  {
    Drift(ss[k].st) == 0
  }

  ghost predicate SteadyAt(ss: seq<Split>, ops: seq<SplitOp>, i: nat)
    requires i < |ss| && i < |ops|
  {
    Steady(ss[i], ops[i])
  }

  lemma ExactNextIff(ss: seq<Split>, ops: seq<SplitOp>, i: nat)
    requires SplitRun(ss, ops) && i < |ops| && ExactAt(ss, i)
    ensures ExactAt(ss, i + 1) <==> SteadyAt(ss, ops, i)
  {
    assert SplitStepAt(ss, ops, i);
    SplitStepIff(ss[i], ops[i], ss[i + 1]);
  }

  lemma {:induction false} SteadyExact(ss: seq<Split>, ops: seq<SplitOp>, k: nat)
    requires SplitRun(ss, ops) && k < |ss| && forall i :: 0 <= i < k ==> SteadyAt(ss, ops, i)
    ensures ExactAt(ss, k)
  {
    if k > 0 {
      SteadyExact(ss, ops, k - 1);
      ExactNextIff(ss, ops, k - 1);
    } else {
      assert Sizes(map[]) == map[];
    }
  }

  /** Over every run whose installs are split and interleave with everything else: the
      total is the row bytes at every point if and only if every step was steady. */
  lemma SplitRunExactIff(ss: seq<Split>, ops: seq<SplitOp>)
    requires SplitRun(ss, ops)
    ensures (forall k :: 0 <= k < |ss| ==> ExactAt(ss, k)) <==> (forall i :: 0 <= i < |ops| ==> SteadyAt(ss, ops, i))
  {
    if forall k :: 0 <= k < |ss| ==> ExactAt(ss, k) {
      forall i | 0 <= i < |ops| ensures SteadyAt(ss, ops, i) {
        assert ExactAt(ss, i) && ExactAt(ss, i + 1);
        ExactNextIff(ss, ops, i);
      }
    }
    if forall i :: 0 <= i < |ops| ==> SteadyAt(ss, ops, i) {
      forall k | 0 <= k < |ss| ensures ExactAt(ss, k) { SteadyExact(ss, ops, k); }
    }
  }

  /** A ten-byte object revalidated to a 404: the tombstone holds no bytes, yet the
      total keeps counting ten. */
  lemma TombstoneLeaks()
    ensures var b := RunOps([Put("a", Entry(10, 1, 1, None, false)), Negative("a", 2, 5)]);
            b.st.total == 10 && RowBytes(b.st.entries) == 0 && b.leaked == 10
  {
    var put, neg := Put("a", Entry(10, 1, 1, None, false)), Negative("a", 2, 5);
    var ops := [put, neg];
    assert ops[..1] == [put] && [put][..0] == [];
    var b0 := RunOps([]);
    var b1 := ApplyOp(b0, put);
    assert RunOps([put]) == b1;
    assert RunOps(ops) == ApplyOp(b1, neg);
    RunBalanced(ops);
  }
}
