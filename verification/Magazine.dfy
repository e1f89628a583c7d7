/** Everything the byte budget governs: which rows a budget sweep evicts, which the
    reaper and the pressure valve take, and the account of resident bytes. */
module Magazine {
  import opened Options
  import opened Saturating
  import Sums
  import Seqs

  /** A cached entry. A tombstone has `negativeUntil`; a resident stray is `oversize`. */
  datatype Entry = Entry(size: nat, created: nat, lastAccess: nat, negativeUntil: Option<nat>, oversize: bool)

  type Entries = map<string, Entry>

  datatype Config = Config(maxSize: nat, maxEntries: nat, inactiveTtlSecs: nat, negativeTtlSecs: nat)

  /** The rows and the running byte total. */
  datatype Mag = Mag(entries: Entries, total: nat)

  function EligibleAt(es: Entries, k: string, ttlSecs: nat): nat {
    if k in es then es[k].lastAccess + ttlSecs * 1000 else 0
  }

  /* ---------- bytes ---------- */

  ghost function Sizes(es: Entries): map<string, nat> { map k | k in es :: es[k].size }

  ghost function StraySizes(es: Entries): map<string, nat> { map k | k in es && es[k].oversize :: es[k].size }

  /** Bytes of all rows, and of the resident strays. */
  ghost function RowBytes(es: Entries): nat { Sums.Sum(Sizes(es)) }

  ghost function StrayBytes(es: Entries): nat { Sums.Sum(StraySizes(es)) }

  /** What the byte budget governs: everything but the strays. */
  ghost function Resident(st: Mag): nat { SatSub(st.total, StrayBytes(st.entries)) }

  function RemoveRow(st: Mag, k: string): Mag {
    if k in st.entries then Mag(st.entries - {k}, SatSub(st.total, st.entries[k].size)) else st
  }

  function RemoveRows(st: Mag, ks: seq<string>): Mag
    decreases |ks|
  {
    if |ks| == 0 then st else RemoveRows(RemoveRow(st, ks[0]), ks[1..])
  }

  lemma RemoveBytes(es: Entries, k: string)
    requires k in es
    ensures RowBytes(es) == es[k].size + RowBytes(es - {k})
    ensures !es[k].oversize ==> StrayBytes(es - {k}) == StrayBytes(es)
    ensures es[k].oversize ==> StrayBytes(es) == es[k].size + StrayBytes(es - {k})
  {
    SizesWithout(es, k);
    Sums.SumWithout(Sizes(es), k);
    if es[k].oversize {
      Sums.SumWithout(StraySizes(es), k);
    }
  }

  lemma SizesWithout(es: Entries, k: string)
    requires k in es
    ensures Sizes(es) - {k} == Sizes(es - {k})
    ensures StraySizes(es) - {k} == StraySizes(es - {k})
    ensures !es[k].oversize ==> StraySizes(es) == StraySizes(es - {k})
  {
  }

  ghost function Stray(es: Entries): set<string> { set k | k in es && es[k].oversize }

  lemma StraysWithin(es: Entries)
    ensures StrayBytes(es) <= RowBytes(es)
    ensures RowBytes(es) == StrayBytes(es) + Sums.Sum(Sizes(es) - Stray(es))
  {
    assert Sums.On(Sizes(es), Stray(es)) == StraySizes(es);
    Sums.SumSplit(Sizes(es), Stray(es));
  }

  lemma RemoveLaterRows(st: Mag, ks: seq<string>, i: nat)
    requires i < |ks|
    ensures RemoveRows(st, ks[..i + 1]) == RemoveRow(RemoveRows(st, ks[..i]), ks[i])
    decreases |ks|
  {
    var st', rest := RemoveRow(st, ks[0]), ks[1..];
    assert ks[..i + 1][1..] == rest[..i];
    if i > 0 {
      RemoveLaterRows(st', rest, i - 1);
      assert ks[..i][1..] == rest[..i - 1];
      assert rest[..i - 1 + 1] == rest[..i];
    } else {
      assert rest[..0] == [];
    }
  }

  /* ---------- the budget sweep ---------- */

  ghost predicate IsCandidate(es: Entries, k: string, spared: set<string>) {
    k in es && es[k].negativeUntil.None? && !es[k].oversize && k !in spared
  }

  /** The evictable rows, each once, least eligible first. */
  ghost predicate LruOrder(order: seq<string>, es: Entries, cfg: Config, spared: set<string>) {
    && (forall k :: k in order <==> IsCandidate(es, k, spared))
    && (forall i, j :: 0 <= i < j < |order| ==> order[i] != order[j])
    && (forall i, j :: 0 <= i < j < |order| ==>
          EligibleAt(es, order[i], cfg.inactiveTtlSecs) <= EligibleAt(es, order[j], cfg.inactiveTtlSecs))
  }

  ghost function BytesOver(cfg: Config, st: Mag): nat { SatSub(Resident(st), cfg.maxSize) }

  function EntriesOver(cfg: Config, st: Mag): nat {
    if cfg.maxEntries > 0 then SatSub(|st.entries|, cfg.maxEntries) else 0
  }

  ghost predicate OverBudget(cfg: Config, st: Mag) {
    Resident(st) > cfg.maxSize || (cfg.maxEntries > 0 && |st.entries| > cfg.maxEntries)
  }

  /** How many rows of the order one pass takes before both shortfalls are met. */
  function Cut(order: seq<string>, es: Entries, bytes: nat, count: nat): (n: nat)
    ensures n <= |order|
    decreases |order|
  {
    if |order| == 0 || (bytes == 0 && count == 0) then 0
    else 1 + Cut(order[1..], es, SatSub(bytes, if order[0] in es then es[order[0]].size else 0), SatSub(count, 1))
  }

  /** The simple policy: while over budget, remove a least-eligible candidate and ask
      again; stop when inside both budgets or out of candidates. */
  ghost predicate OneByOne(cfg: Config, st: Mag, spared: set<string>, victims: seq<string>)
    decreases |victims|
  {
    if |victims| == 0 then
      !OverBudget(cfg, st) || forall k :: !IsCandidate(st.entries, k, spared)
    else
      && OverBudget(cfg, st) && IsCandidate(st.entries, victims[0], spared)
      && (forall k :: IsCandidate(st.entries, k, spared) ==>
            EligibleAt(st.entries, victims[0], cfg.inactiveTtlSecs) <= EligibleAt(st.entries, k, cfg.inactiveTtlSecs))
      && OneByOne(cfg, RemoveRow(st, victims[0]), spared, victims[1..])
  }

  /** The running total never under-counts the rows. */
  ghost predicate Accounted(st: Mag) { RowBytes(st.entries) <= st.total }

  lemma RemoveKeepsAccount(st: Mag, k: string)
    requires Accounted(st) && k in st.entries
    ensures Accounted(RemoveRow(st, k)) && st.entries[k].size <= st.total
  {
    RemoveBytes(st.entries, k);
  }

  /** Evicting a candidate brings both shortfalls down by exactly its share. */
  lemma RemoveShortfalls(cfg: Config, st: Mag, k: string)
    requires Accounted(st) && k in st.entries && !st.entries[k].oversize
    ensures BytesOver(cfg, RemoveRow(st, k)) == SatSub(BytesOver(cfg, st), st.entries[k].size)
    ensures EntriesOver(cfg, RemoveRow(st, k)) == SatSub(EntriesOver(cfg, st), 1)
  {
    RemoveBytes(st.entries, k);
    StraysWithin(st.entries - {k});
    OneFewer(st.entries, k);
  }

  lemma OneFewer(es: Entries, k: string)
    requires k in es
    ensures |es - {k}| == |es| - 1
  {
    assert (es - {k}).Keys == es.Keys - {k};
    assert |(es - {k}).Keys| == |es.Keys| - 1;
  }

  lemma OrderTail(order: seq<string>, es: Entries, cfg: Config, spared: set<string>)
    requires LruOrder(order, es, cfg, spared) && |order| > 0
    ensures LruOrder(order[1..], es - {order[0]}, cfg, spared)
  {
    var es', rest := es - {order[0]}, order[1..];
    forall k ensures k in rest <==> IsCandidate(es', k, spared) {
      if k in rest {
        var i :| 0 <= i < |rest| && rest[i] == k;
        assert order[i + 1] == k;
        assert k in order;
      }
      if IsCandidate(es', k, spared) {
        assert IsCandidate(es, k, spared);
        var i :| 0 <= i < |order| && order[i] == k;
        assert rest[i - 1] == k;
      }
    }
    forall i | 0 <= i < |rest| ensures rest[i] in es' && EligibleAt(es', rest[i], cfg.inactiveTtlSecs)
                                                     == EligibleAt(es, order[i + 1], cfg.inactiveTtlSecs) {
      assert rest[i] == order[i + 1] && rest[i] in rest;
    }
  }

  lemma OrderHead(order: seq<string>, es: Entries, cfg: Config, spared: set<string>, k: string)
    requires LruOrder(order, es, cfg, spared) && IsCandidate(es, k, spared)
    ensures |order| > 0
    ensures EligibleAt(es, order[0], cfg.inactiveTtlSecs) <= EligibleAt(es, k, cfg.inactiveTtlSecs)
  {
    assert k in order;
    var i :| 0 <= i < |order| && order[i] == k;
  }

  lemma {:induction false} CutIgnoresRemoved(order: seq<string>, es: Entries, k: string, bytes: nat, count: nat)
    requires k !in order
    ensures Cut(order, es - {k}, bytes, count) == Cut(order, es, bytes, count)
    decreases |order|
  {
    if |order| > 0 && (bytes > 0 || count > 0) {
      var size := if order[0] in es then es[order[0]].size else 0;
      CutIgnoresRemoved(order[1..], es, k, SatSub(bytes, size), SatSub(count, 1));
    }
  }

  lemma HeadNotInTail(order: seq<string>)
    requires |order| > 0 && forall i, j :: 0 <= i < j < |order| ==> order[i] != order[j]
    ensures order[0] !in order[1..]
  {
  }

  /** The one pass over the sorted candidates evicts what the one-by-one policy
      evicts: each victim least eligible among the rows left, each taken only while
      some budget is exceeded, and the sweep stops inside both budgets or with no
      candidate left. */
  lemma {:induction false} OnePassIsOneByOne(cfg: Config, st: Mag, spared: set<string>, order: seq<string>)
    requires Accounted(st) && LruOrder(order, st.entries, cfg, spared)
    ensures var n := Cut(order, st.entries, BytesOver(cfg, st), EntriesOver(cfg, st));
            OneByOne(cfg, st, spared, order[..n])
    decreases |order|
  {
    var bytes, count := BytesOver(cfg, st), EntriesOver(cfg, st);
    var n := Cut(order, st.entries, bytes, count);
    assert OverBudget(cfg, st) <==> bytes > 0 || count > 0;
    if n == 0 {
      assert order[..0] == [];
      if |order| == 0 {
        forall k ensures !IsCandidate(st.entries, k, spared) {
          assert k !in order;
        }
      }
    } else {
      var k, rest := order[0], order[1..];
      OrderLeast(order, st.entries, cfg, spared);
      RemoveKeepsAccount(st, k);
      RemoveShortfalls(cfg, st, k);
      OrderTail(order, st.entries, cfg, spared);
      OnePassIsOneByOne(cfg, RemoveRow(st, k), spared, rest);
      HeadNotInTail(order);
      CutIgnoresRemoved(rest, st.entries, k, SatSub(bytes, st.entries[k].size), SatSub(count, 1));
      TakeTail(order, n);
    }
  }

  lemma TakeTail(order: seq<string>, n: nat)
    requires 0 < n <= |order|
    ensures order[..n][1..] == order[1..][..n - 1] && order[..n][0] == order[0]
  {
  }

  lemma OrderLeast(order: seq<string>, es: Entries, cfg: Config, spared: set<string>)
    requires LruOrder(order, es, cfg, spared) && |order| > 0
    ensures IsCandidate(es, order[0], spared)
    ensures forall j :: IsCandidate(es, j, spared) ==>
              EligibleAt(es, order[0], cfg.inactiveTtlSecs) <= EligibleAt(es, j, cfg.inactiveTtlSecs)
  {
    assert order[0] in order;
    forall j | IsCandidate(es, j, spared)
      ensures EligibleAt(es, order[0], cfg.inactiveTtlSecs) <= EligibleAt(es, j, cfg.inactiveTtlSecs)
    {
      OrderHead(order, es, cfg, spared, j);
    }
  }

  ghost predicate DistinctStamps(es: Entries, cfg: Config) {
    forall j, k :: j in es && k in es && j != k ==>
      EligibleAt(es, j, cfg.inactiveTtlSecs) != EligibleAt(es, k, cfg.inactiveTtlSecs)
  }

  /** With distinct stamps the policy leaves no choice. */
  lemma {:induction false} OneByOneUnique(cfg: Config, st: Mag, spared: set<string>, v: seq<string>, w: seq<string>)
    requires DistinctStamps(st.entries, cfg)
    requires OneByOne(cfg, st, spared, v) && OneByOne(cfg, st, spared, w)
    ensures v == w
    decreases |v|
  {
    if |v| > 0 && |w| > 0 {
      assert v[0] == w[0];
      var st' := RemoveRow(st, v[0]);
      forall j, k | j in st'.entries && k in st'.entries && j != k
        ensures EligibleAt(st'.entries, j, cfg.inactiveTtlSecs) != EligibleAt(st'.entries, k, cfg.inactiveTtlSecs)
      {
        assert EligibleAt(st.entries, j, cfg.inactiveTtlSecs) != EligibleAt(st.entries, k, cfg.inactiveTtlSecs);
      }
      OneByOneUnique(cfg, st', spared, v[1..], w[1..]);
      Seqs.ConsTail(v);
      Seqs.ConsTail(w);
    }
  }

  /** What the rows other than strays are, and what drift the account carries. */
  ghost predicate SameButStrays(a: Mag, b: Mag) {
    && (forall k :: k in a.entries && !a.entries[k].oversize ==> k in b.entries && b.entries[k] == a.entries[k])
    && (forall k :: k in b.entries && !b.entries[k].oversize ==> k in a.entries && a.entries[k] == b.entries[k])
    && Accounted(a) && Accounted(b)
    && a.total - RowBytes(a.entries) == b.total - RowBytes(b.entries)
  }

  lemma ResidentIsTheRest(st: Mag)
    requires Accounted(st)
    ensures Resident(st) == st.total - RowBytes(st.entries) + Sums.Sum(Sizes(st.entries) - Stray(st.entries))
  {
    StraysWithin(st.entries);
  }

  /** With the count cap off, adding or removing strays of any size changes neither
      the candidates, nor their order, nor how many of them go. */
  lemma StraysNeverMatter(cfg: Config, a: Mag, b: Mag, spared: set<string>, order: seq<string>)
    requires cfg.maxEntries == 0 && SameButStrays(a, b) && LruOrder(order, a.entries, cfg, spared)
    ensures LruOrder(order, b.entries, cfg, spared)
    ensures order[..Cut(order, a.entries, BytesOver(cfg, a), EntriesOver(cfg, a))]
         == order[..Cut(order, b.entries, BytesOver(cfg, b), EntriesOver(cfg, b))]
  {
    ResidentIsTheRest(a);
    ResidentIsTheRest(b);
    SameRest(a, b);
    OrderCarries(order, a.entries, b.entries, cfg, spared);
    CutCarries(order, a.entries, b.entries, BytesOver(cfg, a), 0);
  }

  lemma SameRest(a: Mag, b: Mag)
    requires SameButStrays(a, b)
    ensures Sizes(a.entries) - Stray(a.entries) == Sizes(b.entries) - Stray(b.entries)
  {
  }

  lemma OrderCarries(order: seq<string>, es: Entries, fs: Entries, cfg: Config, spared: set<string>)
    requires LruOrder(order, es, cfg, spared)
    requires forall k :: k in es && !es[k].oversize ==> k in fs && fs[k] == es[k]
    requires forall k :: k in fs && !fs[k].oversize ==> k in es && es[k] == fs[k]
    ensures LruOrder(order, fs, cfg, spared)
    ensures forall i :: 0 <= i < |order| ==> order[i] in es && order[i] in fs && es[order[i]] == fs[order[i]]
  {
    forall k ensures IsCandidate(es, k, spared) <==> IsCandidate(fs, k, spared) {}
    forall i | 0 <= i < |order|
      ensures order[i] in es && order[i] in fs && es[order[i]] == fs[order[i]]
    {
      assert order[i] in order && IsCandidate(es, order[i], spared);
    }
  }

  lemma {:induction false} CutCarries(order: seq<string>, es: Entries, fs: Entries, bytes: nat, count: nat)
    requires forall i :: 0 <= i < |order| ==> order[i] in es && order[i] in fs && es[order[i]] == fs[order[i]]
    ensures Cut(order, es, bytes, count) == Cut(order, fs, bytes, count)
    decreases |order|
  {
    if |order| > 0 && (bytes > 0 || count > 0) {
      assert order[0] in es;
      forall i | 0 <= i < |order[1..]| ensures order[1..][i] == order[i + 1] {}
      CutCarries(order[1..], es, fs, SatSub(bytes, es[order[0]].size), SatSub(count, 1));
    }
  }
}
