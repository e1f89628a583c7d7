/** Bucket listings page by page: the item sequence is the sorted files followed by
    the sorted common prefixes, and a token names the last item of a page. */
module Paging {
  import opened Options
  import opened Lex
  import Seqs
  import Sorting

  datatype ListEntry = ListEntry(key: string, size: nat, etag: Option<string>, isDir: bool)

  datatype Params = Params(isV2: bool, prefix: string, delimiter: Option<string>, token: Option<string>,
                           startAfter: Option<string>)

  datatype Items = Items(contents: seq<ListEntry>, prefixes: seq<string>)

  /* ---------- selection ---------- */

  predicate ByKey(a: ListEntry, b: ListEntry) { AtMost(a.key, b.key) }

  lemma ByKeyOrder()
    ensures Sorting.TotalPreorder(ByKey) && Sorting.TotalPreorder(AtMost) && Sorting.Antisymmetric(AtMost)
  {
    forall x: string, y: string ensures AtMost(x, y) || AtMost(y, x) { Trichotomy(x, y); }
    forall x: string, y: string | AtMost(x, y) && AtMost(y, x) ensures x == y { Trichotomy(x, y); }
    forall x: string, y: string, z: string | AtMost(x, y) && AtMost(y, z) ensures AtMost(x, z) {
      AtMostTransitive(x, y, z);
    }
    forall x: ListEntry, y: ListEntry ensures ByKey(x, y) || ByKey(y, x) {}
    forall x: ListEntry, y: ListEntry, z: ListEntry | ByKey(x, y) && ByKey(y, z) ensures ByKey(x, z) {}
  }

  function Files(entries: seq<ListEntry>, prefix: string): seq<ListEntry> {
    if |entries| == 0 then []
    else (if prefix <= entries[0].key && !entries[0].isDir then [entries[0]] else []) + Files(entries[1..], prefix)
  }

  function Dirs(entries: seq<ListEntry>, prefix: string): seq<string> {
    if |entries| == 0 then []
    else (if prefix <= entries[0].key && entries[0].isDir then [entries[0].key] else []) + Dirs(entries[1..], prefix)
  }

  /** `dedup` of a sorted list. */
  function Dedup(s: seq<string>): seq<string> {
    if |s| < 2 then s
    else if s[0] == s[1] then Dedup(s[1..])
    else [s[0]] + Dedup(s[1..])
  }

  function FilesAfter(s: seq<ListEntry>, key: string): seq<ListEntry> {
    if |s| == 0 then [] else (if Less(key, s[0].key) then [s[0]] else []) + FilesAfter(s[1..], key)
  }

  function PrefixesAfter(s: seq<string>, key: string): seq<string> {
    if |s| == 0 then [] else (if Less(key, s[0]) then [s[0]] else []) + PrefixesAfter(s[1..], key)
  }

  /** Everything a listing shows, whatever page is asked for. */
  function AllItems(entries: seq<ListEntry>, p: Params): Items {
    Items(Sorting.Sort(Files(entries, p.prefix), ByKey),
          if p.delimiter.Some? then Dedup(Sorting.Sort(Dirs(entries, p.prefix), AtMost)) else [])
  }

  /** The start-after filter applies to the first V2 page only. */
  function Selected(entries: seq<ListEntry>, p: Params): Items {
    var all := AllItems(entries, p);
    if p.isV2 && p.token.None? && p.startAfter.Some?
    then Items(FilesAfter(all.contents, p.startAfter.value), PrefixesAfter(all.prefixes, p.startAfter.value))
    else all
  }

  lemma FilesSnoc(s: seq<ListEntry>, i: nat, prefix: string)
    requires i < |s|
    ensures Files(s[..i + 1], prefix)
         == Files(s[..i], prefix) + if prefix <= s[i].key && !s[i].isDir then [s[i]] else []
    ensures Dirs(s[..i + 1], prefix)
         == Dirs(s[..i], prefix) + if prefix <= s[i].key && s[i].isDir then [s[i].key] else []
  {
    SelectConcat(s[..i], [s[i]], prefix);
    assert s[..i + 1] == s[..i] + [s[i]];
    assert [s[i]][1..] == [];
  }

  lemma {:induction false} SelectConcat(a: seq<ListEntry>, c: seq<ListEntry>, prefix: string)
    ensures Files(a + c, prefix) == Files(a, prefix) + Files(c, prefix)
    ensures Dirs(a + c, prefix) == Dirs(a, prefix) + Dirs(c, prefix)
  {
    if |a| == 0 {
      Seqs.EmptyConcat(c);
    } else {
      SelectConcat(a[1..], c, prefix);
      Seqs.TailConcat(a, c);
      var f := if prefix <= a[0].key && !a[0].isDir then [a[0]] else [];
      Seqs.Assoc(f, Files(a[1..], prefix), Files(c, prefix));
      var d := if prefix <= a[0].key && a[0].isDir then [a[0].key] else [];
      Seqs.Assoc(d, Dirs(a[1..], prefix), Dirs(c, prefix));
    }
  }

  /** One pass over the snapshot, then sort, dedup and filter. */
  method SelectItems(entries: seq<ListEntry>, p: Params) returns (items: Items)
    ensures items == Selected(entries, p)
  {
    var contents: seq<ListEntry>, dirs: seq<string> := [], [];
    assert entries[..0] == [];
    for i := 0 to |entries|
      invariant contents == Files(entries[..i], p.prefix) && dirs == Dirs(entries[..i], p.prefix)
    {
      FilesSnoc(entries, i, p.prefix);
      var e := entries[i];
      if p.prefix <= e.key {
        if e.isDir { dirs := dirs + [e.key]; } else { contents := contents + [e]; }
      }
    }
    assert entries[..|entries|] == entries;
    contents := Sorting.Sort(contents, ByKey);
    var prefixes := [];
    if p.delimiter.Some? {
      prefixes := Dedup(Sorting.Sort(dirs, AtMost));
    }
    if p.isV2 && p.token.None? && p.startAfter.Some? {
      contents := FilesAfter(contents, p.startAfter.value);
      prefixes := PrefixesAfter(prefixes, p.startAfter.value);
    }
    items := Items(contents, prefixes);
  }

  /* ---------- order ---------- */

  ghost predicate KeysAscend(s: seq<ListEntry>) { forall i, j :: 0 <= i < j < |s| ==> Less(s[i].key, s[j].key) }

  ghost predicate KeysInOrder(s: seq<ListEntry>) { forall i, j :: 0 <= i < j < |s| ==> AtMost(s[i].key, s[j].key) }

  ghost predicate Ascend(s: seq<string>) { forall i, j :: 0 <= i < j < |s| ==> Less(s[i], s[j]) }

  ghost predicate DistinctKeys(s: seq<ListEntry>) { forall i, j :: 0 <= i < j < |s| ==> s[i].key != s[j].key }

  lemma {:induction false} DedupAscends(s: seq<string>)
    requires Sorting.Sorted(s, AtMost)
    ensures Ascend(Dedup(s))
    ensures forall x :: x in Dedup(s) <==> x in s
    ensures |s| > 0 ==> |Dedup(s)| > 0 && Dedup(s)[0] == s[0]
  {
    if |s| >= 2 {
      DedupAscends(s[1..]);
      Seqs.ConsTail(s);
      if s[0] != s[1] {
        var rest := Dedup(s[1..]);
        forall j | 0 <= j < |rest| ensures Less(s[0], rest[j]) {
          assert AtMost(s[0], s[1]);
          Trichotomy(s[0], s[1]);
          if j > 0 { Transitive(s[0], rest[0], rest[j]); }
        }
      }
    }
  }

  /** The prefixes of a listing always ascend; its files do when the snapshot has no
      key twice. */
  lemma ListingOrder(entries: seq<ListEntry>, p: Params)
    ensures Ascend(AllItems(entries, p).prefixes) && KeysInOrder(AllItems(entries, p).contents)
    ensures DistinctKeys(Files(entries, p.prefix)) ==> KeysAscend(AllItems(entries, p).contents)
  {
    ByKeyOrder();
    var files, dirs := Files(entries, p.prefix), Dirs(entries, p.prefix);
    Sorting.SortSorts(files, ByKey);
    Sorting.SortSorts(dirs, AtMost);
    DedupAscends(Sorting.Sort(dirs, AtMost));
    var s := Sorting.Sort(files, ByKey);
    forall i, j | 0 <= i < j < |s| ensures AtMost(s[i].key, s[j].key) {
      assert ByKey(s[i], s[j]);
    }
    if DistinctKeys(files) {
      DistinctSurvivesSort(files, s);
      forall i, j | 0 <= i < j < |s| ensures Less(s[i].key, s[j].key) {
        Trichotomy(s[i].key, s[j].key);
      }
    }
  }

  lemma {:induction false} KeysMultiset(a: seq<ListEntry>)
    requires DistinctKeys(a)
    ensures forall x, y :: multiset(a)[x] > 0 && multiset(a)[y] > 0 && x.key == y.key ==> x == y
    ensures forall x :: multiset(a)[x] <= 1
  {
    if |a| > 0 {
      KeysMultiset(a[1..]);
      Sorting.HeadTail(a);
      forall x | x in a[1..] ensures x.key != a[0].key {
        var i :| 0 <= i < |a[1..]| && a[1..][i] == x;
        assert a[i + 1] == x;
      }
    }
  }

  lemma DistinctSurvivesSort(a: seq<ListEntry>, s: seq<ListEntry>)
    requires DistinctKeys(a) && multiset(a) == multiset(s)
    ensures DistinctKeys(s)
  {
    KeysMultiset(a);
    forall i, j | 0 <= i < j < |s| ensures s[i].key != s[j].key {
      assert s[i] in multiset(s) && s[j] in multiset(s);
      if s[i].key == s[j].key {
        Sorting.Twice(s, i, j);
        assert false;
      }
    }
  }

  /** Past a key, an ordered list is a suffix of itself. */
  lemma {:induction false} FilesAfterSuffix(s: seq<ListEntry>, key: string) returns (n: nat)
    requires KeysInOrder(s)
    ensures n <= |s| && FilesAfter(s, key) == s[n..]
    ensures forall i :: 0 <= i < n ==> AtMost(s[i].key, key)
    ensures forall i :: n <= i < |s| ==> Less(key, s[i].key)
  {
    if |s| == 0 {
      n := 0;
    } else if Less(key, s[0].key) {
      n := 0;
      forall i | 0 <= i < |s| ensures Less(key, s[i].key) {
        if i > 0 { LessAtMost(key, s[0].key, s[i].key); }
      }
      AllFilesAfter(s, key);
    } else {
      n := FilesAfterSuffix(s[1..], key);
      Seqs.DropDrop(s, 1, n + 1);
      n := n + 1;
      forall i | 1 <= i < |s| ensures s[i] == s[1..][i - 1] {}
    }
  }

  lemma {:induction false} AllFilesAfter(s: seq<ListEntry>, key: string)
    requires forall i :: 0 <= i < |s| ==> Less(key, s[i].key)
    ensures FilesAfter(s, key) == s
  {
    if |s| > 0 {
      AllFilesAfter(s[1..], key);
      Seqs.ConsTail(s);
    }
  }

  lemma {:induction false} PrefixesAfterSuffix(s: seq<string>, key: string) returns (n: nat)
    requires Ascend(s)
    ensures n <= |s| && PrefixesAfter(s, key) == s[n..]
    ensures forall i :: 0 <= i < n ==> AtMost(s[i], key)
    ensures forall i :: n <= i < |s| ==> Less(key, s[i])
  {
    if |s| == 0 {
      n := 0;
    } else if Less(key, s[0]) {
      n := 0;
      forall i | 0 <= i < |s| ensures Less(key, s[i]) {
        if i > 0 { Transitive(key, s[0], s[i]); }
      }
      AllPrefixesAfter(s, key);
    } else {
      n := PrefixesAfterSuffix(s[1..], key);
      Seqs.DropDrop(s, 1, n + 1);
      n := n + 1;
      forall i | 1 <= i < |s| ensures s[i] == s[1..][i - 1] {}
    }
  }

  lemma {:induction false} AllPrefixesAfter(s: seq<string>, key: string)
    requires forall i :: 0 <= i < |s| ==> Less(key, s[i])
    ensures PrefixesAfter(s, key) == s
  {
    if |s| > 0 {
      AllPrefixesAfter(s[1..], key);
      Seqs.ConsTail(s);
    }
  }
}
