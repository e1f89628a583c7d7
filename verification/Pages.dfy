/** Following a listing from page to page. */
module Pages {
  import opened Options
  import opened Lex
  import opened Paging
  import Seqs
  import Sorting
  import opened Octets

  /** Where the next page starts in the files-then-prefixes sequence. */
  datatype Resume = Start | AfterContent(key: string) | AfterPrefix(prefix: string)

  datatype Page = Page(contents: seq<ListEntry>, prefixes: seq<string>, truncated: bool)

  function TakeUpTo<T>(s: seq<T>, n: nat): seq<T> { if n < |s| then s[..n] else s }

  /** One page of a block: files first, then prefixes in the room left. */
  function Block(files: seq<ListEntry>, prefixes: seq<string>, cap: nat): Page {
    var c := TakeUpTo(files, cap);
    var p := TakeUpTo(prefixes, cap - |c|);
    Page(c, p, |files| + |prefixes| > |c| + |p|)
  }

  /** `render_page`: the page a request gets. */
  function PageOf(items: Items, resume: Resume, cap: nat): Page {
    if cap == 0 then Page([], [], false)
    else
      match resume
      case Start => Block(items.contents, items.prefixes, cap)
      case AfterContent(key) => Block(FilesAfter(items.contents, key), items.prefixes, cap)
      case AfterPrefix(prefix) =>
        var rest := PrefixesAfter(items.prefixes, prefix);
        Page([], TakeUpTo(rest, cap), |rest| > cap)
  }

  /** What a truncated page's token names: its last item. */
  function NextResume(page: Page): Resume {
    if |page.prefixes| > 0 then AfterPrefix(page.prefixes[|page.prefixes| - 1])
    else if |page.contents| > 0 then AfterContent(page.contents[|page.contents| - 1].key)
    else AfterContent("")
  }

  /* ---------- tokens ---------- */

  /** What the server signs and wraps with: an authentication code, UTF-8, and an
      envelope of printable characters. */
  datatype Codec = Codec(mac: seq<Byte> -> seq<Byte>, utf8: string -> seq<Byte>, text: seq<Byte> -> Option<string>,
                         wrap: seq<Byte> -> string, unwrap: string -> Option<seq<Byte>>)

  /** Codes are 32 bytes, UTF-8 reads back what it wrote and nothing else, and the
      envelope has one spelling for each content. */
  ghost predicate Sane(c: Codec) {
    && (forall bs :: |c.mac(bs)| == 32)
    && (forall s :: c.text(c.utf8(s)) == Some(s)) && (forall bs :: c.text(bs).Some? ==> bs == c.utf8(c.text(bs).value))
    && (forall bs :: c.unwrap(c.wrap(bs)) == Some(bs))
    && (forall t :: c.unwrap(t).Some? ==> t == c.wrap(c.unwrap(t).value))
  }

  /** The first ten bytes of the payload's authentication code seal the token. */
  function Sealed(c: Codec, payload: seq<Byte>): seq<Byte> { payload + TakeUpTo(c.mac(payload), 10) }

  function Sign(c: Codec, payload: string): string { c.wrap(Sealed(c, c.utf8(payload))) }

  function Open(c: Codec, token: string): Option<string> {
    var bytes := c.unwrap(token);
    if bytes.None? || |bytes.value| < 10 then None
    else
      var payload, sig := bytes.value[..|bytes.value| - 10], bytes.value[|bytes.value| - 10..];
      if sig == TakeUpTo(c.mac(payload), 10) then c.text(payload) else None
  }

  function Payload(r: Resume): string {
    match r
    case Start => "c|"
    case AfterContent(key) => "c|" + key
    case AfterPrefix(prefix) => "p|" + prefix
  }

  /** The payload split at its first bar. */
  function ParsePayload(p: string): Option<Resume> {
    if |p| >= 2 && p[0] == 'c' && p[1] == '|' then Some(AfterContent(p[2..]))
    else if |p| >= 2 && p[0] == 'p' && p[1] == '|' then Some(AfterPrefix(p[2..]))
    else None
  }

  function NextToken(c: Codec, page: Page): string { Sign(c, Payload(NextResume(page))) }

  function ResumeFromToken(c: Codec, token: string): Option<Resume> {
    match Open(c, token)
    case None => None
    case Some(p) => ParsePayload(p)
  }

  /** Only the last ten bytes of the content can be the code. */
  lemma SealedIff(c: Codec, bytes: seq<Byte>, payload: seq<Byte>)
    requires Sane(c) && |bytes| >= 10
    ensures bytes == Sealed(c, payload)
        <==> bytes[..|bytes| - 10] == payload && bytes[|bytes| - 10..] == TakeUpTo(c.mac(payload), 10)
  {
    Seqs.SplitAt(bytes, |bytes| - 10);
  }

  /** A token opens to a payload exactly when it is the one the server signs for it:
      there is no second spelling, and nothing else opens. */
  lemma OpenIff(c: Codec, token: string, payload: string)
    requires Sane(c)
    ensures Open(c, token) == Some(payload) <==> token == Sign(c, payload)
  {
    var sealed := Sealed(c, c.utf8(payload));
    SealedIff(c, sealed, c.utf8(payload));
    if Open(c, token) == Some(payload) {
      var bytes := c.unwrap(token).value;
      SealedIff(c, bytes, c.utf8(payload));
    }
  }

  /** The token a truncated page hands out resumes right after its last item. */
  lemma TokenRoundTrip(c: Codec, page: Page)
    requires Sane(c)
    ensures ResumeFromToken(c, NextToken(c, page)) == Some(NextResume(page))
  {
    var r := NextResume(page);
    OpenIff(c, NextToken(c, page), Payload(r));
    var p := Payload(r);
    match r
    case AfterContent(key) => assert p[2..] == key;
    case AfterPrefix(prefix) => assert p[2..] == prefix;
  }

  /* ---------- V1 markers ---------- */

  predicate EndsWithSlash(s: string) { |s| > 0 && s[|s| - 1] == '/' }

  /** V1 NextMarker, given with a delimiter: the last prefix, else the last key. */
  function NextMarker(page: Page): string {
    if |page.prefixes| > 0 then page.prefixes[|page.prefixes| - 1]
    else if |page.contents| > 0 then page.contents[|page.contents| - 1].key
    else ""
  }

  function ResumeFromMarker(marker: string, delimited: bool): Resume {
    if EndsWithSlash(marker) && delimited then AfterPrefix(marker) else AfterContent(marker)
  }

  /** A V1 marker resumes where the V2 token of the same page would exactly when the
      page's last item ends with a slash just if it is a prefix. */
  lemma MarkerIsTokenIff(page: Page)
    requires |page.contents| + |page.prefixes| > 0
    ensures ResumeFromMarker(NextMarker(page), true) == NextResume(page)
        <==> (EndsWithSlash(NextMarker(page)) <==> |page.prefixes| > 0)
  {
  }

  /* ---------- following the pages ---------- */

  datatype Item = AFile(entry: ListEntry) | APrefix(prefix: string)

  function ItemsOf(files: seq<ListEntry>, prefixes: seq<string>): seq<Item> {
    seq(|files|, i requires 0 <= i < |files| => AFile(files[i]))
    + seq(|prefixes|, i requires 0 <= i < |prefixes| => APrefix(prefixes[i]))
  }

  /** What is still to come from a resume point. */
  function Rest(items: Items, r: Resume): (seq<ListEntry>, seq<string>) {
    match r
    case Start => (items.contents, items.prefixes)
    case AfterContent(key) => (FilesAfter(items.contents, key), items.prefixes)
    case AfterPrefix(prefix) => ([], PrefixesAfter(items.prefixes, prefix))
  }

  function RestSize(items: Items, r: Resume): nat { |Rest(items, r).0| + |Rest(items, r).1| }

  ghost predicate Listing(items: Items) { KeysInOrder(items.contents) && Ascend(items.prefixes) }

  /** Every page is the front block of what is still to come. */
  lemma PageIsBlock(items: Items, r: Resume, cap: nat)
    requires cap > 0
    ensures PageOf(items, r, cap) == Block(Rest(items, r).0, Rest(items, r).1, cap)
  {
  }

  /** The files past the last file of a page are among those the page left. */
  lemma FilesLeft(s: seq<ListEntry>, r: seq<ListEntry>, n: nat, k: nat)
    requires KeysInOrder(s) && n <= |s| && r == s[n..] && 0 < k <= |r|
    ensures |FilesAfter(s, r[k - 1].key)| <= |r| - k
    ensures KeysAscend(s) ==> FilesAfter(s, r[k - 1].key) == r[k..]
  {
    var key := r[k - 1].key;
    assert key == s[n + k - 1].key;
    var m := FilesAfterSuffix(s, key);
    Trichotomy(key, key);
    assert m >= n + k;
    if KeysAscend(s) {
      if n + k < |s| {
        assert Less(s[n + k - 1].key, s[n + k].key);
      }
      assert m == n + k;
      Seqs.DropDrop(s, n, n + k);
    }
  }

  lemma PrefixesLeft(s: seq<string>, r: seq<string>, n: nat, k: nat)
    requires Ascend(s) && n <= |s| && r == s[n..] && 0 < k <= |r|
    ensures PrefixesAfter(s, r[k - 1]) == r[k..]
  {
    var key := r[k - 1];
    assert key == s[n + k - 1];
    var m := PrefixesAfterSuffix(s, key);
    Trichotomy(key, key);
    assert m >= n + k;
    if n + k < |s| {
      assert Less(s[n + k - 1], s[n + k]);
    }
    assert m == n + k;
    Seqs.DropDrop(s, n, n + k);
  }

  lemma RestIsSuffix(items: Items, r: Resume) returns (n: nat, m: nat)
    requires Listing(items)
    ensures n <= |items.contents| && m <= |items.prefixes|
    ensures Rest(items, r) == (items.contents[n..], items.prefixes[m..])
  {
    assert items.contents[0..] == items.contents && items.prefixes[0..] == items.prefixes;
    assert items.contents[|items.contents|..] == [];
    match r
    case Start =>
      n, m := 0, 0;
    case AfterContent(key) =>
      n := FilesAfterSuffix(items.contents, key);
      m := 0;
    case AfterPrefix(prefix) =>
      n := |items.contents|;
      m := PrefixesAfterSuffix(items.prefixes, prefix);
  }

  /** `p` shows the front of `rest` and leaves `later`: strictly less, and when the
      keys are distinct exactly what it did not show. */
  ghost predicate Advances(rest: (seq<ListEntry>, seq<string>), p: Page, later: (seq<ListEntry>, seq<string>),
                           exact: bool) {
    && |p.contents| <= |rest.0| && |p.prefixes| <= |rest.1| && |p.contents| + |p.prefixes| > 0
    && |later.0| + |later.1| + |p.contents| + |p.prefixes| <= |rest.0| + |rest.1|
    && (exact ==> later == (rest.0[|p.contents|..], rest.1[|p.prefixes|..]))
  }

  lemma AdvancesInPrefixes(items: Items, files: seq<ListEntry>, prefixes: seq<string>, m: nat, p: Page)
    requires Ascend(items.prefixes) && m <= |items.prefixes| && prefixes == items.prefixes[m..]
    requires 0 < |p.prefixes| <= |prefixes| && p.prefixes == prefixes[..|p.prefixes|] && |p.contents| == |files|
    ensures Advances((files, prefixes), p, Rest(items, NextResume(p)), true)
  {
    PrefixesLeft(items.prefixes, prefixes, m, |p.prefixes|);
    DropAll(files);
  }

  lemma AdvancesInFiles(items: Items, files: seq<ListEntry>, n: nat, p: Page)
    requires KeysInOrder(items.contents) && n <= |items.contents| && files == items.contents[n..]
    requires 0 < |p.contents| <= |files| && p.contents == files[..|p.contents|] && |p.prefixes| == 0
    ensures Advances((files, items.prefixes), p, Rest(items, NextResume(p)), KeysAscend(items.contents))
  {
    FilesLeft(items.contents, files, n, |p.contents|);
    DropNone(items.prefixes);
  }

  lemma DropAll<T>(s: seq<T>)
    ensures s[|s|..] == []
  {
  }

  lemma DropNone<T>(s: seq<T>)
    ensures s[0..] == s
  {
  }

  lemma PageAdvances(items: Items, r: Resume, cap: nat)
    requires Listing(items) && cap > 0 && PageOf(items, r, cap).truncated
    ensures var p := PageOf(items, r, cap);
            Advances(Rest(items, r), p, Rest(items, NextResume(p)), KeysAscend(items.contents))
  {
    PageIsBlock(items, r, cap);
    var rest := Rest(items, r);
    var p := Block(rest.0, rest.1, cap);
    BlockShape(rest.0, rest.1, cap);
    var n, m := RestIsSuffix(items, r);
    if |p.prefixes| > 0 {
      AdvancesInPrefixes(items, rest.0, rest.1, m, p);
    } else {
      AdvancesInFiles(items, rest.0, n, p);
    }
  }

  /** The pages a client sees following tokens over one snapshot, asking for
      `caps(i)` items on the i-th page. */
  function Follow(items: Items, r: Resume, caps: nat -> nat, i: nat): seq<Page>
    requires Listing(items) && forall k :: caps(k) > 0
    decreases RestSize(items, r)
  {
    var p := PageOf(items, r, caps(i));
    if p.truncated then
      PageAdvances(items, r, caps(i));
      [p] + Follow(items, NextResume(p), caps, i + 1)
    else [p]
  }

  function Shown(pages: seq<Page>): seq<Item> {
    if |pages| == 0 then []
    else ItemsOf(pages[0].contents, pages[0].prefixes) + Shown(pages[1..])
  }

  lemma SplitItems(files: seq<ListEntry>, prefixes: seq<string>, a: nat, c: nat)
    requires a <= |files| && c <= |prefixes| && (c > 0 ==> a == |files|)
    ensures ItemsOf(files[..a], prefixes[..c]) + ItemsOf(files[a..], prefixes[c..]) == ItemsOf(files, prefixes)
  {
  }

  lemma SplitFiles(files: seq<ListEntry>, prefixes: seq<string>, a: nat)
    requires a <= |files|
    ensures ItemsOf(files[..a], []) + ItemsOf(files[a..], prefixes) == ItemsOf(files, prefixes)
  {
    SplitItems(files, prefixes, a, 0);
    assert prefixes[..0] == [] && prefixes[0..] == prefixes;
  }

  lemma BlockShape(files: seq<ListEntry>, prefixes: seq<string>, cap: nat)
    ensures var p := Block(files, prefixes, cap);
            && |p.contents| <= |files| && |p.prefixes| <= |prefixes| && |p.contents| + |p.prefixes| <= cap
            && p.contents == files[..|p.contents|] && p.prefixes == prefixes[..|p.prefixes|]
            && (|p.prefixes| > 0 ==> |p.contents| == |files|)
            && (!p.truncated ==> p.contents == files && p.prefixes == prefixes)
  {
  }

  lemma ShownCons(p: Page, later: seq<Page>)
    ensures Shown([p] + later) == ItemsOf(p.contents, p.prefixes) + Shown(later)
    ensures Shown([p]) == ItemsOf(p.contents, p.prefixes)
  {
    Seqs.UnCons(p, later);
    assert [p][1..] == [];
    Seqs.EmptyConcat(ItemsOf(p.contents, p.prefixes));
  }

  /** Following tokens with any caps shows every item still to come once, in order. */
  lemma {:induction false} FollowShowsEverything(items: Items, r: Resume, caps: nat -> nat, i: nat)
    requires Listing(items) && KeysAscend(items.contents) && forall k :: caps(k) > 0
    ensures Shown(Follow(items, r, caps, i)) == ItemsOf(Rest(items, r).0, Rest(items, r).1)
    decreases RestSize(items, r)
  {
    var p, rest := PageOf(items, r, caps(i)), Rest(items, r);
    PageIsBlock(items, r, caps(i));
    BlockShape(rest.0, rest.1, caps(i));
    if p.truncated {
      PageAdvances(items, r, caps(i));
      FollowShowsEverything(items, NextResume(p), caps, i + 1);
      ShownCons(p, Follow(items, NextResume(p), caps, i + 1));
      SplitItems(rest.0, rest.1, |p.contents|, |p.prefixes|);
    } else {
      ShownCons(p, []);
    }
  }

  /** Only the last page says it is not truncated, and no page exceeds its cap. */
  ghost predicate Marked(pages: seq<Page>, caps: nat -> nat, i: nat) {
    && |pages| > 0
    && (forall j :: 0 <= j < |pages| ==> (pages[j].truncated <==> j < |pages| - 1))
    && (forall j :: 0 <= j < |pages| ==> |pages[j].contents| + |pages[j].prefixes| <= caps(i + j))
  }

  lemma MarkedCons(p: Page, later: seq<Page>, caps: nat -> nat, i: nat)
    requires p.truncated && |p.contents| + |p.prefixes| <= caps(i) && Marked(later, caps, i + 1)
    ensures Marked([p] + later, caps, i)
  {
    var pages := [p] + later;
    forall j | 0 <= j < |pages|
      ensures pages[j].truncated <==> j < |pages| - 1
      ensures |pages[j].contents| + |pages[j].prefixes| <= caps(i + j)
    {
      if j > 0 {
        assert pages[j] == later[j - 1];
        assert |later[j - 1].contents| + |later[j - 1].prefixes| <= caps(i + 1 + (j - 1));
      }
    }
  }

  lemma MarkedOne(p: Page, caps: nat -> nat, i: nat)
    requires !p.truncated && |p.contents| + |p.prefixes| <= caps(i)
    ensures Marked([p], caps, i)
  {
  }

  lemma {:induction false} FollowMarksTheEnd(items: Items, r: Resume, caps: nat -> nat, i: nat)
    requires Listing(items) && forall k :: caps(k) > 0
    ensures Marked(Follow(items, r, caps, i), caps, i)
    decreases RestSize(items, r)
  {
    var p, rest := PageOf(items, r, caps(i)), Rest(items, r);
    PageIsBlock(items, r, caps(i));
    BlockShape(rest.0, rest.1, caps(i));
    if p.truncated {
      PageAdvances(items, r, caps(i));
      FollowMarksTheEnd(items, NextResume(p), caps, i + 1);
      MarkedCons(p, Follow(items, NextResume(p), caps, i + 1), caps, i);
    } else {
      MarkedOne(p, caps, i);
    }
  }

  /** Without distinct keys following tokens still never shows more than is there. */
  lemma {:induction false} FollowShowsAtMost(items: Items, r: Resume, caps: nat -> nat, i: nat)
    requires Listing(items) && forall k :: caps(k) > 0
    ensures |Shown(Follow(items, r, caps, i))| <= RestSize(items, r)
    decreases RestSize(items, r)
  {
    var p, rest := PageOf(items, r, caps(i)), Rest(items, r);
    PageIsBlock(items, r, caps(i));
    BlockShape(rest.0, rest.1, caps(i));
    if p.truncated {
      PageAdvances(items, r, caps(i));
      FollowShowsAtMost(items, NextResume(p), caps, i + 1);
      ShownCons(p, Follow(items, NextResume(p), caps, i + 1));
    } else {
      ShownCons(p, []);
    }
  }

  /** Two files with one key: a page that ends on the first loses the second. */
  lemma TwinKeyLost(items: Items, caps: nat -> nat, k: nat)
    requires Listing(items) && forall j :: caps(j) > 0
    requires k + 1 < |items.contents| && items.contents[k].key == items.contents[k + 1].key && caps(0) == k + 1
    ensures |Shown(Follow(items, Start, caps, 0))| < |items.contents| + |items.prefixes|
  {
    var p := PageOf(items, Start, caps(0));
    BlockShape(items.contents, items.prefixes, caps(0));
    assert |p.contents| == k + 1 && |p.prefixes| == 0 && p.truncated;
    var key := items.contents[k].key;
    var m := FilesAfterSuffix(items.contents, key);
    Trichotomy(key, key);
    assert m >= k + 2;
    PageAdvances(items, Start, caps(0));
    FollowShowsAtMost(items, NextResume(p), caps, 1);
    ShownCons(p, Follow(items, NextResume(p), caps, 1));
  }

  /** Whatever caps a client asks for, it sees every item once and in order: that
      holds exactly when no two files share a key. */
  lemma EveryPagingCompleteIff(items: Items)
    requires Listing(items)
    ensures KeysAscend(items.contents)
        <==> forall caps: nat -> nat | (forall k :: caps(k) > 0) ::
               Shown(Follow(items, Start, caps, 0)) == ItemsOf(items.contents, items.prefixes)
  {
    if KeysAscend(items.contents) {
      forall caps: nat -> nat | forall k :: caps(k) > 0
        ensures Shown(Follow(items, Start, caps, 0)) == ItemsOf(items.contents, items.prefixes)
      {
        FollowShowsEverything(items, Start, caps, 0);
      }
    } else {
      var k := Twins(items.contents);
      var caps: nat -> nat := _ => k + 1;
      TwinKeyLost(items, caps, k);
      assert |ItemsOf(items.contents, items.prefixes)| == |items.contents| + |items.prefixes|;
      assert Shown(Follow(items, Start, caps, 0)) != ItemsOf(items.contents, items.prefixes);
    }
  }

  /** In an ordered list that is not strictly ascending two neighbours are equal. */
  lemma Twins(s: seq<ListEntry>) returns (k: nat)
    requires KeysInOrder(s) && !KeysAscend(s)
    ensures k + 1 < |s| && s[k].key == s[k + 1].key
  {
    var i, j :| 0 <= i < j < |s| && !Less(s[i].key, s[j].key);
    assert AtMost(s[i].key, s[j].key);
    Trichotomy(s[i].key, s[j].key);
    assert AtMost(s[i].key, s[i + 1].key);
    assert i + 1 < j ==> AtMost(s[i + 1].key, s[j].key);
    Trichotomy(s[i].key, s[i + 1].key);
    k := i;
  }

  lemma ListingContents(entries: seq<ListEntry>, p: Params)
    ensures multiset(AllItems(entries, p).contents) == multiset(Files(entries, p.prefix))
    ensures forall d :: d in AllItems(entries, p).prefixes <==> p.delimiter.Some? && d in Dirs(entries, p.prefix)
  {
    ByKeyOrder();
    var files, dirs := Files(entries, p.prefix), Dirs(entries, p.prefix);
    Sorting.SortSorts(files, ByKey);
    Sorting.SortSorts(dirs, AtMost);
    DedupAscends(Sorting.Sort(dirs, AtMost));
    Sorting.SameElements(Sorting.Sort(dirs, AtMost), dirs);
  }

  /** Asking for no items gets an empty page that is the last, whatever is there. */
  lemma ZeroCapEnds(items: Items, r: Resume)
    ensures var p := PageOf(items, r, 0); p.contents == [] && p.prefixes == [] && !p.truncated
  {
  }

  /* ---------- V1 paging with a delimiter ---------- */

  /** Directory keys end with a slash and file keys never do. */
  ghost predicate Slashed(items: Items) {
    && (forall i :: 0 <= i < |items.contents| ==> !EndsWithSlash(items.contents[i].key))
    && (forall i :: 0 <= i < |items.prefixes| ==> EndsWithSlash(items.prefixes[i]))
  }

  lemma MarkerResumes(items: Items, r: Resume, cap: nat)
    requires Listing(items) && Slashed(items) && cap > 0 && PageOf(items, r, cap).truncated
    ensures var p := PageOf(items, r, cap);
            ResumeFromMarker(NextMarker(p), true) == NextResume(p)
  {
    var rest := Rest(items, r);
    var n, m := RestIsSuffix(items, r);
    PageAdvances(items, r, cap);
    PageIsBlock(items, r, cap);
    BlockShape(rest.0, rest.1, cap);
    var p := PageOf(items, r, cap);
    forall i | 0 <= i < |p.prefixes| ensures EndsWithSlash(p.prefixes[i]) {
      assert p.prefixes[i] == rest.1[i] == items.prefixes[m + i];
    }
    forall i | 0 <= i < |p.contents| ensures !EndsWithSlash(p.contents[i].key) {
      assert p.contents[i] == rest.0[i] == items.contents[n + i];
    }
    MarkerIsTokenIff(p);
  }

  /** The pages a V1 client sees following NextMarker. */
  function FollowMarkers(items: Items, r: Resume, caps: nat -> nat, i: nat): seq<Page>
    requires Listing(items) && Slashed(items) && forall k :: caps(k) > 0
    decreases RestSize(items, r)
  {
    var p := PageOf(items, r, caps(i));
    if p.truncated then
      PageAdvances(items, r, caps(i));
      MarkerResumes(items, r, caps(i));
      [p] + FollowMarkers(items, ResumeFromMarker(NextMarker(p), true), caps, i + 1)
    else [p]
  }

  /** V1 markers and V2 tokens walk through the same pages. */
  lemma {:induction false} MarkersFollowTokens(items: Items, r: Resume, caps: nat -> nat, i: nat)
    requires Listing(items) && Slashed(items) && forall k :: caps(k) > 0
    ensures FollowMarkers(items, r, caps, i) == Follow(items, r, caps, i)
    decreases RestSize(items, r)
  {
    var p := PageOf(items, r, caps(i));
    if p.truncated {
      PageAdvances(items, r, caps(i));
      MarkerResumes(items, r, caps(i));
      MarkersFollowTokens(items, NextResume(p), caps, i + 1);
    }
  }

  /** The snapshot's directories are the entries that end with a slash. */
  ghost predicate SlashedSnapshot(entries: seq<ListEntry>) {
    forall i :: 0 <= i < |entries| ==> (entries[i].isDir <==> EndsWithSlash(entries[i].key))
  }

  lemma {:induction false} SlashedParts(entries: seq<ListEntry>, prefix: string)
    requires SlashedSnapshot(entries)
    ensures forall f :: f in Files(entries, prefix) ==> !EndsWithSlash(f.key)
    ensures forall d :: d in Dirs(entries, prefix) ==> EndsWithSlash(d)
  {
    if |entries| > 0 {
      assert SlashedSnapshot(entries[1..]) by {
        forall i | 0 <= i < |entries[1..]| ensures entries[1..][i].isDir <==> EndsWithSlash(entries[1..][i].key) {
          assert entries[1..][i] == entries[i + 1];
        }
      }
      SlashedParts(entries[1..], prefix);
    }
  }

  lemma SnapshotSlashed(entries: seq<ListEntry>, p: Params)
    requires SlashedSnapshot(entries)
    ensures Slashed(AllItems(entries, p))
  {
    SlashedParts(entries, p.prefix);
    ListingContents(entries, p);
    var items := AllItems(entries, p);
    forall i | 0 <= i < |items.contents| ensures !EndsWithSlash(items.contents[i].key) {
      assert items.contents[i] in multiset(items.contents);
    }
    forall i | 0 <= i < |items.prefixes| ensures EndsWithSlash(items.prefixes[i]) {
      assert items.prefixes[i] in items.prefixes;
    }
  }

  function MarkerResume(marker: Option<string>): Resume {
    if marker.None? then Start else ResumeFromMarker(marker.value, true)
  }

  /** V1 requests with a delimiter over one snapshot, each carrying the NextMarker of the
      page before. */
  function ServeMarkers(entries: seq<ListEntry>, p: Params, marker: Option<string>, caps: nat -> nat, i: nat)
    : seq<Page>
    requires !p.isV2 && p.delimiter.Some? && SlashedSnapshot(entries) && forall k :: caps(k) > 0
    decreases RestSize(AllItems(entries, p), MarkerResume(marker))
  {
    var page := PageOf(Selected(entries, p), MarkerResume(marker), caps(i));
    if page.truncated then
      ListingOrder(entries, p);
      SnapshotSlashed(entries, p);
      PageAdvances(AllItems(entries, p), MarkerResume(marker), caps(i));
      MarkerResumes(AllItems(entries, p), MarkerResume(marker), caps(i));
      [page] + ServeMarkers(entries, p, Some(NextMarker(page)), caps, i + 1)
    else [page]
  }

  /** From the snapshot, V1 markers walk through the pages of the resume points. */
  lemma {:induction false} ServeMarkersFollow(entries: seq<ListEntry>, p: Params, marker: Option<string>,
                                              caps: nat -> nat, i: nat)
    requires !p.isV2 && p.delimiter.Some? && SlashedSnapshot(entries) && forall k :: caps(k) > 0
    ensures Listing(AllItems(entries, p))
    ensures ServeMarkers(entries, p, marker, caps, i) == Follow(AllItems(entries, p), MarkerResume(marker), caps, i)
    decreases RestSize(AllItems(entries, p), MarkerResume(marker))
  {
    ListingOrder(entries, p);
    SnapshotSlashed(entries, p);
    var page := PageOf(AllItems(entries, p), MarkerResume(marker), caps(i));
    if page.truncated {
      ServeMarkersNext(entries, p, marker, caps, i);
      ServeMarkersFollow(entries, p, Some(NextMarker(page)), caps, i + 1);
    } else {
      FollowLast(AllItems(entries, p), MarkerResume(marker), caps, i);
      ServeMarkersLast(entries, p, marker, caps, i);
    }
  }

  lemma ServeMarkersNext(entries: seq<ListEntry>, p: Params, marker: Option<string>, caps: nat -> nat, i: nat)
    requires !p.isV2 && p.delimiter.Some? && SlashedSnapshot(entries) && forall k :: caps(k) > 0
    requires Listing(AllItems(entries, p)) && PageOf(AllItems(entries, p), MarkerResume(marker), caps(i)).truncated
    ensures var items, page := AllItems(entries, p), PageOf(AllItems(entries, p), MarkerResume(marker), caps(i));
            var next := Some(NextMarker(page));
            && RestSize(items, MarkerResume(next)) < RestSize(items, MarkerResume(marker))
            && ServeMarkers(entries, p, marker, caps, i) == [page] + ServeMarkers(entries, p, next, caps, i + 1)
            && Follow(items, MarkerResume(marker), caps, i) == [page] + Follow(items, MarkerResume(next), caps, i + 1)
  {
    SnapshotSlashed(entries, p);
    MarkerAdvances(AllItems(entries, p), MarkerResume(marker), caps(i));
    FollowStep(AllItems(entries, p), MarkerResume(marker), caps, i);
    ServeMarkersStep(entries, p, marker, caps, i);
  }

  lemma ServeMarkersLast(entries: seq<ListEntry>, p: Params, marker: Option<string>, caps: nat -> nat, i: nat)
    requires !p.isV2 && p.delimiter.Some? && SlashedSnapshot(entries) && forall k :: caps(k) > 0
    requires !PageOf(AllItems(entries, p), MarkerResume(marker), caps(i)).truncated
    ensures ServeMarkers(entries, p, marker, caps, i) == [PageOf(AllItems(entries, p), MarkerResume(marker), caps(i))]
  {
  }

  lemma MarkerAdvances(items: Items, r: Resume, cap: nat)
    requires Listing(items) && Slashed(items) && cap > 0 && PageOf(items, r, cap).truncated
    ensures var page := PageOf(items, r, cap);
            && MarkerResume(Some(NextMarker(page))) == NextResume(page)
            && RestSize(items, NextResume(page)) < RestSize(items, r)
  {
    PageAdvances(items, r, cap);
    MarkerResumes(items, r, cap);
  }

  lemma ServeMarkersStep(entries: seq<ListEntry>, p: Params, marker: Option<string>, caps: nat -> nat, i: nat)
    requires !p.isV2 && p.delimiter.Some? && SlashedSnapshot(entries) && forall k :: caps(k) > 0
    requires PageOf(AllItems(entries, p), MarkerResume(marker), caps(i)).truncated
    ensures var page := PageOf(AllItems(entries, p), MarkerResume(marker), caps(i));
            ServeMarkers(entries, p, marker, caps, i)
            == [page] + ServeMarkers(entries, p, Some(NextMarker(page)), caps, i + 1)
  {
  }

  /* ---------- start-after ---------- */

  /** What a V2 request with start-after gets, page by page: the filter applies to
      the first page, the tokens that follow skip it. */
  function FollowAfter(items: Items, after: string, caps: nat -> nat): seq<Page>
    requires Listing(items) && forall k :: caps(k) > 0
  {
    var first := Items(FilesAfter(items.contents, after), PrefixesAfter(items.prefixes, after));
    var p := PageOf(first, Start, caps(0));
    if p.truncated then [p] + Follow(items, NextResume(p), caps, 1) else [p]
  }

  /** The pages show the filtered items exactly when no prefix was filtered out, or
      the first page reaches past the files, or it already shows everything. */
  lemma StartAfterExactIff(items: Items, after: string, caps: nat -> nat)
    requires Listing(items) && KeysAscend(items.contents) && forall k :: caps(k) > 0
    ensures var files, prefixes := FilesAfter(items.contents, after), PrefixesAfter(items.prefixes, after);
            Shown(FollowAfter(items, after, caps)) == ItemsOf(files, prefixes)
            <==> prefixes == items.prefixes || caps(0) > |files| || |files| + |prefixes| <= caps(0)
  {
    var files, prefixes := FilesAfter(items.contents, after), PrefixesAfter(items.prefixes, after);
    var p := Block(files, prefixes, caps(0));
    BlockShape(files, prefixes, caps(0));
    if !p.truncated {
      ShownCons(p, []);
    } else if |p.prefixes| > 0 {
      PastTheFiles(items, after, caps, p);
    } else {
      WithinTheFiles(items, after, caps, p);
      ItemsDiffer(files, prefixes, items.prefixes);
    }
  }

  lemma FollowAfterShows(items: Items, after: string, caps: nat -> nat, p: Page)
    requires Listing(items) && KeysAscend(items.contents) && forall k :: caps(k) > 0
    requires p == Block(FilesAfter(items.contents, after), PrefixesAfter(items.prefixes, after), caps(0))
    requires p.truncated
    ensures var later := Rest(items, NextResume(p));
            Shown(FollowAfter(items, after, caps)) == ItemsOf(p.contents, p.prefixes) + ItemsOf(later.0, later.1)
  {
    FollowShowsEverything(items, NextResume(p), caps, 1);
    ShownCons(p, Follow(items, NextResume(p), caps, 1));
  }

  /** A first page that reaches the prefixes resumes inside them. */
  lemma PastTheFiles(items: Items, after: string, caps: nat -> nat, p: Page)
    requires Listing(items) && KeysAscend(items.contents) && forall k :: caps(k) > 0
    requires p == Block(FilesAfter(items.contents, after), PrefixesAfter(items.prefixes, after), caps(0))
    requires p.truncated && |p.prefixes| > 0
    ensures Shown(FollowAfter(items, after, caps))
         == ItemsOf(FilesAfter(items.contents, after), PrefixesAfter(items.prefixes, after))
  {
    var files, prefixes := FilesAfter(items.contents, after), PrefixesAfter(items.prefixes, after);
    var m := PrefixesAfterSuffix(items.prefixes, after);
    BlockShape(files, prefixes, caps(0));
    PrefixesLeft(items.prefixes, prefixes, m, |p.prefixes|);
    FollowAfterShows(items, after, caps, p);
    DropAll(files);
    SplitItems(files, prefixes, |files|, |p.prefixes|);
  }

  /** A first page cut inside the files goes on to every prefix, filtered or not. */
  lemma WithinTheFiles(items: Items, after: string, caps: nat -> nat, p: Page)
    requires Listing(items) && KeysAscend(items.contents) && forall k :: caps(k) > 0
    requires p == Block(FilesAfter(items.contents, after), PrefixesAfter(items.prefixes, after), caps(0))
    requires p.truncated && |p.prefixes| == 0
    ensures Shown(FollowAfter(items, after, caps)) == ItemsOf(FilesAfter(items.contents, after), items.prefixes)
  {
    RestWithinFiles(items, after, p);
    FollowAfterShows(items, after, caps, p);
    BlockShape(FilesAfter(items.contents, after), PrefixesAfter(items.prefixes, after), caps(0));
    assert p.prefixes == [];
    SplitFiles(FilesAfter(items.contents, after), items.prefixes, |p.contents|);
  }

  lemma RestWithinFiles(items: Items, after: string, p: Page)
    requires Listing(items) && KeysAscend(items.contents) && p.prefixes == []
    requires 0 < |p.contents| <= |FilesAfter(items.contents, after)|
    requires p.contents == FilesAfter(items.contents, after)[..|p.contents|]
    ensures Rest(items, NextResume(p)) == (FilesAfter(items.contents, after)[|p.contents|..], items.prefixes)
  {
    var files := FilesAfter(items.contents, after);
    var n := FilesAfterSuffix(items.contents, after);
    FilesLeft(items.contents, files, n, |p.contents|);
    assert p.contents[|p.contents| - 1] == files[|p.contents| - 1];
  }

  lemma ItemsDiffer(files: seq<ListEntry>, p: seq<string>, q: seq<string>)
    ensures ItemsOf(files, p) == ItemsOf(files, q) <==> p == q
  {
    var a, c := ItemsOf(files, p), ItemsOf(files, q);
    if a == c {
      assert |p| == |q|;
      forall i | 0 <= i < |p| ensures p[i] == q[i] {
        assert a[|files| + i] == APrefix(p[i]) && c[|files| + i] == APrefix(q[i]);
      }
    }
  }

  /** Files "b" and "c", the directory "a/", start-after "a/", one item a page: the
      filter drops "a/", and the last page shows it. */
  lemma StartAfterForgets(b: ListEntry, c: ListEntry, caps: nat -> nat)
    requires b.key == "b" && c.key == "c" && (forall k :: caps(k) == 1)
    ensures var items := Items([b, c], ["a/"]);
            && Listing(items) && PrefixesAfter(items.prefixes, "a/") == []
            && APrefix("a/") in Shown(FollowAfter(items, "a/", caps))
  {
    var items := Items([b, c], ["a/"]);
    LettersOrdered();
    AllFilesAfter([b, c], "a/");
    var p := Block([b, c], [], 1);
    WithinTheFiles(items, "a/", caps, p);
    assert ItemsOf([b, c], ["a/"])[2] == APrefix("a/");
  }

  lemma LettersOrdered()
    ensures Less("b", "c") && AtMost("b", "c") && Less("a/", "b") && Less("a/", "c")
    ensures PrefixesAfter(["a/"], "a/") == []
  {
    Trichotomy("b", "c");
    Trichotomy("a/", "a/");
  }

  /* ---------- the pages a client is served, token by token ---------- */

  /** Later requests: the token is opened, the items are selected afresh from the
      snapshot, and the page's own token goes into the next request. A token that does
      not open ends it. */
  function ServeOn(c: Codec, entries: seq<ListEntry>, p: Params, token: string, caps: nat -> nat, i: nat)
    : Option<seq<Page>>
    requires Sane(c) && p.isV2 && forall k :: caps(k) > 0
    decreases var r := ResumeFromToken(c, token); if r.None? then 0 else RestSize(AllItems(entries, p), r.value)
  {
    var r := ResumeFromToken(c, token);
    if r.None? then None
    else
      var page := PageOf(Selected(entries, p.(token := Some(token))), r.value, caps(i));
      if page.truncated then
        ListingOrder(entries, p);
        PageAdvances(AllItems(entries, p), r.value, caps(i));
        TokenRoundTrip(c, page);
        Prepend(page, ServeOn(c, entries, p, NextToken(c, page), caps, i + 1))
      else Some([page])
  }

  function Prepend(page: Page, later: Option<seq<Page>>): Option<seq<Page>> {
    if later.None? then None else Some([page] + later.value)
  }

  /** The first request has no token. */
  function Serve(c: Codec, entries: seq<ListEntry>, p: Params, caps: nat -> nat): Option<seq<Page>>
    requires Sane(c) && p.isV2 && p.token.None? && forall k :: caps(k) > 0
  {
    var page := PageOf(Selected(entries, p), Start, caps(0));
    if page.truncated then Prepend(page, ServeOn(c, entries, p, NextToken(c, page), caps, 1)) else Some([page])
  }

  lemma {:induction false} ServeOnFollows(c: Codec, entries: seq<ListEntry>, p: Params, token: string,
                                          caps: nat -> nat, i: nat)
    requires Sane(c) && p.isV2 && (forall k :: caps(k) > 0) && ResumeFromToken(c, token).Some?
    ensures Listing(AllItems(entries, p))
    ensures ServeOn(c, entries, p, token, caps, i)
         == Some(Follow(AllItems(entries, p), ResumeFromToken(c, token).value, caps, i))
    decreases RestSize(AllItems(entries, p), ResumeFromToken(c, token).value)
  {
    ListingOrder(entries, p);
    var items, r := AllItems(entries, p), ResumeFromToken(c, token).value;
    var page := PageOf(items, r, caps(i));
    if page.truncated {
      ServeAdvances(c, entries, p, token, caps, i);
      ServeOnFollows(c, entries, p, NextToken(c, page), caps, i + 1);
      FollowStep(items, r, caps, i);
      ServeOnStep(c, entries, p, token, caps, i);
    } else {
      FollowLast(items, r, caps, i);
      ServeOnLast(c, entries, p, token, caps, i);
    }
  }

  lemma ServeAdvances(c: Codec, entries: seq<ListEntry>, p: Params, token: string, caps: nat -> nat, i: nat)
    requires Sane(c) && (forall k :: caps(k) > 0) && ResumeFromToken(c, token).Some?
    requires PageOf(AllItems(entries, p), ResumeFromToken(c, token).value, caps(i)).truncated
    ensures var items, r := AllItems(entries, p), ResumeFromToken(c, token).value;
            var page := PageOf(items, r, caps(i));
            && ResumeFromToken(c, NextToken(c, page)) == Some(NextResume(page))
            && RestSize(items, NextResume(page)) < RestSize(items, r)
  {
    ListingOrder(entries, p);
    PageAdvances(AllItems(entries, p), ResumeFromToken(c, token).value, caps(i));
    TokenRoundTrip(c, PageOf(AllItems(entries, p), ResumeFromToken(c, token).value, caps(i)));
  }

  lemma FollowLast(items: Items, r: Resume, caps: nat -> nat, i: nat)
    requires Listing(items) && (forall k :: caps(k) > 0) && !PageOf(items, r, caps(i)).truncated
    ensures Follow(items, r, caps, i) == [PageOf(items, r, caps(i))]
  {
  }

  lemma ServeOnLast(c: Codec, entries: seq<ListEntry>, p: Params, token: string, caps: nat -> nat, i: nat)
    requires Sane(c) && p.isV2 && (forall k :: caps(k) > 0) && ResumeFromToken(c, token).Some?
    requires !PageOf(AllItems(entries, p), ResumeFromToken(c, token).value, caps(i)).truncated
    ensures ServeOn(c, entries, p, token, caps, i)
         == Some([PageOf(AllItems(entries, p), ResumeFromToken(c, token).value, caps(i))])
  {
    assert Selected(entries, p.(token := Some(token))) == AllItems(entries, p);
  }

  lemma FollowStep(items: Items, r: Resume, caps: nat -> nat, i: nat)
    requires Listing(items) && (forall k :: caps(k) > 0) && PageOf(items, r, caps(i)).truncated
    ensures Follow(items, r, caps, i)
         == [PageOf(items, r, caps(i))] + Follow(items, NextResume(PageOf(items, r, caps(i))), caps, i + 1)
  {
  }

  lemma ServeOnStep(c: Codec, entries: seq<ListEntry>, p: Params, token: string, caps: nat -> nat, i: nat)
    requires Sane(c) && p.isV2 && (forall k :: caps(k) > 0) && ResumeFromToken(c, token).Some?
    requires PageOf(AllItems(entries, p), ResumeFromToken(c, token).value, caps(i)).truncated
    ensures var page := PageOf(AllItems(entries, p), ResumeFromToken(c, token).value, caps(i));
            ServeOn(c, entries, p, token, caps, i)
            == Prepend(page, ServeOn(c, entries, p, NextToken(c, page), caps, i + 1))
  {
    assert Selected(entries, p.(token := Some(token))) == AllItems(entries, p);
  }

  /** Signing, wrapping, opening and selecting afresh at every request changes nothing:
      no token the server hands out is refused, and the pages are those of walking the
      resume points, with the start-after filter on the first page only. */
  lemma ServeFollows(c: Codec, entries: seq<ListEntry>, p: Params, caps: nat -> nat)
    requires Sane(c) && p.isV2 && p.token.None? && (forall k :: caps(k) > 0)
    ensures Listing(AllItems(entries, p))
    ensures Serve(c, entries, p, caps)
         == Some(if p.startAfter.Some? then FollowAfter(AllItems(entries, p), p.startAfter.value, caps)
                 else Follow(AllItems(entries, p), Start, caps, 0))
  {
    ListingOrder(entries, p);
    var page := PageOf(Selected(entries, p), Start, caps(0));
    if page.truncated {
      TokenRoundTrip(c, page);
      ServeOnFollows(c, entries, p, NextToken(c, page), caps, 1);
    }
  }

  /** From the snapshot itself: with distinct file keys and no start-after, a client that
      follows the tokens it is given is served each matching file once, by key, then
      each matching directory once, ascending, and told at the last page that it is. */
  lemma SnapshotPages(c: Codec, entries: seq<ListEntry>, p: Params, caps: nat -> nat)
    requires Sane(c) && p.isV2 && p.token.None? && p.startAfter.None? && (forall k :: caps(k) > 0)
    requires DistinctKeys(Files(entries, p.prefix))
    ensures var items, pages := AllItems(entries, p), Serve(c, entries, p, caps);
            && KeysAscend(items.contents) && multiset(items.contents) == multiset(Files(entries, p.prefix))
            && Ascend(items.prefixes)
            && (forall d :: d in items.prefixes <==> p.delimiter.Some? && d in Dirs(entries, p.prefix))
            && pages.Some? && Shown(pages.value) == ItemsOf(items.contents, items.prefixes)
            && Marked(pages.value, caps, 0)
  {
    ListingOrder(entries, p);
    ListingContents(entries, p);
    ServeFollows(c, entries, p, caps);
    FollowShowsEverything(AllItems(entries, p), Start, caps, 0);
    FollowMarksTheEnd(AllItems(entries, p), Start, caps, 0);
  }

  /** Over one snapshot whose directories are the keys that end with a slash, a V1 client
      following NextMarker and a V2 client following tokens are served the same pages. */
  lemma DialectsAgree(c: Codec, entries: seq<ListEntry>, p: Params, caps: nat -> nat)
    requires Sane(c) && p.isV2 && p.token.None? && p.startAfter.None? && p.delimiter.Some?
    requires SlashedSnapshot(entries) && forall k :: caps(k) > 0
    ensures Serve(c, entries, p, caps) == Some(ServeMarkers(entries, p.(isV2 := false), None, caps, 0))
  {
    ServeFollows(c, entries, p, caps);
    ServeMarkersFollow(entries, p.(isV2 := false), None, caps, 0);
    assert AllItems(entries, p) == AllItems(entries, p.(isV2 := false));
  }
}
