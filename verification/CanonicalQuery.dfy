/** The canonical query string a signature covers: percent-encoded pairs, sorted,
    joined. */
module CanonicalQuery {
  import opened Lex
  import Seqs
  import Sorting
  import opened Octets

  /** A decoded query parameter. */
  datatype Pair = Pair(name: seq<Byte>, value: seq<Byte>)

  /** The same, percent-encoded. */
  datatype Encoded = Encoded(name: string, value: string)

  function Ascii(s: string): seq<Byte> { seq(|s|, i requires 0 <= i < |s| => s[i] as int % 256) }

  const SIGNATURE: seq<Byte> := Ascii("X-Amz-Signature")

  /* ---------- percent encoding ---------- */

  predicate Unreserved(b: Byte) {
    || 'A' as int <= b <= 'Z' as int || 'a' as int <= b <= 'z' as int || '0' as int <= b <= '9' as int
    || b == '_' as int || b == '-' as int || b == '~' as int || b == '.' as int
  }

  function Hex(n: nat): char
    requires n < 16
  {
    if n < 10 then (n + '0' as int) as char else (n - 10 + 'A' as int) as char
  }

  function EncodeByte(b: Byte, encodeSlash: bool): string {
    if Unreserved(b) || (b == '/' as int && !encodeSlash) then [b as char]
    else ['%', Hex(b / 16), Hex(b % 16)]
  }

  function Encode(bs: seq<Byte>, encodeSlash: bool): string {
    if |bs| == 0 then "" else EncodeByte(bs[0], encodeSlash) + Encode(bs[1..], encodeSlash)
  }

  /** `uri_encode`, byte by byte onto the output. */
  method UriEncode(prefix: string, bs: seq<Byte>, encodeSlash: bool) returns (output: string)
    ensures output == prefix + Encode(bs, encodeSlash)
  {
    output := prefix;
    for i := 0 to |bs|
      invariant output + Encode(bs[i..], encodeSlash) == prefix + Encode(bs, encodeSlash)
    {
      var b := bs[i];
      assert bs[i..][0] == b;
      Seqs.DropDrop(bs, i, i + 1);
      Seqs.Assoc(output, EncodeByte(b, encodeSlash), Encode(bs[i + 1..], encodeSlash));
      if Unreserved(b) {
        output := output + [b as char];
      } else if b == '/' as int && !encodeSlash {
        output := output + ['/'];
      } else {
        output := output + ['%', Hex(b / 16), Hex(b % 16)];
      }
    }
    assert bs[|bs|..] == [];
    Seqs.EmptyConcat(output);
  }

  function HexValue(c: char): nat {
    if '0' <= c <= '9' then c as int - '0' as int
    else if 'A' <= c <= 'F' then c as int - 'A' as int + 10
    else 0
  }

  function Decode(s: string): seq<Byte> {
    if |s| == 0 then []
    else if s[0] == '%' && |s| >= 3 then [HexValue(s[1]) * 16 + HexValue(s[2])] + Decode(s[3..])
    else [s[0] as int % 256] + Decode(s[1..])
  }

  lemma DecodeOne(b: Byte, encodeSlash: bool, rest: string)
    ensures Decode(EncodeByte(b, encodeSlash) + rest) == [b] + Decode(rest)
  {
    var e := EncodeByte(b, encodeSlash);
    if |e| == 1 {
      assert (e + rest)[1..] == rest;
    } else {
      assert HexValue(Hex(b / 16)) == b / 16 && HexValue(Hex(b % 16)) == b % 16;
      assert (e + rest)[3..] == rest;
    }
  }

  /** Encoding can be undone, so no two inputs share an encoding. */
  lemma {:induction false} DecodeEncode(bs: seq<Byte>, encodeSlash: bool)
    ensures Decode(Encode(bs, encodeSlash)) == bs
  {
    if |bs| > 0 {
      DecodeEncode(bs[1..], encodeSlash);
      DecodeOne(bs[0], encodeSlash, Encode(bs[1..], encodeSlash));
      Seqs.ConsTail(bs);
    }
  }

  predicate NoSeparator(s: string) { '&' !in s && '=' !in s }

  lemma {:induction false} EncodeNoSeparator(bs: seq<Byte>, encodeSlash: bool)
    ensures NoSeparator(Encode(bs, encodeSlash))
  {
    if |bs| > 0 {
      EncodeNoSeparator(bs[1..], encodeSlash);
      assert NoSeparator(EncodeByte(bs[0], encodeSlash));
    }
  }

  /* ---------- the canonical query ---------- */

  function EncodePair(p: Pair): Encoded { Encoded(Encode(p.name, true), Encode(p.value, true)) }

  function DecodePair(e: Encoded): Pair { Pair(Decode(e.name), Decode(e.value)) }

  function Map<T, U>(f: T -> U, s: seq<T>): (out: seq<U>)
    ensures |out| == |s|
  {
    if |s| == 0 then [] else [f(s[0])] + Map(f, s[1..])
  }

  function Kept(pairs: seq<Pair>, skipSignature: bool): seq<Pair> {
    if |pairs| == 0 then []
    else (if skipSignature && pairs[0].name == SIGNATURE then [] else [pairs[0]]) + Kept(pairs[1..], skipSignature)
  }

  /** By encoded name, then by encoded value. */
  predicate InOrder(a: Encoded, b: Encoded) {
    Less(a.name, b.name) || (a.name == b.name && AtMost(a.value, b.value))
  }

  function Render(e: Encoded): string { e.name + ['='] + e.value }

  function Join(es: seq<Encoded>): string {
    if |es| == 0 then ""
    else Render(es[0]) + JoinRest(es[1..])
  }

  function JoinRest(es: seq<Encoded>): string {
    if |es| == 0 then "" else ['&'] + (Render(es[0]) + JoinRest(es[1..]))
  }

  function Canonical(pairs: seq<Pair>, skipSignature: bool): string {
    Join(Sorting.Sort(Map(EncodePair, Kept(pairs, skipSignature)), InOrder))
  }

  lemma {:induction false} MapConcat<T, U>(f: T -> U, a: seq<T>, c: seq<T>)
    ensures Map(f, a + c) == Map(f, a) + Map(f, c)
  {
    if |a| == 0 {
      Seqs.EmptyConcat(c);
    } else {
      MapConcat(f, a[1..], c);
      Seqs.TailConcat(a, c);
      Seqs.Assoc([f(a[0])], Map(f, a[1..]), Map(f, c));
    }
  }

  lemma KeptSnoc(pairs: seq<Pair>, i: nat, skip: bool)
    requires i < |pairs|
    ensures Kept(pairs[..i + 1], skip)
         == Kept(pairs[..i], skip) + if skip && pairs[i].name == SIGNATURE then [] else [pairs[i]]
  {
    KeptConcat(pairs[..i], [pairs[i]], skip);
    assert pairs[..i + 1] == pairs[..i] + [pairs[i]];
    assert [pairs[i]][1..] == [];
  }

  lemma {:induction false} KeptConcat(a: seq<Pair>, c: seq<Pair>, skip: bool)
    ensures Kept(a + c, skip) == Kept(a, skip) + Kept(c, skip)
  {
    if |a| == 0 {
      Seqs.EmptyConcat(c);
    } else {
      KeptConcat(a[1..], c, skip);
      Seqs.TailConcat(a, c);
      var first := if skip && a[0].name == SIGNATURE then [] else [a[0]];
      Seqs.Assoc(first, Kept(a[1..], skip), Kept(c, skip));
    }
  }

  /** `canonical_query`: encode what is kept, sort, join. */
  method BuildCanonicalQuery(pairs: seq<Pair>, skipSignature: bool) returns (out: string)
    ensures out == Canonical(pairs, skipSignature)
  {
    var qs: seq<Encoded> := [];
    assert pairs[..0] == [];
    for i := 0 to |pairs|
      invariant qs == Map(EncodePair, Kept(pairs[..i], skipSignature))
    {
      KeptSnoc(pairs, i, skipSignature);
      if !(skipSignature && pairs[i].name == SIGNATURE) {
        MapConcat(EncodePair, Kept(pairs[..i], skipSignature), [pairs[i]]);
        assert [pairs[i]][1..] == [];
        var n := UriEncode("", pairs[i].name, true);
        var v := UriEncode("", pairs[i].value, true);
        Seqs.EmptyConcat(Encode(pairs[i].name, true));
        Seqs.EmptyConcat(Encode(pairs[i].value, true));
        qs := qs + [Encoded(n, v)];
      } else {
        Seqs.EmptyConcat(Kept(pairs[..i], skipSignature));
      }
    }
    assert pairs[..|pairs|] == pairs;
    qs := Sorting.Sort(qs, InOrder);
    out := "";
    if |qs| > 0 {
      out := Render(qs[0]);
      for i := 1 to |qs|
        invariant out + JoinRest(qs[i..]) == Join(qs)
      {
        assert qs[i..][0] == qs[i];
        Seqs.DropDrop(qs, i, i + 1);
        Seqs.Assoc(out, ['&'], Render(qs[i]) + JoinRest(qs[i + 1..]));
        Seqs.Assoc(out + ['&'], Render(qs[i]), JoinRest(qs[i + 1..]));
        out := out + ['&'] + Render(qs[i]);
      }
      assert qs[|qs|..] == [];
      Seqs.EmptyConcat(out);
    }
  }

  /* ---------- joining is unambiguous ---------- */

  /** Two strings cut at the first separator fall into the same two parts. */
  lemma {:induction false} SameCut(a: string, x: string, b: string, y: string, c: char)
    requires c !in a && c !in b && a + x == b + y
    requires (|x| > 0 ==> x[0] == c) && (|y| > 0 ==> y[0] == c)
    ensures a == b && x == y
  {
    if |a| == 0 || |b| == 0 {
      Seqs.EmptyConcat(x);
      Seqs.EmptyConcat(y);
    } else {
      assert (a + x)[0] == a[0] && (b + y)[0] == b[0];
      Seqs.TailConcat(a, x);
      Seqs.TailConcat(b, y);
      SameCut(a[1..], x, b[1..], y, c);
      Seqs.ConsTail(a);
      Seqs.ConsTail(b);
    }
  }

  ghost predicate Clean(es: seq<Encoded>) {
    forall i :: 0 <= i < |es| ==> NoSeparator(es[i].name) && NoSeparator(es[i].value)
  }

  lemma JoinRestStart(es: seq<Encoded>)
    ensures |JoinRest(es)| > 0 <==> |es| > 0
    ensures |es| > 0 ==> JoinRest(es)[0] == '&' && JoinRest(es)[1..] == Render(es[0]) + JoinRest(es[1..])
  {
    if |es| > 0 {
      Seqs.UnCons('&', Render(es[0]) + JoinRest(es[1..]));
    }
  }

  lemma {:induction false} PairUnambiguous(a: Encoded, s: string, b: Encoded, t: string)
    requires NoSeparator(a.name) && NoSeparator(a.value) && NoSeparator(b.name) && NoSeparator(b.value)
    requires (|s| > 0 ==> s[0] == '&') && (|t| > 0 ==> t[0] == '&')
    requires Render(a) + s == Render(b) + t
    ensures a == b && s == t
  {
    Regroup(a, s);
    Regroup(b, t);
    SameCut(a.name, ['='] + (a.value + s), b.name, ['='] + (b.value + t), '=');
    Seqs.UnCons('=', a.value + s);
    Seqs.UnCons('=', b.value + t);
    SameCut(a.value, s, b.value, t, '&');
  }

  lemma Regroup(a: Encoded, s: string)
    ensures Render(a) + s == a.name + (['='] + (a.value + s))
  {
    Seqs.Assoc(a.name + ['='], a.value, s);
    Seqs.Assoc(a.name, ['='], a.value + s);
  }

  lemma {:induction false} JoinRestUnambiguous(es: seq<Encoded>, fs: seq<Encoded>)
    requires Clean(es) && Clean(fs) && JoinRest(es) == JoinRest(fs)
    ensures es == fs
  {
    JoinRestStart(es);
    JoinRestStart(fs);
    if |es| > 0 {
      JoinRestStart(es[1..]);
      JoinRestStart(fs[1..]);
      PairUnambiguous(es[0], JoinRest(es[1..]), fs[0], JoinRest(fs[1..]));
      JoinRestUnambiguous(es[1..], fs[1..]);
      Seqs.ConsTail(es);
      Seqs.ConsTail(fs);
    }
  }

  lemma JoinUnambiguous(es: seq<Encoded>, fs: seq<Encoded>)
    requires Clean(es) && Clean(fs) && Join(es) == Join(fs)
    ensures es == fs
  {
    if |es| > 0 && |fs| > 0 {
      JoinRestStart(es[1..]);
      JoinRestStart(fs[1..]);
      PairUnambiguous(es[0], JoinRest(es[1..]), fs[0], JoinRest(fs[1..]));
      JoinRestUnambiguous(es[1..], fs[1..]);
      Seqs.ConsTail(es);
      Seqs.ConsTail(fs);
    }
  }

  /* ---------- multisets through a map ---------- */

  lemma MoveToFront<T>(s: seq<T>, j: nat)
    requires j < |s|
    ensures multiset(s) == multiset{s[j]} + multiset(s[..j] + s[j + 1..])
  {
    assert s == s[..j] + [s[j]] + s[j + 1..];
  }

  lemma {:induction false} MapMultiset<T, U>(f: T -> U, a: seq<T>, c: seq<T>)
    requires multiset(a) == multiset(c)
    ensures multiset(Map(f, a)) == multiset(Map(f, c))
  {
    Sorting.SameElements(a, c);
    if |a| > 0 {
      assert a[0] in c;
      var j :| 0 <= j < |c| && c[j] == a[0];
      var rest := c[..j] + c[j + 1..];
      MoveToFront(c, j);
      Sorting.HeadTail(a);
      assert multiset(a[1..]) == multiset(a) - multiset{a[0]};
      assert multiset(rest) == multiset(c) - multiset{a[0]};
      MapMultiset(f, a[1..], rest);
      MapAround(f, c, j);
      Sorting.ConsMultiset(f(a[0]), Map(f, a[1..]));
    }
  }

  lemma MapAround<T, U>(f: T -> U, c: seq<T>, j: nat)
    requires j < |c|
    ensures multiset(Map(f, c)) == multiset{f(c[j])} + multiset(Map(f, c[..j] + c[j + 1..]))
  {
    var a, d := c[..j], c[j + 1..];
    SplitAround(c, j);
    MapConcat(f, a, [c[j]] + d);
    Seqs.UnCons(c[j], d);
    MapConcat(f, a, d);
    MiddleMultiset(Map(f, a), f(c[j]), Map(f, d));
  }

  lemma SplitAround<T>(c: seq<T>, j: nat)
    requires j < |c|
    ensures c == c[..j] + ([c[j]] + c[j + 1..])
  {
  }

  lemma MiddleMultiset<T>(a: seq<T>, x: T, d: seq<T>)
    ensures multiset(a + ([x] + d)) == multiset{x} + multiset(a + d)
  {
  }

  lemma {:induction false} DecodePairs(ps: seq<Pair>)
    ensures Map(DecodePair, Map(EncodePair, ps)) == ps
    ensures Clean(Map(EncodePair, ps))
  {
    if |ps| > 0 {
      DecodePairs(ps[1..]);
      DecodeEncode(ps[0].name, true);
      DecodeEncode(ps[0].value, true);
      EncodeNoSeparator(ps[0].name, true);
      EncodeNoSeparator(ps[0].value, true);
      var e := EncodePair(ps[0]);
      Seqs.UnCons(e, Map(EncodePair, ps[1..]));
      Seqs.ConsTail(ps);
    }
  }

  lemma InOrderIsTotal()
    ensures Sorting.TotalPreorder(InOrder) && Sorting.Antisymmetric(InOrder)
  {
    forall x: Encoded, y: Encoded ensures InOrder(x, y) || InOrder(y, x) {
      Trichotomy(x.name, y.name);
      Trichotomy(x.value, y.value);
    }
    forall x: Encoded, y: Encoded, z: Encoded | InOrder(x, y) && InOrder(y, z) ensures InOrder(x, z) {
      if Less(x.name, y.name) && Less(y.name, z.name) { Transitive(x.name, y.name, z.name); }
      Trichotomy(x.name, x.name);
      if x.name == y.name == z.name { AtMostTransitive(x.value, y.value, z.value); }
    }
    forall x: Encoded, y: Encoded | InOrder(x, y) && InOrder(y, x) ensures x == y {
      Trichotomy(x.name, y.name);
      Trichotomy(x.value, y.value);
    }
  }

  lemma SortedClean(es: seq<Encoded>)
    requires Clean(es)
    ensures Clean(Sorting.Sort(es, InOrder))
  {
    InOrderIsTotal();
    Sorting.SortSorts(es, InOrder);
    var s := Sorting.Sort(es, InOrder);
    Sorting.SameElements(s, es);
    forall i | 0 <= i < |s| ensures NoSeparator(s[i].name) && NoSeparator(s[i].value) {
      assert s[i] in es;
    }
  }

  /** Two pair lists have the same canonical query exactly when, signature pair
      aside, they hold the same pairs equally often: order never matters and no two
      different requests share a string to sign. */
  lemma CanonicalIff(p: seq<Pair>, q: seq<Pair>, skip: bool)
    ensures Canonical(p, skip) == Canonical(q, skip) <==> multiset(Kept(p, skip)) == multiset(Kept(q, skip))
  {
    var kp, kq := Kept(p, skip), Kept(q, skip);
    var ep, eq := Map(EncodePair, kp), Map(EncodePair, kq);
    InOrderIsTotal();
    Sorting.SortSorts(ep, InOrder);
    Sorting.SortSorts(eq, InOrder);
    DecodePairs(kp);
    DecodePairs(kq);
    if multiset(kp) == multiset(kq) {
      MapMultiset(EncodePair, kp, kq);
      Sorting.SortedUnique(Sorting.Sort(ep, InOrder), Sorting.Sort(eq, InOrder), InOrder);
    }
    if Canonical(p, skip) == Canonical(q, skip) {
      SortedClean(ep);
      SortedClean(eq);
      JoinUnambiguous(Sorting.Sort(ep, InOrder), Sorting.Sort(eq, InOrder));
      assert multiset(ep) == multiset(eq);
      MapMultiset(DecodePair, ep, eq);
    }
  }

  /* ---------- what the string is ---------- */

  predicate UpperHex(c: char) { '0' <= c <= '9' || 'A' <= c <= 'F' }

  /** A byte is written as section 2.3 of RFC 3986 and its percent form ask: letters,
      digits, '-', '.', '_' and '~' stand for themselves, a slash does when it is not to
      be encoded, and everything else is '%' and two upper-case hex digits of its value. */
  lemma EncodeByteIs(b: Byte, encodeSlash: bool)
    ensures var e, c := EncodeByte(b, encodeSlash), b as char;
            if 'a' <= c <= 'z' || 'A' <= c <= 'Z' || '0' <= c <= '9' || c in "-._~" || (c == '/' && !encodeSlash)
            then e == [c]
            else |e| == 3 && e[0] == '%' && UpperHex(e[1]) && UpperHex(e[2])
                 && HexValue(e[1]) * 16 + HexValue(e[2]) == b
  {
    assert forall c: char :: c in "-._~" <==> c == '-' || c == '.' || c == '_' || c == '~';
  }

  /** The encoding is made byte by byte. */
  lemma {:induction false} EncodeSnoc(bs: seq<Byte>, b: Byte, encodeSlash: bool)
    ensures Encode(bs + [b], encodeSlash) == Encode(bs, encodeSlash) + EncodeByte(b, encodeSlash)
  {
    if |bs| == 0 {
      assert bs + [b] == [b] && [b][1..] == [];
      Seqs.EmptyConcat(EncodeByte(b, encodeSlash));
    } else {
      EncodeSnoc(bs[1..], b, encodeSlash);
      Seqs.TailConcat(bs, [b]);
      Seqs.Assoc(EncodeByte(bs[0], encodeSlash), Encode(bs[1..], encodeSlash), EncodeByte(b, encodeSlash));
    }
  }

  /** Every pair is kept as often as it is given, but the signature pair not at all when
      it is to be skipped. */
  lemma {:induction false} KeptCount(pairs: seq<Pair>, skip: bool, x: Pair)
    ensures multiset(Kept(pairs, skip))[x]
         == if skip && x.name == Ascii("X-Amz-Signature") then 0 else multiset(pairs)[x]
  {
    if |pairs| > 0 {
      KeptCount(pairs[1..], skip, x);
      Sorting.HeadTail(pairs);
      var first := if skip && pairs[0].name == SIGNATURE then [] else [pairs[0]];
      assert multiset(first + Kept(pairs[1..], skip)) == multiset(first) + multiset(Kept(pairs[1..], skip));
    }
  }

  lemma {:induction false} MapAt<T, U>(f: T -> U, s: seq<T>, i: nat)
    requires i < |s|
    ensures Map(f, s)[i] == f(s[i])
  {
    if i > 0 { MapAt(f, s[1..], i - 1); }
  }

  /** Names never descend, and among equal names values never do. */
  ghost predicate NeverDescends(es: seq<Encoded>) {
    forall i, j :: 0 <= i < j < |es| ==>
      && !Less(es[j].name, es[i].name)
      && (es[i].name == es[j].name ==> !Less(es[j].value, es[i].value))
  }

  /** The pairs behind the string: the kept ones, each with name and value encoded, in
      ascending order. */
  lemma CanonicalOrder(pairs: seq<Pair>, skip: bool) returns (ps: seq<Pair>, es: seq<Encoded>)
    ensures ps == Kept(pairs, skip) && Canonical(pairs, skip) == Join(es) && NeverDescends(es)
    ensures multiset(es) == multiset(seq(|ps|, i requires 0 <= i < |ps| =>
                                       Encoded(Encode(ps[i].name, true), Encode(ps[i].value, true))))
  {
    ps := Kept(pairs, skip);
    var encoded := Map(EncodePair, ps);
    es := Sorting.Sort(encoded, InOrder);
    InOrderIsTotal();
    Sorting.SortSorts(encoded, InOrder);
    forall i, j | 0 <= i < j < |es|
      ensures !Less(es[j].name, es[i].name) && (es[i].name == es[j].name ==> !Less(es[j].value, es[i].value))
    {
      assert InOrder(es[i], es[j]);
      Trichotomy(es[i].name, es[j].name);
    }
    forall i | 0 <= i < |ps| ensures encoded[i] == Encoded(Encode(ps[i].name, true), Encode(ps[i].value, true)) {
      MapAt(EncodePair, ps, i);
    }
    assert encoded == seq(|ps|, i requires 0 <= i < |ps| =>
                            Encoded(Encode(ps[i].name, true), Encode(ps[i].value, true)));
  }

  lemma {:induction false} JoinRestSnoc(es: seq<Encoded>, e: Encoded)
    ensures JoinRest(es + [e]) == JoinRest(es) + ("&" + (e.name + "=" + e.value))
  {
    if |es| == 0 {
      assert es + [e] == [e] && [e][1..] == [];
      Seqs.EmptyConcat(Render(e));
      Seqs.EmptyConcat("&" + (e.name + "=" + e.value));
    } else {
      JoinRestSnoc(es[1..], e);
      Seqs.TailConcat(es, [e]);
      var more := "&" + (e.name + "=" + e.value);
      Seqs.Assoc(Render(es[0]), JoinRest(es[1..]), more);
      Seqs.Assoc(['&'], Render(es[0]) + JoinRest(es[1..]), more);
    }
  }

  /** Joining: nothing for no pairs, name=value for one, and each further pair after an
      ampersand. */
  lemma JoinSnoc(es: seq<Encoded>, e: Encoded)
    ensures Join([]) == "" && Join([e]) == e.name + "=" + e.value
    ensures |es| > 0 ==> Join(es + [e]) == Join(es) + ("&" + (e.name + "=" + e.value))
  {
    assert [e][1..] == [];
    Seqs.EmptyConcat(Render(e));
    if |es| > 0 {
      JoinRestSnoc(es[1..], e);
      Seqs.TailConcat(es, [e]);
      Seqs.Assoc(Render(es[0]), JoinRest(es[1..]), "&" + (e.name + "=" + e.value));
    }
  }
}
