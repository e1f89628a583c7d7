/** How a staged span is named on disk, and what the names give back: the escaping of
    keys, the startup parse, and the listing of one key's files by name prefix. */
module SegmentNames {
  import opened Options
  import opened Saturating
  import opened Octets
  import Seqs

  /** A completed sidecar: `.seg.<escaped key>.<start>-<end>`. */
  datatype Name = Name(key: string, start: nat, end: nat)

  /* ---------- escaping ---------- */

  /** Every `c` replaced by `with`. */
  function Replace(s: string, c: char, with: string): string {
    if |s| == 0 then [] else (if s[0] == c then with else [s[0]]) + Replace(s[1..], c, with)
  }

  /** `escape_key`: the percent sign first, then the slash. */
  function Escape(key: string): string { Replace(Replace(key, '%', "%25"), '/', "%2F") }

  function EscapeChar(c: char): string { if c == '%' then "%25" else if c == '/' then "%2F" else [c] }

  lemma {:induction false} ReplaceConcat(a: string, s: string, c: char, with: string)
    ensures Replace(a + s, c, with) == Replace(a, c, with) + Replace(s, c, with)
  {
    if |a| == 0 {
      Seqs.EmptyConcat(s);
      Seqs.EmptyConcat(Replace(s, c, with));
    } else {
      ReplaceConcat(a[1..], s, c, with);
      Seqs.TailConcat(a, s);
      Seqs.Assoc(if a[0] == c then with else [a[0]], Replace(a[1..], c, with), Replace(s, c, with));
    }
  }

  /** Two passes over the text are one over its characters. */
  lemma EscapeCons(key: string)
    requires |key| > 0
    ensures Escape(key) == EscapeChar(key[0]) + Escape(key[1..])
  {
    var first := if key[0] == '%' then "%25" else [key[0]];
    ReplaceConcat(first, Replace(key[1..], '%', "%25"), '/', "%2F");
    assert Replace(first, '/', "%2F") == EscapeChar(key[0]) by {
      if key[0] == '%' {
        assert first[1..] == "25" && first[1..][1..] == "5";
      } else {
        assert first[1..] == [];
      }
    }
  }

  lemma EscapeConcat(a: string, c: string)
    ensures Escape(a + c) == Escape(a) + Escape(c)
  {
    ReplaceConcat(a, c, '%', "%25");
    ReplaceConcat(Replace(a, '%', "%25"), Replace(c, '%', "%25"), '/', "%2F");
  }

  /** Escaped text can be read from the left in one way only. */
  lemma {:induction false} EscapePrefixIff(a: string, c: string)
    ensures Escape(a) <= Escape(c) <==> a <= c
    decreases |a|
  {
    if |a| > 0 {
      EscapeCons(a);
      if |c| > 0 {
        EscapeCons(c);
        HeadsIff(a[0], c[0], Escape(a[1..]), Escape(c[1..]));
        EscapePrefixIff(a[1..], c[1..]);
        Seqs.ConsTail(a);
        Seqs.ConsTail(c);
      }
    }
  }

  lemma HeadsIff(x: char, y: char, s: string, t: string)
    ensures EscapeChar(x) + s <= EscapeChar(y) + t <==> x == y && s <= t
  {
    var a, c := EscapeChar(x) + s, EscapeChar(y) + t;
    if a <= c {
      assert a[0] == c[0] && (|EscapeChar(x)| == 3 ==> a[2] == c[2]);
      assert x == y;
      assert a[|EscapeChar(x)|..] == s && c[|EscapeChar(y)|..] == t;
    }
  }

  lemma EscapeInjective(a: string, c: string)
    requires Escape(a) == Escape(c)
    ensures a == c
  {
    EscapePrefixIff(a, c);
    EscapePrefixIff(c, a);
  }

  /* ---------- reading a key back ---------- */

  function Utf8Char(c: char): seq<Byte> {
    var n := c as int;
    if n < 0x80 then [n]
    else if n < 0x800 then [0xC0 + n / 64, 0x80 + n % 64]
    else if n < 0x10000 then [0xE0 + n / 4096, 0x80 + n / 64 % 64, 0x80 + n % 64]
    else [0xF0 + n / 262144, 0x80 + n / 4096 % 64, 0x80 + n / 64 % 64, 0x80 + n % 64]
  }

  function Utf8(s: string): seq<Byte> { if |s| == 0 then [] else Utf8Char(s[0]) + Utf8(s[1..]) }

  function Hex(b: Byte): Option<nat> {
    if 48 <= b <= 57 then Some(b - 48)
    else if 97 <= b <= 102 then Some(b - 87)
    else if 65 <= b <= 70 then Some(b - 55)
    else None
  }

  function Push(c: char, rest: Option<string>): Option<string> {
    if rest.None? then None else Some([c] + rest.value)
  }

  /** `unescape_key`: percent triples decoded, every other byte taken for a character. */
  function Unescape(bs: seq<Byte>): Option<string> {
    if |bs| == 0 then Some("")
    else if bs[0] == 37 then
      if |bs| < 3 || Hex(bs[1]).None? || Hex(bs[2]).None? then None
      else Push((Hex(bs[1]).value * 16 + Hex(bs[2]).value) as char, Unescape(bs[3..]))
    else if bs[0] == 47 then None
    else Push(bs[0] as char, Unescape(bs[1..]))
  }

  function Before(done: string, rest: Option<string>): Option<string> {
    if rest.None? then None else Some(done + rest.value)
  }

  lemma BeforePush(done: string, c: char, rest: Option<string>)
    ensures Before(done, Push(c, rest)) == Before(done + [c], rest)
  {
    if rest.Some? { Seqs.Assoc(done, [c], rest.value); }
  }

  /** The loop over the bytes of an escaped key. */
  method UnescapeKey(bs: seq<Byte>) returns (key: Option<string>)
    ensures key == Unescape(bs)
  {
    var out, i := "", 0;
    assert bs[0..] == bs;
    if Unescape(bs).Some? { Seqs.EmptyConcat(Unescape(bs).value); }
    while i < |bs|
      invariant 0 <= i <= |bs| && Before(out, Unescape(bs[i..])) == Unescape(bs)
    {
      assert bs[i..][0] == bs[i];
      if bs[i] == 37 {
        if i + 2 >= |bs| { return None; }
        assert bs[i..][1] == bs[i + 1] && bs[i..][2] == bs[i + 2];
        var high, low := Hex(bs[i + 1]), Hex(bs[i + 2]);
        if high.None? || low.None? { return None; }
        var c := (high.value * 16 + low.value) as char;
        Seqs.DropDrop(bs, i, i + 3);
        BeforePush(out, c, Unescape(bs[i + 3..]));
        out, i := out + [c], i + 3;
      } else if bs[i] == 47 {
        return None;
      } else {
        Seqs.DropDrop(bs, i, i + 1);
        BeforePush(out, bs[i] as char, Unescape(bs[i + 1..]));
        out, i := out + [bs[i] as char], i + 1;
      }
    }
    assert bs[i..] == [];
    Seqs.EmptyConcat(out);
    return Some(out);
  }

  predicate Ascii(key: string) { forall i :: 0 <= i < |key| ==> key[i] as int < 128 }

  /** A character as its bytes read one by one come back. */
  function ReadBackChar(c: char): string
  {
    var bs := Utf8Char(c);
    seq(|bs|, i requires 0 <= i < |bs| => bs[i] as char)
  }

  /** The key the program reads back from a name it made for `key`. */
  function ReadBack(key: string): string {
    if |key| == 0 then [] else ReadBackChar(key[0]) + ReadBack(key[1..])
  }

  lemma {:induction false} Utf8Concat(a: string, c: string)
    ensures Utf8(a + c) == Utf8(a) + Utf8(c)
  {
    if |a| == 0 {
      Seqs.EmptyConcat(c);
      Seqs.EmptyConcat(Utf8(c));
    } else {
      Utf8Concat(a[1..], c);
      Seqs.TailConcat(a, c);
      Seqs.Assoc(Utf8Char(a[0]), Utf8(a[1..]), Utf8(c));
    }
  }

  /** Plain bytes are taken one by one. */
  lemma {:induction false} PlainBytes(bs: seq<Byte>, rest: seq<Byte>)
    requires forall i :: 0 <= i < |bs| ==> bs[i] != 37 && bs[i] != 47
    ensures Unescape(bs + rest)
         == Before(seq(|bs|, i requires 0 <= i < |bs| => bs[i] as char), Unescape(rest))
  {
    var cs := seq(|bs|, i requires 0 <= i < |bs| => bs[i] as char);
    if |bs| == 0 {
      Seqs.EmptyConcat(rest);
      assert cs == [];
      if Unescape(rest).Some? { Seqs.EmptyConcat(Unescape(rest).value); }
    } else {
      PlainBytes(bs[1..], rest);
      Seqs.TailConcat(bs, rest);
      var tail := seq(|bs[1..]|, i requires 0 <= i < |bs[1..]| => bs[1..][i] as char);
      assert cs == [bs[0] as char] + tail;
      if Unescape(rest).Some? { Seqs.Assoc([bs[0] as char], tail, Unescape(rest).value); }
    }
  }

  lemma Utf8Cons(c: char, s: string)
    requires c as int < 128
    ensures Utf8([c] + s) == [c as int] + Utf8(s)
  {
    Seqs.UnCons(c, s);
  }

  lemma TripleBytes(e: string)
    requires |e| == 3 && Ascii(e)
    ensures Utf8(e) == [e[0] as int, e[1] as int, e[2] as int]
  {
    assert e == [e[0]] + ([e[1]] + ([e[2]] + ""));
    Utf8Cons(e[2], "");
    Utf8Cons(e[1], [e[2]] + "");
    Utf8Cons(e[0], [e[1]] + ([e[2]] + ""));
  }

  lemma UnescapeTriple(c: char, rest: seq<Byte>)
    requires c == '%' || c == '/'
    ensures Unescape(Utf8(EscapeChar(c)) + rest) == Before(ReadBackChar(c), Unescape(rest))
  {
    TripleBytes(EscapeChar(c));
    var bs := Utf8(EscapeChar(c));
    assert (bs + rest)[3..] == rest;
    assert ReadBackChar(c) == [c];
  }

  lemma PlainChar(c: char)
    requires c != '%' && c != '/'
    ensures forall i :: 0 <= i < |Utf8Char(c)| ==> Utf8Char(c)[i] != 37 && Utf8Char(c)[i] != 47
  {
    assert '%' as int == 37 && '/' as int == 47;
    assert c as int as char == c;
  }

  lemma UnescapeChar(c: char, rest: seq<Byte>)
    ensures Unescape(Utf8(EscapeChar(c)) + rest) == Before(ReadBackChar(c), Unescape(rest))
  {
    if c == '%' || c == '/' {
      UnescapeTriple(c, rest);
    } else {
      assert [c][1..] == [];
      Seqs.EmptyConcat(Utf8Char(c));
      PlainChar(c);
      PlainBytes(Utf8Char(c), rest);
    }
  }

  /** Whatever the key, the parse succeeds and gives back `ReadBack` of it. */
  lemma {:induction false} UnescapeEscape(key: string)
    ensures Unescape(Utf8(Escape(key))) == Some(ReadBack(key))
  {
    if |key| > 0 {
      EscapeCons(key);
      Utf8Concat(EscapeChar(key[0]), Escape(key[1..]));
      UnescapeChar(key[0], Utf8(Escape(key[1..])));
      UnescapeEscape(key[1..]);
    }
  }

  lemma {:induction false} ReadBackLonger(key: string)
    ensures |ReadBack(key)| >= |key| && (|ReadBack(key)| == |key| ==> Ascii(key))
    ensures Ascii(key) ==> ReadBack(key) == key
  {
    if |key| > 0 {
      ReadBackLonger(key[1..]);
      assert Ascii(key) <==> key[0] as int < 128 && Ascii(key[1..]) by {
        if key[0] as int < 128 && Ascii(key[1..]) {
          forall i | 0 <= i < |key| ensures key[i] as int < 128 { if i > 0 { assert key[1..][i - 1] == key[i]; } }
        }
        if Ascii(key) {
          forall i | 0 <= i < |key[1..]| ensures key[1..][i] as int < 128 { assert key[1..][i] == key[i + 1]; }
        }
      }
      if key[0] as int < 128 { assert ReadBackChar(key[0]) == [key[0]]; }
      Seqs.ConsTail(key);
    }
  }

  /** A key survives its file name exactly when it is plain ASCII. */
  lemma RoundTripIff(key: string)
    ensures Unescape(Utf8(Escape(key))) == Some(key) <==> Ascii(key)
    ensures ReadBack(key) == key <==> Ascii(key)
  {
    UnescapeEscape(key);
    ReadBackLonger(key);
  }

  /* ---------- whole names ---------- */

  function DigitChar(d: nat): char
    requires d < 10
  {
    ('0' as int + d) as char
  }

  function Digits(n: nat): string {
    if n < 10 then [DigitChar(n)] else Digits(n / 10) + [DigitChar(n % 10)]
  }

  /** The digits of a number, most significant first; nothing else. */
  function Value(s: string): Option<nat> {
    if |s| == 0 then Some(0)
    else
      var last, front := s[|s| - 1], Value(s[..|s| - 1]);
      if front.None? || !('0' <= last <= '9') then None else Some(front.value * 10 + (last as int - '0' as int))
  }

  /** Parsing a 64-bit number: digits, at least one, after an optional plus sign. */
  function Parse64(s: string): Option<nat> {
    var digits := if |s| > 0 && s[0] == '+' then s[1..] else s;
    if |digits| == 0 || Value(digits).None? || Value(digits).value > U64_MAX then None else Value(digits)
  }

  /** Neither a dot, nor a dash, nor a plus sign. */
  predicate Bare(s: string) { '.' !in s && '-' !in s && '+' !in s }

  lemma {:induction false} DigitsValue(n: nat)
    ensures |Digits(n)| > 0 && Bare(Digits(n)) && Value(Digits(n)) == Some(n)
  {
    if n >= 10 {
      DigitsValue(n / 10);
      var s := Digits(n);
      assert s[..|s| - 1] == Digits(n / 10);
    } else {
      assert Digits(n)[..0] == [];
    }
  }

  lemma DigitsParse(n: nat)
    requires n <= U64_MAX
    ensures Parse64(Digits(n)) == Some(n)
  {
    DigitsValue(n);
    assert Digits(n)[0] in Digits(n);
  }

  function Range(n: Name): string { Digits(n.start) + ("-" + Digits(n.end)) }

  function FileName(n: Name): string { ".seg." + (Escape(n.key) + ("." + Range(n))) }

  /** Where the first `c` is, or the length. */
  function First(s: string, c: char): (i: nat)
    ensures i <= |s| && c !in s[..i] && (i < |s| ==> s[i] == c)
  {
    if |s| == 0 || s[0] == c then 0
    else
      var i := First(s[1..], c);
      assert s[..1 + i] == [s[0]] + s[1..][..i];
      1 + i
  }

  /** Where the last `c` is, or the length. */
  function Last(s: string, c: char): (i: nat)
    ensures i <= |s| && (i < |s| ==> s[i] == c && c !in s[i + 1..])
    ensures i == |s| ==> c !in s
  {
    if |s| == 0 then 0
    else if s[|s| - 1] == c then |s| - 1
    else
      var front := s[..|s| - 1];
      var i := Last(front, c);
      assert s == front + [s[|s| - 1]];
      if i == |front| then |s|
      else
        assert s[i + 1..] == front[i + 1..] + [s[|s| - 1]];
        i
  }

  lemma {:induction false} LastIs(s: string, c: char, i: nat)
    requires i < |s| && s[i] == c && c !in s[i + 1..]
    ensures Last(s, c) == i
  {
    var n := |s| - 1;
    if i < n {
      assert s[i + 1..][n - i - 1] == s[n];
      assert s[..n][i + 1..] == s[i + 1..][..n - i - 1];
      LastIs(s[..n], c, i);
    }
  }

  lemma LastAt(a: string, c: char, r: string)
    requires c !in r
    ensures Last(a + ([c] + r), c) == |a|
  {
    ConsTail(a, c, r);
    LastIs(a + ([c] + r), c, |a|);
  }

  lemma ConsTail(a: string, c: char, r: string)
    ensures var s := a + ([c] + r); s[..|a|] == a && s[|a|] == c && s[|a| + 1..] == r
  {
  }

  lemma FirstAt(a: string, c: char, r: string)
    requires c !in a
    ensures First(a + ([c] + r), c) == |a|
  {
    var s := a + ([c] + r);
    assert s[|a|] == c;
  }

  lemma RangeBare(n: Name)
    ensures '.' !in Range(n)
  {
    DigitsValue(n.start);
    DigitsValue(n.end);
  }

  lemma RangeSplits(n: Name)
    ensures var r, dash := Range(n), First(Range(n), '-');
            dash < |r| && r[..dash] == Digits(n.start) && r[dash + 1..] == Digits(n.end)
  {
    DigitsValue(n.start);
    FirstAt(Digits(n.start), '-', Digits(n.end));
  }

  /** The escaped key and the range, out of a whole name. */
  lemma NameSplits(n: Name)
    ensures var rest := FileName(n)[5..];
            && ".seg." <= FileName(n) && Last(rest, '.') == |Escape(n.key)| < |rest|
            && rest[..|Escape(n.key)|] == Escape(n.key) && rest[|Escape(n.key)| + 1..] == Range(n)
  {
    var esc := Escape(n.key);
    assert FileName(n)[5..] == esc + ("." + Range(n));
    RangeBare(n);
    LastAt(esc, '.', Range(n));
    ConsTail(esc, '.', Range(n));
  }

  function ParseRange(key: Option<string>, range: string): Option<Name> {
    var dash := First(range, '-');
    if dash == |range| then None
    else
      var start, end := Parse64(range[..dash]), Parse64(range[dash + 1..]);
      if key.None? || start.None? || end.None? then None else Some(Name(key.value, start.value, end.value))
  }

  /** `parse_seg_name`: the last dot ends the key, the first dash splits the range. */
  function ParseName(name: string): Option<Name> {
    if !(".seg." <= name) then None
    else
      var rest := name[5..];
      var dot := Last(rest, '.');
      if dot == |rest| then None else ParseRange(Unescape(Utf8(rest[..dot])), rest[dot + 1..])
  }

  /** Every name the program makes parses back to its extent, under the key as read back. */
  lemma ParseFileName(n: Name)
    requires n.start <= U64_MAX && n.end <= U64_MAX
    ensures ParseName(FileName(n)) == Some(n.(key := ReadBack(n.key)))
  {
    ParseSplits(n);
    RangeParses(n, ReadBack(n.key));
    UnescapeEscape(n.key);
  }

  lemma ParseSplits(n: Name)
    ensures ParseName(FileName(n)) == ParseRange(Unescape(Utf8(Escape(n.key))), Range(n))
  {
    NameSplits(n);
    ParseAt(FileName(n), FileName(n)[5..], |Escape(n.key)|);
  }

  lemma ParseAt(name: string, rest: string, dot: nat)
    requires ".seg." <= name && rest == name[5..] && dot == Last(rest, '.') < |rest|
    ensures ParseName(name) == ParseRange(Unescape(Utf8(rest[..dot])), rest[dot + 1..])
  {
  }

  lemma RangeParses(n: Name, key: string)
    requires n.start <= U64_MAX && n.end <= U64_MAX
    ensures ParseRange(Some(key), Range(n)) == Some(n.(key := key))
  {
    RangeSplits(n);
    DigitsParse(n.start);
    DigitsParse(n.end);
  }

  lemma RangeInjective(a: Name, c: Name)
    requires Range(a) == Range(c)
    ensures a.start == c.start && a.end == c.end
  {
    RangeSplits(a);
    RangeSplits(c);
    DigitsValue(a.start);
    DigitsValue(a.end);
    DigitsValue(c.start);
    DigitsValue(c.end);
  }

  /** No two spans share a file. */
  lemma FileNameInjective(a: Name, c: Name)
    requires FileName(a) == FileName(c)
    ensures a == c
  {
    NameSplits(a);
    NameSplits(c);
    EscapeInjective(a.key, c.key);
    RangeInjective(a, c);
  }

  /* ---------- listing by prefix ---------- */

  /** What a file name must start with to be listed for the key. */
  function Prefix(key: string): string { ".seg." + (Escape(key) + ".") }

  /** The other key is this one, or this one followed by a dot and more. */
  predicate Caught(key: string, other: string) { other == key || key + "." <= other }

  lemma DottedIff(a: string, e: string, r: string)
    requires '.' !in r
    ensures a + "." <= e + ("." + r) <==> a == e || a + "." <= e
  {
    var p, x := a + ".", e + ("." + r);
    if p <= x {
      assert x[|a|] == p[|a|] == '.';
      assert |a| <= |e|;
      assert p[..|a|] == a && x[..|a|] == e[..|a|];
      if |a| < |e| { assert e[|a|] == '.'; }
    }
    if a + "." <= e { assert e <= x; }
  }

  lemma StripCommon(a: string, s: string, t: string)
    ensures a + s <= a + t <==> s <= t
  {
    if a + s <= a + t {
      assert (a + s)[|a|..] == s && (a + t)[|a|..][..|s|] == s;
    }
  }

  /** A file is listed for a key exactly when its own key is that one or extends it by
      a dot: the listing of "x.tar" takes in every file of "x.tar.gz". */
  lemma ListedIff(key: string, n: Name)
    ensures Prefix(key) <= FileName(n) <==> Caught(key, n.key)
  {
    StripCommon(".seg.", Escape(key) + ".", Escape(n.key) + ("." + Range(n)));
    RangeBare(n);
    DottedIff(Escape(key), Escape(n.key), Range(n));
    EscapeConcat(key, ".");
    assert Escape(".") == "." by { EscapeCons("."); assert "."[1..] == ""; }
    EscapePrefixIff(key + ".", n.key);
    if Escape(key) == Escape(n.key) { EscapeInjective(key, n.key); }
  }
}
