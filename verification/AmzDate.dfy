/** The request date of a signature: its sixteen-character form and the seconds
    since the epoch it stands for. */
module AmzDate {
  import opened Options

  datatype Date = Date(year: nat, month: nat, day: nat, hour: nat, minute: nat, second: nat)

  /* ---------- text ---------- */

  predicate IsDigit(c: char) { '0' <= c <= '9' }

  function Digit(c: char): nat
    requires IsDigit(c)
  {
    c as int - '0' as int
  }

  function Char(n: nat): (c: char)
    requires n < 10
    ensures IsDigit(c) && Digit(c) == n
  {
    (n + '0' as int) as char
  }

  function Two(a: char, b: char): Option<nat> {
    if IsDigit(a) && IsDigit(b) then Some(Digit(a) * 10 + Digit(b)) else None
  }

  function Four(a: char, b: char, c: char, d: char): Option<nat> {
    if IsDigit(a) && IsDigit(b) && IsDigit(c) && IsDigit(d)
    then Some(Digit(a) * 1000 + Digit(b) * 100 + Digit(c) * 10 + Digit(d)) else None
  }

  /** `YYYYMMDD'T'HHMMSS'Z'`; the month must exist and the day lie in 1-31. */
  function Parse(s: string): Option<Date> {
    if |s| != 16 then None
    else
      var year, month, day := Four(s[0], s[1], s[2], s[3]), Two(s[4], s[5]), Two(s[6], s[7]);
      var hour, minute, second := Two(s[9], s[10]), Two(s[11], s[12]), Two(s[13], s[14]);
      if year.None? || month.None? || day.None? || s[8] != 'T' || hour.None? || minute.None? || second.None?
         || s[15] != 'Z' || !(1 <= month.value <= 12) || day.value == 0 || day.value > 31
      then None
      else Some(Date(year.value, month.value, day.value, hour.value, minute.value, second.value))
  }

  predicate Representable(d: Date) {
    && d.year <= 9999 && 1 <= d.month <= 12 && 1 <= d.day <= 31
    && d.hour <= 99 && d.minute <= 99 && d.second <= 99
  }

  function Two0(n: nat): string
    requires n <= 99
  {
    [Char(n / 10), Char(n % 10)]
  }

  function Four0(n: nat): string
    requires n <= 9999
  {
    [Char(n / 1000), Char(n / 100 % 10), Char(n / 10 % 10), Char(n % 10)]
  }

  function Format(d: Date): string
    requires Representable(d)
  {
    Four0(d.year) + Two0(d.month) + Two0(d.day) + ['T'] + Two0(d.hour) + Two0(d.minute) + Two0(d.second) + ['Z']
  }

  lemma TwoInverse(a: char, b: char)
    requires IsDigit(a) && IsDigit(b)
    ensures Two(a, b).value <= 99 && Two0(Two(a, b).value) == [a, b]
  {
    var n := Two(a, b).value;
    assert n / 10 == Digit(a) && n % 10 == Digit(b);
  }

  lemma FourInverse(a: char, b: char, c: char, d: char)
    requires IsDigit(a) && IsDigit(b) && IsDigit(c) && IsDigit(d)
    ensures Four(a, b, c, d).value <= 9999 && Four0(Four(a, b, c, d).value) == [a, b, c, d]
  {
    Split4(Digit(a), Digit(b), Digit(c), Digit(d));
  }

  lemma Split4(a: nat, b: nat, c: nat, d: nat)
    requires a < 10 && b < 10 && c < 10 && d < 10
    ensures var n := a * 1000 + b * 100 + c * 10 + d;
            n <= 9999 && n / 1000 == a && n / 100 % 10 == b && n / 10 % 10 == c && n % 10 == d
  {
    var n := a * 1000 + b * 100 + c * 10 + d;
    assert n / 100 == a * 10 + b;
    assert n / 10 == a * 100 + b * 10 + c;
  }

  lemma Digits4(n: nat)
    requires n <= 9999
    ensures (n / 1000) * 1000 + (n / 100 % 10) * 100 + (n / 10 % 10) * 10 + n % 10 == n
  {
    assert n / 100 == (n / 1000) * 10 + n / 100 % 10;
    assert n / 10 == (n / 100) * 10 + n / 10 % 10;
  }

  /** Printing an accepted date gives back exactly the text it came from. */
  lemma FormatParse(s: string)
    requires Parse(s).Some?
    ensures Representable(Parse(s).value) && Format(Parse(s).value) == s
  {
    FourInverse(s[0], s[1], s[2], s[3]);
    TwoInverse(s[4], s[5]);
    TwoInverse(s[6], s[7]);
    TwoInverse(s[9], s[10]);
    TwoInverse(s[11], s[12]);
    TwoInverse(s[13], s[14]);
  }

  lemma TwoRead(n: nat)
    requires n <= 99
    ensures Two(Two0(n)[0], Two0(n)[1]) == Some(n)
  {
  }

  lemma FourRead(n: nat)
    requires n <= 9999
    ensures Four(Four0(n)[0], Four0(n)[1], Four0(n)[2], Four0(n)[3]) == Some(n)
  {
    Digits4(n);
  }

  /** Every date in range is read back from its text. */
  lemma ParseFormat(d: Date)
    requires Representable(d)
    ensures Parse(Format(d)) == Some(d)
  {
    FormatChars(d);
    FourRead(d.year);
    TwoRead(d.month);
    TwoRead(d.day);
    TwoRead(d.hour);
    TwoRead(d.minute);
    TwoRead(d.second);
  }

  /** Where each field of the text stands. */
  lemma FormatChars(d: Date)
    requires Representable(d)
    ensures var s := Format(d);
            && |s| == 16 && s[8] == 'T' && s[15] == 'Z'
            && Four(s[0], s[1], s[2], s[3])
               == Four(Four0(d.year)[0], Four0(d.year)[1], Four0(d.year)[2], Four0(d.year)[3])
            && Two(s[4], s[5]) == Two(Two0(d.month)[0], Two0(d.month)[1])
            && Two(s[6], s[7]) == Two(Two0(d.day)[0], Two0(d.day)[1])
            && Two(s[9], s[10]) == Two(Two0(d.hour)[0], Two0(d.hour)[1])
            && Two(s[11], s[12]) == Two(Two0(d.minute)[0], Two0(d.minute)[1])
            && Two(s[13], s[14]) == Two(Two0(d.second)[0], Two0(d.second)[1])
  {
  }

  /* ---------- what a text means ---------- */

  predicate AllDigits(s: string) { forall i :: 0 <= i < |s| ==> IsDigit(s[i]) }

  /** A run of digits as a number. */
  function Number(s: string): nat
    requires AllDigits(s)
  {
    if |s| == 0 then 0 else Number(s[..|s| - 1]) * 10 + Digit(s[|s| - 1])
  }

  lemma NumberSnoc(s: string, c: char)
    requires AllDigits(s) && IsDigit(c)
    ensures AllDigits(s + [c]) && Number(s + [c]) == Number(s) * 10 + Digit(c)
  {
    assert (s + [c])[..|s|] == s;
  }

  lemma NumberTwo(a: char, b: char)
    requires IsDigit(a) && IsDigit(b)
    ensures Two(a, b) == Some(Number([a, b]))
  {
    NumberSnoc("", a);
    NumberSnoc([a], b);
    assert "" + [a] == [a] && [a] + [b] == [a, b];
  }

  lemma NumberFour(a: char, b: char, c: char, d: char)
    requires IsDigit(a) && IsDigit(b) && IsDigit(c) && IsDigit(d)
    ensures Four(a, b, c, d) == Some(Number([a, b, c, d]))
  {
    NumberTwo(a, b);
    NumberSnoc([a, b], c);
    NumberSnoc([a, b, c], d);
    assert [a, b] + [c] == [a, b, c] && [a, b, c] + [d] == [a, b, c, d];
  }

  /** The text has its sixteen places filled the right way. */
  predicate Shaped(s: string) {
    && |s| == 16 && s[8] == 'T' && s[15] == 'Z'
    && AllDigits(s[..4]) && AllDigits(s[4..6]) && AllDigits(s[6..8])
    && AllDigits(s[9..11]) && AllDigits(s[11..13]) && AllDigits(s[13..15])
  }

  lemma ShapedDigits(s: string)
    requires |s| == 16
    ensures Shaped(s)
        <==> && s[8] == 'T' && s[15] == 'Z' && IsDigit(s[0]) && IsDigit(s[1]) && IsDigit(s[2]) && IsDigit(s[3])
             && IsDigit(s[4]) && IsDigit(s[5]) && IsDigit(s[6]) && IsDigit(s[7]) && IsDigit(s[9]) && IsDigit(s[10])
             && IsDigit(s[11]) && IsDigit(s[12]) && IsDigit(s[13]) && IsDigit(s[14])
    ensures s[..4] == [s[0], s[1], s[2], s[3]] && s[4..6] == [s[4], s[5]] && s[6..8] == [s[6], s[7]]
    ensures s[9..11] == [s[9], s[10]] && s[11..13] == [s[11], s[12]] && s[13..15] == [s[13], s[14]]
  {
    assert s[..4] == [s[0], s[1], s[2], s[3]] && s[4..6] == [s[4], s[5]] && s[6..8] == [s[6], s[7]];
    assert s[9..11] == [s[9], s[10]] && s[11..13] == [s[11], s[12]] && s[13..15] == [s[13], s[14]];
  }

  /** A text is accepted exactly when it has the right shape and names a month and a day
      of at most 31; its fields are the numbers at their places, in this order. */
  lemma ParseIff(s: string)
    ensures Parse(s).Some? <==> Shaped(s) && 1 <= Number(s[4..6]) <= 12 && 1 <= Number(s[6..8]) <= 31
    ensures Parse(s).Some? ==>
              Parse(s).value == Date(Number(s[..4]), Number(s[4..6]), Number(s[6..8]),
                                     Number(s[9..11]), Number(s[11..13]), Number(s[13..15]))
  {
    if |s| == 16 {
      ShapedDigits(s);
      if Shaped(s) {
        NumberFour(s[0], s[1], s[2], s[3]);
        NumberTwo(s[4], s[5]);
        NumberTwo(s[6], s[7]);
        NumberTwo(s[9], s[10]);
        NumberTwo(s[11], s[12]);
        NumberTwo(s[13], s[14]);
      }
    }
  }

  /* ---------- seconds ---------- */

  /** Division that rounds toward zero, as the source's does. */
  function Quotient(a: int, b: int): int
    requires b > 0
  {
    if a >= 0 then a / b else -(-a / b)
  }

  /** Days from the epoch by eras of four hundred March-based years. */
  function CivilDays(y: nat, m: nat, d: nat): int {
    var yy := if m <= 2 then y as int - 1 else y as int;
    var era := Quotient(if yy >= 0 then yy else yy - 399, 400);
    var yoe := yy - era * 400;
    var mp := (m + 9) % 12;
    var doy := (153 * mp + 2) / 5 + d as int - 1;
    var doe := yoe * 365 + yoe / 4 - yoe / 100 + doy;
    era * 146097 + doe - 719468
  }

  function ToUnix(t: Date): int {
    CivilDays(t.year, t.month, t.day) * 86400 + t.hour * 3600 + t.minute * 60 + t.second
  }

  /* ---------- the simple count ---------- */

  predicate IsLeap(y: int) { y % 4 == 0 && (y % 100 != 0 || y % 400 == 0) }

  function YearLength(y: int): nat { if IsLeap(y) then 366 else 365 }

  function MonthLength(y: int, m: nat): nat {
    if m == 2 then (if IsLeap(y) then 29 else 28)
    else if m == 4 || m == 6 || m == 9 || m == 11 then 30
    else 31
  }

  /** Days from 1 January 1970 to 1 January of the year, a year at a time. */
  function DaysToYear(y: int): int
    decreases if y >= 1970 then y - 1970 else 1970 - y
  {
    if y == 1970 then 0
    else if y > 1970 then DaysToYear(y - 1) + YearLength(y - 1)
    else DaysToYear(y + 1) - YearLength(y)
  }

  /** Days before the month in its year, a month at a time. */
  function DaysToMonth(y: int, m: nat): nat {
    if m <= 1 then 0 else DaysToMonth(y, m - 1) + MonthLength(y, m - 1)
  }

  function SimpleDays(y: nat, m: nat, d: nat): int { DaysToYear(y) + DaysToMonth(y, m) + d - 1 }

  /** Days before 1 March of the year, counted from year zero. */
  function MarchDays(y: int): int { 365 * y + y / 4 - y / 100 + y / 400 }

  lemma DivStep4(y: int)
    ensures y / 4 - (y - 1) / 4 == if y % 4 == 0 then 1 else 0
  {
  }

  lemma DivStep100(y: int)
    ensures y / 100 - (y - 1) / 100 == if y % 100 == 0 then 1 else 0
  {
  }

  lemma DivStep400(y: int)
    ensures y / 400 - (y - 1) / 400 == if y % 400 == 0 then 1 else 0
  {
  }

  lemma Hundreds(q: int)
    ensures (400 * q) % 100 == 0
  {
  }

  lemma Fours(q: int)
    ensures (100 * q) % 4 == 0
  {
  }

  lemma Multiples(y: int)
    ensures y % 400 == 0 ==> y % 100 == 0
    ensures y % 100 == 0 ==> y % 4 == 0
  {
    Hundreds(y / 400);
    Fours(y / 100);
  }

  lemma MarchStep(y: int)
    ensures MarchDays(y) - MarchDays(y - 1) == YearLength(y)
  {
    DivStep4(y);
    DivStep100(y);
    DivStep400(y);
    Multiples(y);
  }

  lemma {:induction false} YearClosedForm(y: int)
    ensures DaysToYear(y) == MarchDays(y - 1) + 306 - 719468
    decreases if y >= 1970 then y - 1970 else 1970 - y
  {
    if y > 1970 {
      YearClosedForm(y - 1);
      MarchStep(y - 1);
    } else if y < 1970 {
      YearClosedForm(y + 1);
      MarchStep(y);
    }
  }

  lemma EraForm(yy: int)
    requires yy >= -1
    ensures var era := Quotient(if yy >= 0 then yy else yy - 399, 400);
            var yoe := yy - era * 400;
            era * 146097 + yoe * 365 + yoe / 4 - yoe / 100 == MarchDays(yy)
  {
    var era := Quotient(if yy >= 0 then yy else yy - 399, 400);
    var yoe := yy - era * 400;
    assert 0 <= yoe < 400;
    assert yy / 4 == era * 100 + yoe / 4;
    assert yy / 100 == era * 4 + yoe / 100;
    assert yy / 400 == era;
  }

  lemma MonthTable(y: int)
    ensures DaysToMonth(y, 1) == 0 && DaysToMonth(y, 2) == 31
    ensures var leap := if IsLeap(y) then 1 else 0;
            && DaysToMonth(y, 3) == 59 + leap && DaysToMonth(y, 4) == 90 + leap && DaysToMonth(y, 5) == 120 + leap
            && DaysToMonth(y, 6) == 151 + leap && DaysToMonth(y, 7) == 181 + leap && DaysToMonth(y, 8) == 212 + leap
            && DaysToMonth(y, 9) == 243 + leap && DaysToMonth(y, 10) == 273 + leap
            && DaysToMonth(y, 11) == 304 + leap && DaysToMonth(y, 12) == 334 + leap
  {
    assert DaysToMonth(y, 3) == DaysToMonth(y, 2) + MonthLength(y, 2);
    assert DaysToMonth(y, 4) == DaysToMonth(y, 3) + 31;
    assert DaysToMonth(y, 5) == DaysToMonth(y, 4) + 30;
    assert DaysToMonth(y, 6) == DaysToMonth(y, 5) + 31;
    assert DaysToMonth(y, 7) == DaysToMonth(y, 6) + 30;
    assert DaysToMonth(y, 8) == DaysToMonth(y, 7) + 31;
    assert DaysToMonth(y, 9) == DaysToMonth(y, 8) + 31;
    assert DaysToMonth(y, 10) == DaysToMonth(y, 9) + 30;
    assert DaysToMonth(y, 11) == DaysToMonth(y, 10) + 31;
  }

  /** For every accepted date, real or not, the era arithmetic is the simple count
      by year and month lengths; a day past the month's end runs on. */
  lemma CivilIsSimple(y: nat, m: nat, d: nat)
    requires 1 <= m <= 12
    ensures CivilDays(y, m, d) == SimpleDays(y, m, d)
  {
    var yy := if m <= 2 then y as int - 1 else y as int;
    CivilFromMarch(y, m, d, yy);
    YearClosedForm(y);
    MarchStep(y);
    MonthFromMarch(y, m);
  }

  lemma CivilFromMarch(y: nat, m: nat, d: nat, yy: int)
    requires yy == if m <= 2 then y as int - 1 else y as int
    ensures CivilDays(y, m, d) == MarchDays(yy) + (153 * ((m + 9) % 12) + 2) / 5 + d - 1 - 719468
  {
    EraForm(yy);
  }

  /** A month's offset from the year's first day and from the March before it. */
  lemma MonthFromMarch(y: int, m: nat)
    requires 1 <= m <= 12
    ensures var doy := (153 * ((m + 9) % 12) + 2) / 5;
            306 + DaysToMonth(y, m) == doy + if m <= 2 then 0 else YearLength(y)
  {
    MonthTable(y);
    MonthOffsets(m);
  }

  /** The March-based month offsets of the era arithmetic. */
  lemma MonthOffsets(m: nat)
    requires 1 <= m <= 12
    ensures var doy := (153 * ((m + 9) % 12) + 2) / 5;
            doy == (if m == 1 then 306 else if m == 2 then 337 else if m == 3 then 0 else if m == 4 then 31
                    else if m == 5 then 61 else if m == 6 then 92 else if m == 7 then 122 else if m == 8 then 153
                    else if m == 9 then 184 else if m == 10 then 214 else if m == 11 then 245 else 275)
  {
  }

  /** Seconds since midnight, counted: a minute is sixty of them, an hour sixty minutes. */
  function Clock(h: nat, m: nat, s: nat): nat
    decreases h, m, s
  {
    if s > 0 then 1 + Clock(h, m, s - 1)
    else if m > 0 then Clock(h, m - 1, 60)
    else if h > 0 then Clock(h - 1, 60, 0)
    else 0
  }

  lemma {:induction false} ClockSum(h: nat, m: nat, s: nat)
    ensures Clock(h, m, s) == h * 3600 + m * 60 + s
    decreases h, m, s
  {
    if s > 0 { ClockSum(h, m, s - 1); }
    else if m > 0 { ClockSum(h, m - 1, 60); }
    else if h > 0 { ClockSum(h - 1, 60, 0); }
  }

  /** The seconds since the epoch are the simple count: the days since 1970, of twenty-four
      hours each, and then the clock. */
  lemma UnixIsSimple(t: Date)
    requires 1 <= t.month <= 12
    ensures ToUnix(t) == SimpleDays(t.year, t.month, t.day) * Clock(24, 0, 0) + Clock(t.hour, t.minute, t.second)
  {
    CivilIsSimple(t.year, t.month, t.day);
    ClockSum(24, 0, 0);
    ClockSum(t.hour, t.minute, t.second);
  }

  /** Counting starts at the first second of 1970. */
  lemma EpochIsZero()
    ensures ToUnix(Date(1970, 1, 1, 0, 0, 0)) == 0
  {
    CivilIsSimple(1970, 1, 1);
    assert DaysToYear(1970) == 0 && DaysToMonth(1970, 1) == 0;
  }

  /* ---------- consequences ---------- */

  predicate Real(t: Date) { 1 <= t.month <= 12 && 1 <= t.day <= MonthLength(t.year, t.month) }

  function NextDay(t: Date): Date {
    if t.day < MonthLength(t.year, t.month) then t.(day := t.day + 1)
    else if t.month < 12 then t.(month := t.month + 1, day := 1)
    else t.(year := t.year + 1, month := 1, day := 1)
  }

  /** Successive days are exactly a day apart, across month ends, leap days, years
      and centuries. */
  lemma NextDayIsADayLater(t: Date)
    requires Real(t)
    ensures Real(NextDay(t)) && ToUnix(NextDay(t)) == ToUnix(t) + 86400
  {
    var n := NextDay(t);
    CivilIsSimple(t.year, t.month, t.day);
    CivilIsSimple(n.year, n.month, n.day);
    NextSimpleDay(t);
  }

  lemma NextSimpleDay(t: Date)
    requires Real(t)
    ensures var n := NextDay(t);
            SimpleDays(n.year, n.month, n.day) == SimpleDays(t.year, t.month, t.day) + 1
  {
    if t.day >= MonthLength(t.year, t.month) {
      if t.month == 12 {
        MonthTable(t.year);
        YearAfter(t.year);
      } else {
        assert DaysToMonth(t.year, t.month + 1) == DaysToMonth(t.year, t.month) + MonthLength(t.year, t.month);
      }
    }
  }

  lemma YearAfter(y: int)
    ensures DaysToYear(y + 1) == DaysToYear(y) + YearLength(y)
  {
    YearClosedForm(y);
    YearClosedForm(y + 1);
    MarchStep(y);
  }

  /** A time of day a clock shows. */
  predicate OnTheClock(t: Date) { t.hour < 24 && t.minute < 60 && t.second < 60 }

  function NextSecond(t: Date): Date {
    if t.second < 59 then t.(second := t.second + 1)
    else if t.minute < 59 then t.(minute := t.minute + 1, second := 0)
    else if t.hour < 23 then t.(hour := t.hour + 1, minute := 0, second := 0)
    else NextDay(t).(hour := 0, minute := 0, second := 0)
  }

  /** The next second is one later, across minutes, hours, days, leap days and centuries. */
  lemma NextSecondIsOneLater(t: Date)
    requires Real(t) && OnTheClock(t)
    ensures Real(NextSecond(t)) && OnTheClock(NextSecond(t)) && ToUnix(NextSecond(t)) == ToUnix(t) + 1
  {
    if t.second == 59 && t.minute == 59 && t.hour == 23 {
      NextDayIsADayLater(t);
      Midnight(NextDay(t));
    }
  }

  /** Setting the clock to midnight takes back the time of day. */
  lemma Midnight(t: Date)
    ensures ToUnix(t.(hour := 0, minute := 0, second := 0)) == ToUnix(t) - t.hour * 3600 - t.minute * 60 - t.second
  {
  }
}
