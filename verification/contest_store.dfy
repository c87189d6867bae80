/**
 * The contests file and its split into live and expired contests.
 *
 * Timestamps are read as `datetime.strptime(text, '%Y-%m-%d %H:%M:%S')` reads
 * them: the format compiles to one regular expression per field, the whole
 * text must be consumed, and the `datetime` constructor then rejects
 * impossible dates and the seconds 60 and 61 that the field grammar admits.
 */
module ContestStore {
  import opened Wrappers
  import opened Strings
  import opened StableSort

  /** A contest record; `startDate` and `endDate` are absent when the record
      lacks the key. */
  datatype Contest = Contest(id: string, title: string, startDate: Option<string>, endDate: Option<string>)

  /** A naive `datetime`, to the second. */
  datatype DateTime = DateTime(year: int, month: int, day: int, hour: int, minute: int, second: int)

  predicate IsLeapYear(y: int) {
    y % 4 == 0 && (y % 100 != 0 || y % 400 == 0)
  }

  function DaysInMonth(y: int, m: int): (r: int)
    requires 1 <= m <= 12
    ensures 28 <= r <= 31
  {
    if m == 2 then (if IsLeapYear(y) then 29 else 28)
    else if m == 4 || m == 6 || m == 9 || m == 11 then 30
    else 31
  }

  /** What the `datetime` constructor accepts. */
  predicate ValidDateTime(d: DateTime) {
    && 1 <= d.year <= 9999
    && 1 <= d.month <= 12
    && 1 <= d.day <= DaysInMonth(d.year, d.month)
    && 0 <= d.hour < 24 && 0 <= d.minute < 60 && 0 <= d.second < 60
  }

  /** `a < b` on datetimes. */
  predicate Before(a: DateTime, b: DateTime) {
    if a.year != b.year then a.year < b.year
    else if a.month != b.month then a.month < b.month
    else if a.day != b.day then a.day < b.day
    else if a.hour != b.hour then a.hour < b.hour
    else if a.minute != b.minute then a.minute < b.minute
    else a.second < b.second
  }

  // ---------------------------------------------------------------------------
  // The field grammars of `%Y-%m-%d %H:%M:%S`
  // ---------------------------------------------------------------------------

  /** `\d\d\d\d` */
  predicate YearField(t: string) {
    |t| == 4 && AllDigits(t)
  }

  /** `1[0-2]|0[1-9]|[1-9]` */
  predicate MonthField(t: string) {
    || (|t| == 2 && ((t[0] == '1' && '0' <= t[1] <= '2') || (t[0] == '0' && '1' <= t[1] <= '9')))
    || (|t| == 1 && '1' <= t[0] <= '9')
  }

  /** `3[01]|[12]\d|0[1-9]|[1-9]`; the remaining alternative ` [1-9]` starts
      with a space and is read separately. */
  predicate DayField(t: string) {
    || (|t| == 2 && ((t[0] == '3' && '0' <= t[1] <= '1') || ('1' <= t[0] <= '2' && IsDigit(t[1]))
                     || (t[0] == '0' && '1' <= t[1] <= '9')))
    || (|t| == 1 && '1' <= t[0] <= '9')
  }

  /** `2[0-3]|[0-1]\d|\d` */
  predicate HourField(t: string) {
    || (|t| == 2 && ((t[0] == '2' && '0' <= t[1] <= '3') || ('0' <= t[0] <= '1' && IsDigit(t[1]))))
    || (|t| == 1 && IsDigit(t[0]))
  }

  /** `[0-5]\d|\d` */
  predicate MinuteField(t: string) {
    || (|t| == 2 && '0' <= t[0] <= '5' && IsDigit(t[1]))
    || (|t| == 1 && IsDigit(t[0]))
  }

  /** `6[0-1]|[0-5]\d|\d` */
  predicate SecondField(t: string) {
    || (|t| == 2 && ((t[0] == '6' && '0' <= t[1] <= '1') || ('0' <= t[0] <= '5' && IsDigit(t[1]))))
    || (|t| == 1 && IsDigit(t[0]))
  }

  /** The text before and after the first occurrence of `c`. */
  function SplitAt(s: string, c: char): (r: Option<(string, string)>)
    ensures r.Some? ==> s == r.value.0 + [c] + r.value.1 && c !in r.value.0
    ensures r.None? <==> c !in s
  {
    if |s| == 0 then None
    else if s[0] == c then
      assert s == [] + [c] + s[1..];
      Some(([], s[1..]))
    else
      match SplitAt(s[1..], c)
      case None => None
      case Some((a, b)) =>
        assert s == [s[0]] + s[1..];
        Some(([s[0]] + a, b))
  }

  /** Number of leading ASCII digits. */
  function DigitRun(s: string): (n: nat)
    ensures n <= |s| && AllDigits(s[..n]) && (n < |s| ==> !IsDigit(s[n]))
  {
    if |s| == 0 || !IsDigit(s[0]) then 0
    else
      var n := DigitRun(s[1..]);
      assert s[..n + 1] == [s[0]] + s[1..][..n];
      n + 1
  }

  /** Number of leading whitespace characters: what `\s+` consumes. */
  function SpaceRun(s: string): (n: nat)
    ensures n <= |s| && AllSpace(s[..n]) && (n < |s| ==> !IsSpace(s[n]))
  {
    if |s| == 0 || !IsSpace(s[0]) then 0
    else
      var n := SpaceRun(s[1..]);
      assert s[..n + 1] == [s[0]] + s[1..][..n];
      n + 1
  }

  /** The value of a field that its grammar accepts. */
  function FieldValue(t: string, accepts: bool): Option<nat>
    requires accepts ==> |t| <= 2 && forall i :: 0 <= i < |t| ==> IsDigit(t[i])
  {
    if accepts then Some(DigitsValue(t)) else None
  }

  /** The day field at the start of `rest` and its length: either the digits
      up to the next non-digit, or a space and one digit. */
  function DayAt(rest: string): (r: Option<(nat, nat)>)
    ensures r.Some? ==> r.value.1 <= |rest|
  {
    if |rest| > 0 && rest[0] == ' ' then
      if |rest| >= 2 && '1' <= rest[1] <= '9' then Some((DigitValue(rest[1]), 2)) else None
    else
      var n := DigitRun(rest);
      if DayField(rest[..n]) then Some((DigitsValue(rest[..n]), n)) else None
  }

  /** `%H:%M:%S` matched against all of `t`. */
  function ClockOf(t: string): Option<(nat, nat, nat)> {
    match SplitAt(t, ':')
    case None => None
    case Some((ht, rest)) =>
      match SplitAt(rest, ':')
      case None => None
      case Some((mt, st)) =>
        var h := FieldValue(ht, HourField(ht));
        var m := FieldValue(mt, MinuteField(mt));
        var sec := FieldValue(st, SecondField(st));
        if h.None? || m.None? || sec.None? then None else Some((h.value, m.value, sec.value))
  }

  /** `%m-%d` followed by `\s+` and `%H:%M:%S`, matched against all of `t`. */
  function DateRestOf(t: string): Option<(nat, nat, nat, nat, nat)> {
    match SplitAt(t, '-')
    case None => None
    case Some((mt, rest)) =>
      var month := FieldValue(mt, MonthField(mt));
      var day := DayAt(rest);
      if month.None? || day.None? then None
      else
        var after := rest[day.value.1..];
        var w := SpaceRun(after);
        if w == 0 then None
        else
          match ClockOf(after[w..])
          case None => None
          case Some((h, m, sec)) => Some((month.value, day.value.0, h, m, sec))
  }

  /** `datetime.strptime(s, '%Y-%m-%d %H:%M:%S')`, or none where it raises. */
  function ParseTimestamp(s: string): (r: Option<DateTime>)
    ensures r.Some? ==> ValidDateTime(r.value)
  {
    if |s| < 5 || !YearField(s[..4]) || s[4] != '-' then None
    else
      match DateRestOf(s[5..])
      case None => None
      case Some((month, day, h, m, sec)) =>
        var d := DateTime(DigitsValue(s[..4]), month, day, h, m, sec);
        if ValidDateTime(d) then Some(d) else None
  }

  // ---------------------------------------------------------------------------
  // The zero-padded form the contests file is written in
  // ---------------------------------------------------------------------------

  function DigitChar(n: nat): char
    requires n < 10
  {
    ('0' as int + n) as char
  }

  function Power10(w: nat): nat {
    if w == 0 then 1 else 10 * Power10(w - 1)
  }

  /** The two widths the stamp uses. */
  lemma Power10Widths()
    ensures Power10(2) == 100 && Power10(4) == 10000
  {
    assert Power10(1) == 10;
  }

  /** `n` in exactly `w` decimal digits, with leading zeros. */
  function Pad(n: nat, w: nat): (r: string)
    requires n < Power10(w)
    ensures |r| == w && AllDigits(r)
  {
    if w == 0 then "" else Pad(n / 10, w - 1) + [DigitChar(n % 10)]
  }

  /** `d.strftime('%Y-%m-%d %H:%M:%S')` */
  function Format(d: DateTime): string
    requires ValidDateTime(d)
  {
    Pad(d.year, 4) + "-" + Pad(d.month, 2) + "-" + Pad(d.day, 2) + " "
      + Pad(d.hour, 2) + ":" + Pad(d.minute, 2) + ":" + Pad(d.second, 2)
  }

  lemma {:induction false} PadValue(n: nat, w: nat)
    requires n < Power10(w)
    ensures DigitsValue(Pad(n, w)) == n
    decreases w
  {
    if w > 0 {
      var p := Pad(n, w);
      assert p[..w - 1] == Pad(n / 10, w - 1);
      PadValue(n / 10, w - 1);
    }
  }

  /** Zero-padded numbers of one width compare as text the way they compare
      as numbers. */
  lemma {:induction false} PadOrder(a: nat, b: nat, w: nat)
    requires a < Power10(w) && b < Power10(w)
    ensures StrLt(Pad(a, w), Pad(b, w)) <==> a < b
    ensures Pad(a, w) == Pad(b, w) <==> a == b
    decreases w
  {
    if w > 0 {
      var pa, pb := Pad(a / 10, w - 1), Pad(b / 10, w - 1);
      PadOrder(a / 10, b / 10, w - 1);
      StrLtAppend(pa, [DigitChar(a % 10)], pb, [DigitChar(b % 10)]);
      LastDigitOrder(a, b);
      if Pad(a, w) == Pad(b, w) {
        assert Pad(a, w)[..w - 1] == pa && Pad(b, w)[..w - 1] == pb;
        assert Pad(a, w)[w - 1] == DigitChar(a % 10) && Pad(b, w)[w - 1] == DigitChar(b % 10);
      }
    }
  }

  /** Numbers compare by all but their last decimal digit first, then by it. */
  lemma LastDigitOrder(a: nat, b: nat)
    ensures a < b <==> a / 10 < b / 10 || (a / 10 == b / 10 && a % 10 < b % 10)
    ensures a == b <==> a / 10 == b / 10 && a % 10 == b % 10
  {
    assert a == 10 * (a / 10) + a % 10 && b == 10 * (b / 10) + b % 10;
  }

  /** Two stamps built field by field: the earlier fields decide, then the last. */
  lemma PeelField(q1: string, q2: string, sep: string, f1: string, f2: string)
    requires |q1| == |q2| && |f1| == |f2|
    ensures StrLt(q1 + sep + f1, q2 + sep + f2) <==> StrLt(q1, q2) || (q1 == q2 && StrLt(f1, f2))
    ensures q1 + sep + f1 == q2 + sep + f2 <==> q1 == q2 && f1 == f2
  {
    PeelOrder(q1, q2, sep, f1, f2);
    PeelEqual(q1, q2, sep, f1, f2);
  }

  lemma PeelOrder(q1: string, q2: string, sep: string, f1: string, f2: string)
    requires |q1| == |q2|
    ensures StrLt(q1 + sep + f1, q2 + sep + f2) <==> StrLt(q1, q2) || (q1 == q2 && StrLt(f1, f2))
  {
    assert q1 + sep + f1 == q1 + (sep + f1) && q2 + sep + f2 == q2 + (sep + f2);
    StrLtAppend(q1, sep + f1, q2, sep + f2);
    StrLtAppend(sep, f1, sep, f2);
    StrLtIrreflexive(sep);
  }

  lemma PeelEqual(q1: string, q2: string, sep: string, f1: string, f2: string)
    requires |q1| == |q2|
    ensures q1 + sep + f1 == q2 + sep + f2 <==> q1 == q2 && f1 == f2
  {
    var s1, s2 := q1 + sep + f1, q2 + sep + f2;
    if s1 == s2 {
      assert q1 == s1[..|q1|] && q2 == s2[..|q2|];
      assert f1 == s1[|q1| + |sep|..] && f2 == s2[|q2| + |sep|..];
    }
  }

  /** For stamps in the zero-padded form, text order is time order; so sorting
      the contests by their raw timestamp text sorts them chronologically. */
  lemma FormatOrder(a: DateTime, b: DateTime)
    requires ValidDateTime(a) && ValidDateTime(b)
    ensures StrLt(Format(a), Format(b)) <==> Before(a, b)
  {
    FormatParts(a);
    FormatParts(b);
    DateOrder(a, b);
    ClockOrder(a, b);
    PeelField(DatePart(a), DatePart(b), " ", ClockPart(a), ClockPart(b));
  }

  function DatePart(d: DateTime): string
    requires ValidDateTime(d)
  {
    Pad(d.year, 4) + "-" + Pad(d.month, 2) + "-" + Pad(d.day, 2)
  }

  function ClockPart(d: DateTime): string
    requires ValidDateTime(d)
  {
    Pad(d.hour, 2) + ":" + Pad(d.minute, 2) + ":" + Pad(d.second, 2)
  }

  lemma FormatParts(d: DateTime)
    requires ValidDateTime(d)
    ensures Format(d) == DatePart(d) + " " + ClockPart(d)
    ensures |DatePart(d)| == 10 && |ClockPart(d)| == 8
  {
  }

  /** The date fields decide first: year, then month, then day. */
  lemma DateOrder(a: DateTime, b: DateTime)
    requires ValidDateTime(a) && ValidDateTime(b)
    ensures StrLt(DatePart(a), DatePart(b)) <==>
      a.year < b.year || (a.year == b.year && (a.month < b.month || (a.month == b.month && a.day < b.day)))
    ensures DatePart(a) == DatePart(b) <==> a.year == b.year && a.month == b.month && a.day == b.day
  {
    PadOrder(a.year, b.year, 4);
    PadOrder(a.month, b.month, 2);
    PadOrder(a.day, b.day, 2);
    var y1, y2 := Pad(a.year, 4), Pad(b.year, 4);
    PeelField(y1, y2, "-", Pad(a.month, 2), Pad(b.month, 2));
    PeelField(y1 + "-" + Pad(a.month, 2), y2 + "-" + Pad(b.month, 2), "-", Pad(a.day, 2), Pad(b.day, 2));
  }

  /** Then the clock fields: hour, then minute, then second. */
  lemma ClockOrder(a: DateTime, b: DateTime)
    requires ValidDateTime(a) && ValidDateTime(b)
    ensures StrLt(ClockPart(a), ClockPart(b)) <==>
      a.hour < b.hour || (a.hour == b.hour && (a.minute < b.minute || (a.minute == b.minute && a.second < b.second)))
    ensures ClockPart(a) == ClockPart(b) <==> a.hour == b.hour && a.minute == b.minute && a.second == b.second
  {
    PadOrder(a.hour, b.hour, 2);
    PadOrder(a.minute, b.minute, 2);
    PadOrder(a.second, b.second, 2);
    var h1, h2 := Pad(a.hour, 2), Pad(b.hour, 2);
    PeelField(h1, h2, ":", Pad(a.minute, 2), Pad(b.minute, 2));
    PeelField(h1 + ":" + Pad(a.minute, 2), h2 + ":" + Pad(b.minute, 2), ":", Pad(a.second, 2), Pad(b.second, 2));
  }

  lemma Pad2(n: nat)
    requires n < 100
    ensures Pad(n, 2) == [DigitChar(n / 10), DigitChar(n % 10)]
  {
    var q := n / 10;
    assert q < 10 && q / 10 == 0 && q % 10 == q;
    assert Pad(q, 1) == Pad(0, 0) + [DigitChar(q)];
    assert Pad(n, 2) == Pad(q, 1) + [DigitChar(n % 10)];
  }

  lemma DigitsExclude(t: string, c: char)
    requires AllDigits(t) && !IsDigit(c)
    ensures c !in t
  {
  }

  /** Splitting at the first `c` finds the given parts when `c` does not occur
      in the first one. */
  lemma {:induction false} SplitAtFirst(s: string, c: char, a: string, b: string)
    requires s == a + [c] + b && c !in a
    ensures SplitAt(s, c) == Some((a, b))
    decreases |a|
  {
    if |a| == 0 {
      assert s[0] == c && s[1..] == b;
    } else {
      assert s[0] == a[0] && s[1..] == a[1..] + [c] + b;
      SplitAtFirst(s[1..], c, a[1..], b);
      assert [s[0]] + a[1..] == a;
    }
  }

  lemma {:induction false} DigitRunIs(s: string, k: nat)
    requires k <= |s| && AllDigits(s[..k]) && (k < |s| ==> !IsDigit(s[k]))
    ensures DigitRun(s) == k
    decreases k
  {
    if k > 0 {
      assert IsDigit(s[..k][0]);
      assert s[1..][..k - 1] == s[..k][1..];
      DigitRunIs(s[1..], k - 1);
    }
  }

  lemma {:induction false} SpaceRunIs(s: string, k: nat)
    requires k <= |s| && AllSpace(s[..k]) && (k < |s| ==> !IsSpace(s[k]))
    ensures SpaceRun(s) == k
    decreases k
  {
    if k > 0 {
      assert IsSpace(s[..k][0]);
      assert s[1..][..k - 1] == s[..k][1..];
      SpaceRunIs(s[1..], k - 1);
    }
  }

  lemma MonthPad(m: nat)
    requires 1 <= m <= 12
    ensures MonthField(Pad(m, 2)) && DigitsValue(Pad(m, 2)) == m
  {
    Pad2(m);
    PadValue(m, 2);
  }

  lemma DayPad(day: nat)
    requires 1 <= day <= 31
    ensures DayField(Pad(day, 2)) && DigitsValue(Pad(day, 2)) == day
  {
    Pad2(day);
    PadValue(day, 2);
  }

  lemma HourPad(h: nat)
    requires h < 24
    ensures HourField(Pad(h, 2)) && DigitsValue(Pad(h, 2)) == h
  {
    Pad2(h);
    PadValue(h, 2);
  }

  lemma SixtyPad(n: nat)
    requires n < 60
    ensures MinuteField(Pad(n, 2)) && SecondField(Pad(n, 2)) && DigitsValue(Pad(n, 2)) == n
  {
    Pad2(n);
    PadValue(n, 2);
  }

  lemma ClockRoundTrip(h: nat, mi: nat, sec: nat)
    requires h < 24 && mi < 60 && sec < 60
    ensures ClockOf(Pad(h, 2) + ":" + Pad(mi, 2) + ":" + Pad(sec, 2)) == Some((h, mi, sec))
  {
    var ph, pm, ps := Pad(h, 2), Pad(mi, 2), Pad(sec, 2);
    HourPad(h);
    SixtyPad(mi);
    SixtyPad(sec);
    DigitsExclude(ph, ':');
    DigitsExclude(pm, ':');
    assert ph + ":" + pm + ":" + ps == ph + [':'] + (pm + ":" + ps);
    SplitAtFirst(ph + ":" + pm + ":" + ps, ':', ph, pm + ":" + ps);
    SplitAtFirst(pm + ":" + ps, ':', pm, ps);
  }

  lemma DayRoundTrip(day: nat, after: string)
    requires 1 <= day <= 31 && |after| > 0 && after[0] == ' '
    ensures DayAt(Pad(day, 2) + after) == Some((day, 2))
  {
    var t := Pad(day, 2) + after;
    DayPad(day);
    Pad2(day);
    assert t[..2] == Pad(day, 2) && t[2] == ' ';
    DigitRunIs(t, 2);
  }

  lemma DateRestRoundTrip(m: nat, day: nat, h: nat, mi: nat, sec: nat)
    requires 1 <= m <= 12 && 1 <= day <= 31 && h < 24 && mi < 60 && sec < 60
    ensures DateRestOf(Pad(m, 2) + "-" + Pad(day, 2) + " " + Pad(h, 2) + ":" + Pad(mi, 2) + ":" + Pad(sec, 2))
         == Some((m, day, h, mi, sec))
  {
    var clock := Pad(h, 2) + ":" + Pad(mi, 2) + ":" + Pad(sec, 2);
    var rest := Pad(day, 2) + (" " + clock);
    var t := Pad(m, 2) + "-" + Pad(day, 2) + " " + Pad(h, 2) + ":" + Pad(mi, 2) + ":" + Pad(sec, 2);
    assert t == Pad(m, 2) + ['-'] + rest;
    DigitsExclude(Pad(m, 2), '-');
    SplitAtFirst(t, '-', Pad(m, 2), rest);
    MonthPad(m);
    DayClockRoundTrip(day, h, mi, sec);
  }

  /** The part after the month: the day, one space, and the clock. */
  lemma DayClockRoundTrip(day: nat, h: nat, mi: nat, sec: nat)
    requires 1 <= day <= 31 && h < 24 && mi < 60 && sec < 60
    ensures var clock := Pad(h, 2) + ":" + Pad(mi, 2) + ":" + Pad(sec, 2);
      var rest := Pad(day, 2) + (" " + clock);
      && DayAt(rest) == Some((day, 2))
      && rest[2..] == " " + clock
      && SpaceRun(" " + clock) == 1
      && ClockOf((" " + clock)[1..]) == Some((h, mi, sec))
  {
    var clock := Pad(h, 2) + ":" + Pad(mi, 2) + ":" + Pad(sec, 2);
    var rest := Pad(day, 2) + (" " + clock);
    DayRoundTrip(day, " " + clock);
    Pad2(day);
    assert rest[2..] == " " + clock;
    Pad2(h);
    assert (" " + clock)[..1] == " " && (" " + clock)[1] == clock[0];
    SpaceRunIs(" " + clock, 1);
    assert (" " + clock)[1..] == clock;
    ClockRoundTrip(h, mi, sec);
  }

  /** A stamp written in the zero-padded form reads back as the same time. */
  lemma FormatThenParse(d: DateTime)
    requires ValidDateTime(d)
    ensures ParseTimestamp(Format(d)) == Some(d)
  {
    Power10Widths();
    var y := Pad(d.year, 4);
    var t := Pad(d.month, 2) + "-" + Pad(d.day, 2) + " " + Pad(d.hour, 2) + ":" + Pad(d.minute, 2) + ":" + Pad(d.second, 2);
    assert Format(d) == y + "-" + t;
    PadValue(d.year, 4);
    DateRestRoundTrip(d.month, d.day, d.hour, d.minute, d.second);
    ParseYearThenRest(y, t, d);
  }

  /** A four-digit year, a dash, and a rest that reads as the other fields. */
  lemma ParseYearThenRest(y: string, t: string, d: DateTime)
    requires YearField(y) && DigitsValue(y) == d.year && ValidDateTime(d)
    requires DateRestOf(t) == Some((d.month, d.day, d.hour, d.minute, d.second))
    ensures ParseTimestamp(y + "-" + t) == Some(d)
  {
    var s := y + "-" + t;
    assert s[..4] == y && s[4] == '-' && s[5..] == t;
  }

  // ---------------------------------------------------------------------------
  // The live / expired split
  // ---------------------------------------------------------------------------

  /** The records of the contests file; a missing file reads as no records. */
  function AllContests(file: Option<seq<Contest>>): seq<Contest> {
    match file
    case None => []
    case Some(cs) => cs
  }

  /** Start and end of a contest, when both keys are present and both parse;
      otherwise the record is skipped. */
  function Window(c: Contest): (r: Option<(DateTime, DateTime)>)
    ensures r.Some? <==> c.startDate.Some? && c.endDate.Some?
                         && ParseTimestamp(c.startDate.value).Some? && ParseTimestamp(c.endDate.value).Some?
    ensures r.Some? ==> ValidDateTime(r.value.0) && ValidDateTime(r.value.1)
  {
    if c.startDate.None? || c.endDate.None? then None
    else
      var start := ParseTimestamp(c.startDate.value);
      var end := ParseTimestamp(c.endDate.value);
      if start.None? || end.None? then None else Some((start.value, end.value))
  }

  /** The end lies after `now`. The clock's microseconds never matter: a
      parsed end has none, so it exceeds `now` exactly when it exceeds `now`
      cut to the second, which is what `now` stands for here. */
  predicate IsLive(c: Contest, now: DateTime) {
    Window(c).Some? && Before(now, Window(c).value.1)
  }

  predicate IsExpired(c: Contest, now: DateTime) {
    Window(c).Some? && !Before(now, Window(c).value.1)
  }

  /** The readable records split into live and expired, each in file order. */
  function Classify(cs: seq<Contest>, now: DateTime): (r: (seq<Contest>, seq<Contest>))
    ensures forall c :: multiset(r.0)[c] == (if IsLive(c, now) then multiset(cs)[c] else 0)
    ensures forall c :: multiset(r.1)[c] == (if IsExpired(c, now) then multiset(cs)[c] else 0)
  {
    if |cs| == 0 then ([], [])
    else
      var rest := Classify(cs[1..], now);
      assert cs == [cs[0]] + cs[1..];
      if IsLive(cs[0], now) then ([cs[0]] + rest.0, rest.1)
      else if IsExpired(cs[0], now) then (rest.0, [cs[0]] + rest.1)
      else rest
  }

  function LiveTest(now: DateTime): Contest -> bool {
    c => IsLive(c, now)
  }

  function ExpiredTest(now: DateTime): Contest -> bool {
    c => IsExpired(c, now)
  }

  /** The live contests of `cs`, in file order. */
  function LiveOf(cs: seq<Contest>, now: DateTime): seq<Contest> {
    Filter(cs, LiveTest(now))
  }

  /** The expired contests of `cs`, in file order. */
  function ExpiredOf(cs: seq<Contest>, now: DateTime): seq<Contest> {
    Filter(cs, ExpiredTest(now))
  }

  /** The split loop keeps file order: its two lists are the two filters. */
  lemma {:induction false} ClassifyIsFilters(cs: seq<Contest>, now: DateTime)
    ensures Classify(cs, now).0 == LiveOf(cs, now)
    ensures Classify(cs, now).1 == ExpiredOf(cs, now)
  {
    if |cs| > 0 {
      var h, rest := cs[0], cs[1..];
      ClassifyIsFilters(rest, now);
      var live, expired := LiveOf(rest, now), ExpiredOf(rest, now);
      assert LiveTest(now)(h) == IsLive(h, now) && ExpiredTest(now)(h) == IsExpired(h, now);
      assert LiveOf(cs, now) == (if LiveTest(now)(h) then [h] else []) + live;
      assert ExpiredOf(cs, now) == (if ExpiredTest(now)(h) then [h] else []) + expired;
      if IsLive(h, now) {
        assert Classify(cs, now) == ([h] + live, expired);
      } else if IsExpired(h, now) {
        assert Classify(cs, now) == (live, [h] + expired);
      } else {
        assert Classify(cs, now) == (live, expired);
      }
    }
  }

  function StartText(c: Contest): string {
    if c.startDate.Some? then c.startDate.value else ""
  }

  function EndText(c: Contest): string {
    if c.endDate.Some? then c.endDate.value else ""
  }

  /** `key=lambda x: x['start_date']`: ascending start text. */
  predicate LiveLe(a: Contest, b: Contest) {
    StrLe(StartText(a), StartText(b))
  }

  /** `key=lambda x: x['end_date'], reverse=True`: descending end text; a
      reversed Python sort still keeps equal keys in their original order. */
  predicate ExpiredLe(a: Contest, b: Contest) {
    StrLe(EndText(b), EndText(a))
  }

  lemma LiveLeIsTotalPreorder()
    ensures TotalPreorder(LiveLe)
  {
    forall a: Contest, b: Contest
      ensures LiveLe(a, b) || LiveLe(b, a)
    {
      StrLeTotalOrder(StartText(a), StartText(b), StartText(b));
    }
    forall a: Contest, b: Contest, c: Contest | LiveLe(a, b) && LiveLe(b, c)
      ensures LiveLe(a, c)
    {
      StrLeTotalOrder(StartText(a), StartText(b), StartText(c));
    }
  }

  lemma ExpiredLeIsTotalPreorder()
    ensures TotalPreorder(ExpiredLe)
  {
    forall a: Contest, b: Contest
      ensures ExpiredLe(a, b) || ExpiredLe(b, a)
    {
      StrLeTotalOrder(EndText(a), EndText(b), EndText(b));
    }
    forall a: Contest, b: Contest, c: Contest | ExpiredLe(a, b) && ExpiredLe(b, c)
      ensures ExpiredLe(a, c)
    {
      StrLeTotalOrder(EndText(c), EndText(b), EndText(a));
    }
  }

  /** The contests page data: every readable record lands in exactly one of
      the two lists, as often as it occurs in the file; live contests come by
      ascending start text, expired ones by descending end text. */
  function ContestsData(file: Option<seq<Contest>>, now: DateTime): (r: (seq<Contest>, seq<Contest>))
    ensures file.None? ==> r == ([], [])
    ensures forall c :: multiset(r.0)[c] == (if IsLive(c, now) then multiset(AllContests(file))[c] else 0)
    ensures forall c :: multiset(r.1)[c] == (if IsExpired(c, now) then multiset(AllContests(file))[c] else 0)
    ensures forall i, j :: 0 <= i < j < |r.0| ==> StrLe(StartText(r.0[i]), StartText(r.0[j]))
    ensures forall i, j :: 0 <= i < j < |r.1| ==> StrLe(EndText(r.1[j]), EndText(r.1[i]))
  {
    if file.None? then ([], [])
    else
      var split := Classify(file.value, now);
      LiveLeIsTotalPreorder();
      ExpiredLeIsTotalPreorder();
      SortSorted(split.0, LiveLe);
      SortSorted(split.1, ExpiredLe);
      (Sort(split.0, LiveLe), Sort(split.1, ExpiredLe))
  }

  /** Contests with the same start text stay in file order among the live
      ones, and contests with the same end text among the expired ones: the
      ties of each sorted list are the ties of the file's filter. */
  lemma ContestsKeepFileOrderOnTies(file: Option<seq<Contest>>, now: DateTime, y: Contest)
    ensures Ties(ContestsData(file, now).0, LiveLe, y) == Ties(LiveOf(AllContests(file), now), LiveLe, y)
    ensures Ties(ContestsData(file, now).1, ExpiredLe, y) == Ties(ExpiredOf(AllContests(file), now), ExpiredLe, y)
  {
    ClassifyIsFilters(AllContests(file), now);
    var split := Classify(AllContests(file), now);
    LiveLeIsTotalPreorder();
    ExpiredLeIsTotalPreorder();
    SortTies(split.0, LiveLe, y);
    SortTies(split.1, ExpiredLe, y);
  }

  /** The stamp is written in the zero-padded form that it parses to. */
  predicate Canonical(t: string) {
    ParseTimestamp(t).Some? && Format(ParseTimestamp(t).value) == t
  }

  /** Sorting by the raw text orders contests by time when their stamps are
      written zero-padded: no live contest starts before an earlier-listed one,
      and no expired contest ended after an earlier-listed one. */
  lemma ListsAreChronological(file: Option<seq<Contest>>, now: DateTime, i: nat, j: nat)
    ensures var r := ContestsData(file, now);
      && (i < j < |r.0| && Canonical(StartText(r.0[i])) && Canonical(StartText(r.0[j]))
          ==> !Before(ParseTimestamp(StartText(r.0[j])).value, ParseTimestamp(StartText(r.0[i])).value))
      && (i < j < |r.1| && Canonical(EndText(r.1[i])) && Canonical(EndText(r.1[j]))
          ==> !Before(ParseTimestamp(EndText(r.1[i])).value, ParseTimestamp(EndText(r.1[j])).value))
  {
    var r := ContestsData(file, now);
    if i < j < |r.0| && Canonical(StartText(r.0[i])) && Canonical(StartText(r.0[j])) {
      TextOrderIsTimeOrder(StartText(r.0[i]), StartText(r.0[j]));
    }
    if i < j < |r.1| && Canonical(EndText(r.1[i])) && Canonical(EndText(r.1[j])) {
      TextOrderIsTimeOrder(EndText(r.1[j]), EndText(r.1[i]));
    }
  }

  lemma TextOrderIsTimeOrder(a: string, b: string)
    requires Canonical(a) && Canonical(b) && StrLe(a, b)
    ensures !Before(ParseTimestamp(b).value, ParseTimestamp(a).value)
  {
    var da, db := ParseTimestamp(a).value, ParseTimestamp(b).value;
    FormatOrder(db, da);
    StrLtAsymmetric(a, b);
    StrLtIrreflexive(a);
  }
}
