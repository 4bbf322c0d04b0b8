/** The activity correlator: the log lines whose syslog timestamp, placed in
    the year of the range's start, lies within an inclusive range given as
    two `YYYY-MM-DD HH:MM:SS` bounds separated by a comma. */
module TimeWindow {
  import opened Common

  /** A calendar date and a time of day, as Python's naive `datetime`
      holds them (no microseconds ever arise here). */
  datatype Timestamp = Timestamp(year: nat, month: nat, day: nat, hour: nat, minute: nat, second: nat)

  datatype RangeError =
    | WrongBoundCount(count: nat)  // `split(',')` did not give exactly two parts
    | BadStart                     // the first bound does not parse
    | BadEnd                       // the second bound does not parse

  datatype ActivityEntry =
    | Activity(timestamp: string, text: string)
    | Message(text: string)

  const NoActivities := "No activities found within the specified time range."

  /** The syslog year when none is given: `strptime` defaults to 1900. */
  const DefaultYear := 1900

  // ---------------------------------------------------------------------
  // The calendar.

  predicate IsLeapYear(y: int) {
    y % 4 == 0 && (y % 100 != 0 || y % 400 == 0)
  }

  function DaysIn(y: int, m: int): int
    requires 1 <= m <= 12
  {
    if m == 2 then (if IsLeapYear(y) then 29 else 28)
    else if m == 4 || m == 6 || m == 9 || m == 11 then 30
    else 31
  }

  /** The values `datetime` accepts: years 1 to 9999, real dates, and
      seconds up to 59. */
  predicate Valid(t: Timestamp) {
    1 <= t.year <= 9999 && 1 <= t.month <= 12 && 1 <= t.day <= DaysIn(t.year, t.month)
    && 0 <= t.hour <= 23 && 0 <= t.minute <= 59 && 0 <= t.second <= 59
  }

  /** `a <= b` on datetimes: the fields compared in order. */
  predicate NotAfter(a: Timestamp, b: Timestamp) {
    if a.year != b.year then a.year < b.year
    else if a.month != b.month then a.month < b.month
    else if a.day != b.day then a.day < b.day
    else if a.hour != b.hour then a.hour < b.hour
    else if a.minute != b.minute then a.minute < b.minute
    else a.second <= b.second
  }

  // ---------------------------------------------------------------------
  // `strptime` fields.

  /** A numeric field of `strptime`: one or two decimal digits whose value
      lies in `lo .. hi`. Each field's alternatives (`1[0-2]|0[1-9]|[1-9]`
      for the month, and so on) accept exactly these texts. */
  function Field(tok: string, lo: nat, hi: nat): (r: Option<nat>)
    ensures r.Some? ==> lo <= r.value <= hi
  {
    if 1 <= |tok| <= 2 && AllDigits(tok) && lo <= DigitsValue(tok) <= hi then Some(DigitsValue(tok)) else None
  }

  /** `%d` also has the alternative ` [1-9]`: a blank and one digit. */
  function DayField(tok: string): (r: Option<nat>)
    ensures r.Some? ==> 1 <= r.value <= 31
  {
    if |tok| == 2 && tok[0] == ' ' && '1' <= tok[1] <= '9' then Some(tok[1] as nat - '0' as nat)
    else Field(tok, 1, 31)
  }

  /** `%H:%M:%S`, the seconds allowing the leap values 60 and 61 that only
      the `datetime` constructor rejects. */
  function Clock(s: string): (r: Option<(nat, nat, nat)>)
    ensures r.Some? ==> 0 <= r.value.0 <= 23 && 0 <= r.value.1 <= 59 && 0 <= r.value.2 <= 61
  {
    var parts := SplitOn(s, ':');
    if |parts| != 3 then None
    else match (Field(parts[0], 0, 23), Field(parts[1], 0, 59), Field(parts[2], 0, 61))
      case (Some(h), Some(mi), Some(sec)) => Some((h, mi, sec))
      case _ => None
  }

  const MonthNames: seq<string> := ["jan", "feb", "mar", "apr", "may", "jun", "jul", "aug", "sep", "oct", "nov", "dec"]

  /** The month abbreviations as syslog writes them. */
  const MonthAbbrs: seq<string> := ["Jan", "Feb", "Mar", "Apr", "May", "Jun", "Jul", "Aug", "Sep", "Oct", "Nov", "Dec"]

  function LowerAscii(c: char): char {
    if 'A' <= c <= 'Z' then (c as int - 'A' as int + 'a' as int) as char else c
  }

  function LowerAll(s: string): (r: string)
    ensures |r| == |s|
  {
    if s == [] then [] else LowerAll(s[..|s| - 1]) + [LowerAscii(s[|s| - 1])]
  }

  /** `%b` in the English locale, matched without regard to case. */
  function MonthNumber(tok: string): (r: Option<nat>)
    ensures r.Some? ==> 1 <= r.value <= 12 && LowerAll(tok) == MonthNames[r.value - 1]
    ensures r.None? ==> LowerAll(tok) !in MonthNames
  {
    MonthFrom(LowerAll(tok), 12)
  }

  function MonthFrom(low: string, n: nat): (r: Option<nat>)
    requires n <= 12
    ensures r.Some? ==> 1 <= r.value <= n && low == MonthNames[r.value - 1]
    ensures r.None? ==> forall k :: 0 <= k < n ==> MonthNames[k] != low
  {
    if n == 0 then None
    else if MonthNames[n - 1] == low then Some(n)
    else MonthFrom(low, n - 1)
  }

  // ---------------------------------------------------------------------
  // The two timestamp formats.

  /** A bound: the stripped text in `%Y-%m-%d %H:%M:%S`, where the format's
      blank matches any run of whitespace, checked by `datetime`. */
  function ParseBound(raw: string): (r: Option<Timestamp>)
    ensures r.Some? ==> Valid(r.value)
  {
    var s := Strip(raw);
    if |s| < 5 || !AllDigits(s[..4]) || s[4] != '-' then None
    else
      var year := DigitsValue(s[..4]);
      var r1 := s[5..];
      match IndexOf(r1, '-')
      case None => None
      case Some(i) =>
        var r2 := r1[i + 1..];
        var n := DayLength(r2);
        var r3 := r2[n..];
        if r3 == [] || !IsSpace(r3[0]) then None
        else
          match (Field(r1[..i], 1, 12), DayField(r2[..n]), Clock(TrimLeft(r3)))
          case (Some(mo), Some(d), Some((h, mi, sec))) =>
            var t := Timestamp(year, mo, d, h, mi, sec);
            if Valid(t) then Some(t) else None
          case _ => None
  }

  /** The length of the day token at the start of `r`: the blank-and-digit
      alternative when `r` starts with a space, the leading word otherwise. */
  function DayLength(r: string): (n: nat)
    ensures n <= |r|
  {
    if |r| >= 2 && r[0] == ' ' then 2 else WordLength(r)
  }

  /** The syslog timestamp of a line: its first three words joined by a
      space and read as `%b %d %H:%M:%S` (in the default year 1900, which
      `datetime` checks), then moved to `year`. */
  function LineStamp(line: string, year: nat): (r: Option<Timestamp>)
    ensures r.Some? ==> r.value.year == year && InRanges(r.value)
    ensures r.Some? && 1 <= year <= 9999 ==> Valid(r.value)
  {
    var ws := Words(line);
    if |ws| < 3 then None
    else match (MonthNumber(ws[0]), Field(ws[1], 1, 31), Clock(ws[2]))
      case (Some(mo), Some(d), Some((h, mi, sec))) =>
        if Valid(Timestamp(DefaultYear, mo, d, h, mi, sec)) then
          DefaultYearIsShortest(year, mo);
          Some(Timestamp(year, mo, d, h, mi, sec))
        else None
      case _ => None
  }

  /** 1900 is not a leap year, so no month is shorter in any other year. */
  lemma DefaultYearIsShortest(y: nat, m: nat)
    requires 1 <= m <= 12
    ensures DaysIn(DefaultYear, m) <= DaysIn(y, m)
  {
  }

  function Digit(d: nat): char
    requires d <= 9
  {
    (d + '0' as int) as char
  }

  /** `%02d` of a number below 100. */
  function Pad2(n: nat): (s: string)
    requires n <= 99
    ensures |s| == 2 && AllDigits(s)
  {
    [Digit(n / 10), Digit(n % 10)]
  }

  /** The fields below the year hold the values a clock and a calendar
      allow, so each is written with two digits. */
  predicate InRanges(t: Timestamp) {
    1 <= t.month <= 12 && 1 <= t.day <= 31 && t.hour <= 23 && t.minute <= 59 && t.second <= 59
  }

  /** `strftime('%Y-%m-%d %H:%M:%S')`; glibc writes `%Y` without padding. */
  function FormatStamp(t: Timestamp): string
    requires InRanges(t)
  {
    NatToString(t.year) + "-" + Pad2(t.month) + "-" + Pad2(t.day) + " "
      + Pad2(t.hour) + ":" + Pad2(t.minute) + ":" + Pad2(t.second)
  }

  // ---------------------------------------------------------------------
  // The range and the selection.

  function ParseRange(timeRange: string): (r: Result<(Timestamp, Timestamp), RangeError>)
    ensures r.Ok? ==> Valid(r.value.0) && Valid(r.value.1)
  {
    var parts := SplitOn(timeRange, ',');
    if |parts| != 2 then Err(WrongBoundCount(|parts|))
    else match (ParseBound(parts[0]), ParseBound(parts[1]))
      case (None, _) => Err(BadStart)
      case (_, None) => Err(BadEnd)
      case (Some(a), Some(b)) => Ok((a, b))
  }

  /** The entry a line contributes, if it is kept: its timestamp parses
      and, in the start's year, lies between the bounds inclusive. */
  function EntryFor(line: string, start: Timestamp, end: Timestamp): Option<ActivityEntry> {
    match LineStamp(line, start.year)
    case None => None
    case Some(ts) =>
      if NotAfter(start, ts) && NotAfter(ts, end) then Some(Activity(FormatStamp(ts), Strip(line))) else None
  }

  /** The entries of the kept lines, in file order. */
  function Select(lines: seq<string>, start: Timestamp, end: Timestamp): seq<ActivityEntry> {
    Gather(lines, line => EntryFor(line, start, end))
  }

  /** The whole operation: a range that does not parse is an error, raised
      before the log is read; a missing log gives no entries; a log with no
      kept line gives the placeholder message alone. */
  function Activities(timeRange: string, log: Option<seq<string>>): (r: Result<seq<ActivityEntry>, RangeError>)
    ensures ParseRange(timeRange).Err? <==> r.Err?
    ensures r.Ok? && log.None? ==> r.value == []
    ensures r.Ok? && log.Some? ==> r.value != []
  {
    match ParseRange(timeRange)
    case Err(e) => Err(e)
    case Ok((start, end)) =>
      match log
      case None => Ok([])
      case Some(lines) =>
        var found := Select(lines, start, end);
        Ok(if found == [] then [Message(NoActivities)] else found)
  }

  method GetActivitiesInTimeRange(timeRange: string, log: Option<seq<string>>)
    returns (r: Result<seq<ActivityEntry>, RangeError>)
    ensures r == Activities(timeRange, log)
  {
    var bounds := ParseRange(timeRange);
    if bounds.Err? {
      return Err(bounds.error);
    }
    var start, end := bounds.value.0, bounds.value.1;
    if log.None? {
      return Ok([]);
    }
    var activities := SelectActivities(log.value, start, end);
    if activities == [] {
      return Ok([Message(NoActivities)]);
    }
    return Ok(activities);
  }
  /** The loop over the log's lines: each line whose syslog stamp parses and
      falls in the window, in the order of the log. */
  method SelectActivities(lines: seq<string>, start: Timestamp, end: Timestamp) returns (activities: seq<ActivityEntry>)
    ensures activities == Select(lines, start, end)
  {
    activities := [];
    for i := 0 to |lines|
      invariant activities == Select(lines[..i], start, end)
    {
      var line := lines[i];
      var stamp := LineStamp(line, start.year);
      if stamp.Some? && NotAfter(start, stamp.value) && NotAfter(stamp.value, end) {
        activities := activities + [Activity(FormatStamp(stamp.value), Strip(line))];
      }
      GatherSnoc(lines, i, line => EntryFor(line, start, end));
    }
    assert lines[..|lines|] == lines;
  }

}

/** Properties of the activity correlator. */
module TimeWindowProperties {
  import opened Common
  import opened TimeWindow

  // ---------------------------------------------------------------------
  // Selection: order, and which lines are kept.

  /** Selecting over two consecutive parts of a log gives the selection of
      the first part followed by that of the second: the kept entries keep
      the file's order. */
  lemma SelectAppend(a: seq<string>, b: seq<string>, start: Timestamp, end: Timestamp)
    ensures Select(a + b, start, end) == Select(a, start, end) + Select(b, start, end)
  {
    GatherAppend(a, b, line => EntryFor(line, start, end));
  }

  /** An entry is selected exactly when some line's timestamp parses, lies
      in the window once the start's year is put in, and the entry is that
      timestamp written back with the stripped line. */
  lemma SelectMembers(lines: seq<string>, start: Timestamp, end: Timestamp, e: ActivityEntry)
    ensures e in Select(lines, start, end)
        <==> exists k :: 0 <= k < |lines| &&
               var ts := LineStamp(lines[k], start.year);
               ts.Some? && NotAfter(start, ts.value) && NotAfter(ts.value, end)
               && e == Activity(FormatStamp(ts.value), Strip(lines[k]))
  {
    GatherMembers(lines, line => EntryFor(line, start, end), e);
  }

  /** The result for a log that exists is the placeholder alone exactly
      when no line is kept, and the selection otherwise. */
  lemma ActivitiesShape(timeRange: string, lines: seq<string>, start: Timestamp, end: Timestamp)
    requires ParseRange(timeRange) == Ok((start, end))
    ensures Activities(timeRange, Some(lines)) == Ok([Message(NoActivities)])
        <==> forall k :: 0 <= k < |lines| ==> EntryFor(lines[k], start, end).None?
    ensures Activities(timeRange, Some(lines)) != Ok([Message(NoActivities)])
        ==> Activities(timeRange, Some(lines)) == Ok(Select(lines, start, end))
  {
    var f := line => EntryFor(line, start, end);
    GatherEmpty(lines, f);
    var found := Select(lines, start, end);
    if found != [] {
      GatherMembers(lines, f, found[0]);
      assert found[0] in found;
    }
  }

  /** A syslog line dated February 29 is never kept: it is read in 1900,
      which has no such day, before the start's year is put in, even when
      that year is a leap year. */
  lemma LeapDayIsSkipped(line: string, start: Timestamp, end: Timestamp)
    requires var ws := Words(line); |ws| >= 3 && MonthNumber(ws[0]) == Some(2) && Field(ws[1], 1, 31) == Some(29)
    ensures LineStamp(line, start.year) == None
    ensures EntryFor(line, start, end) == None
  {
    assert !IsLeapYear(DefaultYear);
  }

  /** Every selected entry carries a timestamp that reads back, in the
      bound format, as a time within the window (for four-digit years). */
  lemma SelectedStampsInWindow(lines: seq<string>, start: Timestamp, end: Timestamp, e: ActivityEntry)
    requires Valid(start) && start.year >= 1000
    requires e in Select(lines, start, end)
    ensures e.Activity?
    ensures var t := ParseBound(e.timestamp); t.Some? && NotAfter(start, t.value) && NotAfter(t.value, end)
  {
    SelectMembers(lines, start, end, e);
    var k :| 0 <= k < |lines| &&
               var ts := LineStamp(lines[k], start.year);
               ts.Some? && NotAfter(start, ts.value) && NotAfter(ts.value, end)
               && e == Activity(FormatStamp(ts.value), Strip(lines[k]));
    BoundRoundTrip(LineStamp(lines[k], start.year).value);
  }

  /** A line is kept exactly when its syslog stamp parses and lies within
      the bounds. Its entry is the stripped line with the stamp written out,
      which reads back as that stamp when the year has four digits. */
  lemma EntryForKeeps(line: string, start: Timestamp, end: Timestamp)
    ensures var e := EntryFor(line, start, end); var ts := LineStamp(line, start.year);
            e.Some? <==> ts.Some? && NotAfter(start, ts.value) && NotAfter(ts.value, end)
    ensures var e := EntryFor(line, start, end);
            e.Some? ==> e.value.Activity? && e.value.text == Strip(line)
    ensures var e := EntryFor(line, start, end);
            e.Some? && 1000 <= start.year <= 9999 ==> ParseBound(e.value.timestamp) == LineStamp(line, start.year)
  {
    var ts := LineStamp(line, start.year);
    if ts.Some? && 1000 <= start.year <= 9999 {
      BoundRoundTrip(ts.value);
    }
  }

  /** `<=` on datetimes is a total order: reflexive, antisymmetric,
      transitive and total. */
  lemma NotAfterIsTotalOrder(a: Timestamp, b: Timestamp, c: Timestamp)
    ensures NotAfter(a, a)
    ensures NotAfter(a, b) && NotAfter(b, a) ==> a == b
    ensures NotAfter(a, b) && NotAfter(b, c) ==> NotAfter(a, c)
    ensures NotAfter(a, b) || NotAfter(b, a)
  {
  }

  // ---------------------------------------------------------------------
  // The bound format read back.

  lemma Pad2Value(n: nat)
    requires n <= 99
    ensures DigitsValue(Pad2(n)) == n
  {
    var s := Pad2(n);
    assert s[..1] == [Digit(n / 10)];
    assert s[..1][..0] == [];
    assert DigitsValue(s[..1]) == n / 10;
  }

  lemma Pad2Field(n: nat, lo: nat, hi: nat)
    requires n <= 99 && lo <= n <= hi
    ensures Field(Pad2(n), lo, hi) == Some(n)
  {
    Pad2Value(n);
  }

  lemma Pad2NoSeparator(n: nat, c: char)
    requires n <= 99 && !IsDigit(c)
    ensures c !in Pad2(n) && !IsSpace(Pad2(n)[0]) && !IsSpace(Pad2(n)[1])
  {
    DigitIsNotSpace(Pad2(n)[0]);
    DigitIsNotSpace(Pad2(n)[1]);
  }

  /** The clock part of the bound format is read back. */
  lemma ClockRoundTrip(h: nat, mi: nat, sec: nat)
    requires h <= 23 && mi <= 59 && sec <= 59
    ensures Clock(Pad2(h) + ":" + Pad2(mi) + ":" + Pad2(sec)) == Some((h, mi, sec))
  {
    var H, M, S := Pad2(h), Pad2(mi), Pad2(sec);
    Pad2NoSeparator(h, ':');
    Pad2NoSeparator(mi, ':');
    Pad2NoSeparator(sec, ':');
    assert H + ":" + M + ":" + S == H + [':'] + (M + [':'] + S);
    SplitOnFirst(H, ':', M + [':'] + S);
    SplitOnFirst(M, ':', S);
    SplitOnWhole(S, ':');
    Pad2Field(h, 0, 23);
    Pad2Field(mi, 0, 59);
    Pad2Field(sec, 0, 61);
  }

  /** From the day onwards: the day, one blank, and the clock. */
  lemma DayAndClockRoundTrip(t: Timestamp, r2: string)
    requires Valid(t)
    requires r2 == Pad2(t.day) + " " + Pad2(t.hour) + ":" + Pad2(t.minute) + ":" + Pad2(t.second)
    ensures var n := DayLength(r2);
            n == 2 && r2[..n] == Pad2(t.day) && DayField(r2[..n]) == Some(t.day)
            && r2[n..] != [] && IsSpace(r2[n..][0])
            && Clock(TrimLeft(r2[n..])) == Some((t.hour, t.minute, t.second))
  {
    var D := Pad2(t.day);
    var C := Pad2(t.hour) + ":" + Pad2(t.minute) + ":" + Pad2(t.second);
    assert r2 == D + ([' '] + C);
    Pad2NoSeparator(t.day, ' ');
    Pad2NoSeparator(t.hour, ' ');
    WordLengthOfWord(D, [' '] + C);
    assert r2[..2] == D && r2[2..] == [' '] + C;
    Pad2Field(t.day, 1, 31);
    assert C[0] == Pad2(t.hour)[0];
    TrimLeftOneBlank(' ', C);
    ClockRoundTrip(t.hour, t.minute, t.second);
  }

  /** From the month onwards: the month, a dash, then the day and clock. */
  lemma MonthRoundTrip(t: Timestamp, r1: string)
    requires Valid(t)
    requires r1 == Pad2(t.month) + "-" + Pad2(t.day) + " " + Pad2(t.hour) + ":" + Pad2(t.minute) + ":" + Pad2(t.second)
    ensures IndexOf(r1, '-') == Some(2)
    ensures r1[..2] == Pad2(t.month) && Field(r1[..2], 1, 12) == Some(t.month)
    ensures r1[3..] == Pad2(t.day) + " " + Pad2(t.hour) + ":" + Pad2(t.minute) + ":" + Pad2(t.second)
  {
    var M := Pad2(t.month);
    var R2 := Pad2(t.day) + " " + Pad2(t.hour) + ":" + Pad2(t.minute) + ":" + Pad2(t.second);
    assert r1 == M + ['-'] + R2;
    Pad2NoSeparator(t.month, '-');
    IndexOfFirst(M, '-', R2);
    Pad2Field(t.month, 1, 12);
  }

  /** A month abbreviation is one word and reads back as its month. */
  lemma MonthAbbrRead(m: nat)
    requires 1 <= m <= 12
    ensures IsWord(MonthAbbrs[m - 1]) && MonthNumber(MonthAbbrs[m - 1]) == Some(m)
  {
    var w := MonthAbbrs[m - 1];
    LowerThree(w);
    assert LowerAll(w) == MonthNames[m - 1];
    MonthFromFinds(m, 12);
    AbbrLetters(m);
  }

  lemma AbbrLetters(m: nat)
    requires 1 <= m <= 12
    ensures IsWord(MonthAbbrs[m - 1])
  {
    var w := MonthAbbrs[m - 1];
    assert |w| == 3;
    LetterIsNotSpace(w[0]);
    LetterIsNotSpace(w[1]);
    LetterIsNotSpace(w[2]);
  }

  lemma LowerThree(w: string)
    requires |w| == 3
    ensures LowerAll(w) == [LowerAscii(w[0]), LowerAscii(w[1]), LowerAscii(w[2])]
  {
    var w2 := w[..2];
    assert w2[..1] == w[..1] && w2[1] == w[1];
    assert LowerAll(w[..1]) == [LowerAscii(w[0])];
    assert LowerAll(w2) == [LowerAscii(w[0]), LowerAscii(w[1])];
  }

  /** The month names differ, so the search finds each at its own place. */
  lemma {:induction false} MonthFromFinds(m: nat, n: nat)
    requires 1 <= m <= n <= 12
    ensures MonthFrom(MonthNames[m - 1], n) == Some(m)
  {
    if n != m {
      assert MonthNames[n - 1] != MonthNames[m - 1];
      MonthFromFinds(m, n - 1);
    }
  }

  lemma LetterIsNotSpace(c: char)
    requires 'A' <= c <= 'Z' || 'a' <= c <= 'z'
    ensures !IsSpace(c)
  {
  }

  /** A day of the month written in decimal is one word and reads back. */
  lemma DayRead(d: nat)
    requires 1 <= d <= 31
    ensures IsWord(NatToString(d)) && Field(NatToString(d), 1, 31) == Some(d)
  {
    DigitsOfNat(d);
    var w := NatToString(d);
    forall i | 0 <= i < |w|
      ensures !IsSpace(w[i])
    {
      DigitIsNotSpace(w[i]);
    }
    if d >= 10 {
      assert |NatToString(d / 10)| == 1;
    }
  }

  /** The clock written with two digits per field is one word and reads
      back. */
  lemma ClockRead(h: nat, mi: nat, sec: nat)
    requires h <= 23 && mi <= 59 && sec <= 59
    ensures var c := Pad2(h) + ":" + Pad2(mi) + ":" + Pad2(sec);
            IsWord(c) && Clock(c) == Some((h, mi, sec))
  {
    var c := Pad2(h) + ":" + Pad2(mi) + ":" + Pad2(sec);
    Pad2NoSeparator(h, ':');
    Pad2NoSeparator(mi, ':');
    Pad2NoSeparator(sec, ':');
    assert forall i :: 0 <= i < |c| ==> c[i] == ':' || IsDigit(c[i]);
    forall i | 0 <= i < |c|
      ensures !IsSpace(c[i])
    {
      if c[i] != ':' {
        DigitIsNotSpace(c[i]);
      }
    }
    ClockRoundTrip(h, mi, sec);
  }

  /** A syslog line's timestamp is read back: month abbreviation, day,
      clock, each followed by blanks (the day may be padded with a blank,
      as syslog writes it), then any text. The date must exist in 1900,
      the year `strptime` checks it in. */
  lemma LineStampRoundTrip(m: nat, d: nat, h: nat, mi: nat, sec: nat, sep1: string, sep2: string, sep3: string, rest: string, year: nat)
    requires 1 <= m <= 12 && 1 <= d <= DaysIn(DefaultYear, m) && h <= 23 && mi <= 59 && sec <= 59
    requires IsBlankRun(sep1) && IsBlankRun(sep2) && IsBlankRun(sep3)
    ensures LineStamp(MonthAbbrs[m - 1] + sep1 + NatToString(d) + sep2 + Pad2(h) + ":" + Pad2(mi) + ":" + Pad2(sec) + sep3 + rest, year)
         == Some(Timestamp(year, m, d, h, mi, sec))
  {
    var M, D, C := MonthAbbrs[m - 1], NatToString(d), Pad2(h) + ":" + Pad2(mi) + ":" + Pad2(sec);
    ClockGroup(M + sep1 + D + sep2, Pad2(h), ":", Pad2(mi), ":", Pad2(sec), sep3, rest);
    MonthAbbrRead(m);
    DayRead(d);
    ClockRead(h, mi, sec);
    LineStampOfParts(M, D, C, sep1, sep2, sep3, rest, Timestamp(year, m, d, h, mi, sec));
  }

  lemma LineStampOfParts(M: string, D: string, C: string, sep1: string, sep2: string, sep3: string, rest: string, t: Timestamp)
    requires IsWord(M) && IsWord(D) && IsWord(C)
    requires IsBlankRun(sep1) && IsBlankRun(sep2) && IsBlankRun(sep3)
    requires 1 <= t.month <= 12 && 1 <= t.day <= DaysIn(DefaultYear, t.month)
    requires MonthNumber(M) == Some(t.month) && Field(D, 1, 31) == Some(t.day)
    requires Clock(C) == Some((t.hour, t.minute, t.second)) && t.hour <= 23 && t.minute <= 59 && t.second <= 59
    ensures LineStamp(M + sep1 + D + sep2 + C + sep3 + rest, t.year) == Some(t)
  {
    ThreeWords(M, D, C, sep1, sep2, sep3, rest);
    LineStampOfWords(M + sep1 + D + sep2 + C + sep3 + rest, t.year, t);
  }

  /** A line whose first three words read as a date of 1900 and a clock
      gets that timestamp in the given year. */
  lemma LineStampOfWords(line: string, year: nat, t: Timestamp)
    requires t.year == year && 1 <= t.month <= 12 && 1 <= t.day <= DaysIn(DefaultYear, t.month)
    requires t.hour <= 23 && t.minute <= 59 && t.second <= 59
    requires var ws := Words(line);
      |ws| >= 3 && MonthNumber(ws[0]) == Some(t.month) && Field(ws[1], 1, 31) == Some(t.day)
      && Clock(ws[2]) == Some((t.hour, t.minute, t.second))
    ensures LineStamp(line, year) == Some(t)
  {
  }

  lemma ClockGroup(x: string, p: string, q: string, r: string, t: string, u: string, v: string, w: string)
    ensures x + p + q + r + t + u + v + w == x + (p + q + r + t + u) + v + w
  {
  }

  /** Three words, each followed by blanks, are the first three words. */
  lemma ThreeWords(a: string, b: string, c: string, sep1: string, sep2: string, sep3: string, rest: string)
    requires IsWord(a) && IsWord(b) && IsWord(c)
    requires IsBlankRun(sep1) && IsBlankRun(sep2) && IsBlankRun(sep3)
    ensures var ws := Words(a + sep1 + b + sep2 + c + sep3 + rest);
            |ws| >= 3 && ws[0] == a && ws[1] == b && ws[2] == c
  {
    assert a + sep1 + b + sep2 + c + sep3 + rest == a + sep1 + (b + sep2 + (c + sep3 + rest));
    WordsFirst(a, sep1, b + sep2 + (c + sep3 + rest));
    WordsFirst(b, sep2, c + sep3 + rest);
    WordsFirst(c, sep3, rest);
  }

  /** The written timestamp has no surrounding blanks and starts with the
      four digits of the year and a dash. */
  lemma FormatStampShape(t: Timestamp)
    requires InRanges(t) && 1000 <= t.year <= 9999
    ensures var s := FormatStamp(t);
            Strip(s) == s && |s| >= 5 && AllDigits(s[..4]) && DigitsValue(s[..4]) == t.year && s[4] == '-'
            && s[5..] == Pad2(t.month) + "-" + Pad2(t.day) + " " + Pad2(t.hour) + ":" + Pad2(t.minute) + ":" + Pad2(t.second)
  {
    var Y := NatToString(t.year);
    var R1 := Pad2(t.month) + "-" + Pad2(t.day) + " " + Pad2(t.hour) + ":" + Pad2(t.minute) + ":" + Pad2(t.second);
    var s := FormatStamp(t);
    FourDigits(t.year);
    DigitsOfNat(t.year);
    assert s == Y + "-" + R1;
    assert s[..4] == Y && s[4] == '-' && s[5..] == R1;
    FormatStampStripped(t);
  }

  /** A written stamp starts and ends with a digit, so stripping keeps it. */
  lemma FormatStampStripped(t: Timestamp)
    requires InRanges(t)
    ensures Strip(FormatStamp(t)) == FormatStamp(t)
  {
    var s := FormatStamp(t);
    var Y := NatToString(t.year);
    assert s[0] == Y[0];
    DigitIsNotSpace(s[0]);
    DigitIsNotSpace(Pad2(t.second)[1]);
    assert s[|s| - 1] == Pad2(t.second)[1];
    StripKeeps(s);
  }

  /** A timestamp written by `strftime` reads back as the same timestamp,
      for the years glibc writes with four digits. */
  lemma BoundRoundTrip(t: Timestamp)
    requires Valid(t) && t.year >= 1000
    ensures ParseBound(FormatStamp(t)) == Some(t)
  {
    var R2 := Pad2(t.day) + " " + Pad2(t.hour) + ":" + Pad2(t.minute) + ":" + Pad2(t.second);
    var R1 := Pad2(t.month) + "-" + R2;
    FormatStampShape(t);
    MonthRoundTrip(t, R1);
    DayAndClockRoundTrip(t, R2);
  }

  lemma NoCommaInStamp(t: Timestamp)
    requires InRanges(t)
    ensures ',' !in FormatStamp(t)
  {
    assert ',' !in NatToString(t.year);
  }

  /** Two written timestamps joined by a comma read back as the range
      between them. */
  lemma RangeRoundTrip(a: Timestamp, b: Timestamp)
    requires Valid(a) && a.year >= 1000 && Valid(b) && b.year >= 1000
    ensures ParseRange(FormatStamp(a) + "," + FormatStamp(b)) == Ok((a, b))
  {
    var x, y := FormatStamp(a), FormatStamp(b);
    NoCommaInStamp(a);
    NoCommaInStamp(b);
    assert x + "," + y == x + [','] + y;
    SplitOnFirst(x, ',', y);
    SplitOnWhole(y, ',');
    BoundRoundTrip(a);
    BoundRoundTrip(b);
    RangeOfParts(x + "," + y, x, y);
  }

  lemma RangeOfParts(timeRange: string, x: string, y: string)
    requires SplitOn(timeRange, ',') == [x, y]
    ensures ParseRange(timeRange) == match (ParseBound(x), ParseBound(y))
      case (Some(a), Some(b)) => Ok((a, b))
      case (None, _) => Err(BadStart)
      case _ => Err(BadEnd)
  {
  }

  /** A range with no comma, or with more than one, is refused before any
      log line is read. */
  lemma OneCommaRequired(timeRange: string, log: Option<seq<string>>)
    requires Activities(timeRange, log).Ok?
    ensures exists i :: 0 <= i < |timeRange| && timeRange[i] == ',' && ',' !in timeRange[..i] && ',' !in timeRange[i + 1..]
  {
    SplitOnTwoParts(timeRange, ',');
  }
}
