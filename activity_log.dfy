/**
 * app/Models/ActivityLog.php: the relative-time label of an entry and the
 * `recent` scope. Carbon's minute difference and the calendar date of
 * `created_at` are inputs; timestamps are seconds.
 */
module ActivityLogModel {
  import opened Common
  import opened PhpMath

  type Month = m: int | 1 <= m <= 12 witness 1
  type Day = d: int | 1 <= d <= 31 witness 1

  /** The calendar date of a timestamp, as Carbon sees it in the application time zone. */
  datatype CalendarDate = CalendarDate(year: nat, month: Month, day: Day)

  /** The `M` format character: a three-letter month name. */
  function MonthAbbrev(m: Month): (s: string)
    ensures |s| == 3 && 'A' <= s[0] <= 'Z'
  {
    ["Jan", "Feb", "Mar", "Apr", "May", "Jun", "Jul", "Aug", "Sep", "Oct", "Nov", "Dec"][m - 1]
  }

  /** Twelve months, twelve different names. */
  lemma MonthAbbrevInjective(m1: Month, m2: Month)
    requires MonthAbbrev(m1) == MonthAbbrev(m2)
    ensures m1 == m2
  {
  }

  /** Left-pads a digit string with zeros to at least four characters (the `Y` format character). */
  function Pad4(s: string): (r: string)
    ensures |r| == if |s| >= 4 then |s| else 4
    ensures r[|r| - |s|..] == s
    ensures forall i :: 0 <= i < |r| - |s| ==> r[i] == '0'
    decreases 4 - |s|
  {
    if |s| >= 4 then s else Pad4("0" + s)
  }

  /** `$this->created_at->format('M j, Y')`: month name, day without leading zero, four-digit year. */
  function DateLabel(d: CalendarDate): string
  {
    MonthAbbrev(d.month) + " " + DecimalString(d.day) + ", " + Pad4(DecimalString(d.year))
  }

  /** Two concatenations whose first parts have the same length agree part by part. */
  lemma SplitAt(a: string, b: string, c: string, e: string)
    requires |a| == |c| && a + b == c + e
    ensures a == c && b == e
  {
    assert a == (a + b)[..|a|] && c == (c + e)[..|c|];
    assert b == (a + b)[|a|..] && e == (c + e)[|c|..];
  }

  /** A run of digits followed by a comma can be split back at the comma. */
  lemma DigitsThenComma(x: string, y: string, x2: string, y2: string)
    requires forall i :: 0 <= i < |x| ==> IsDigit(x[i])
    requires forall i :: 0 <= i < |x2| ==> IsDigit(x2[i])
    requires |y| > 0 && y[0] == ',' && |y2| > 0 && y2[0] == ','
    requires x + y == x2 + y2
    ensures x == x2 && y == y2
  {
    assert (x + y)[|x|] == ',';
    assert (x2 + y2)[|x2|] == ',';
    SplitAt(x, y, x2, y2);
  }

  /**
   * A digit string without a leading zero (or a single digit) pads to a
   * four-character year that no shorter such string pads to.
   */
  lemma Pad4Shorter(s: string, t: string)
    requires 1 <= |s| < |t| && t[0] != '0'
    ensures Pad4(s) != Pad4(t)
  {
    var ps, pt := Pad4(s), Pad4(t);
    if |t| < 4 {
      var k := 4 - |t|;
      assert pt[k..][0] == t[0];
      assert ps[k] == '0';
    } else if |t| == 4 {
      assert pt == t;
      assert ps[0] == '0';
    }
  }

  /** Padding loses nothing on digit strings in their canonical form. */
  lemma Pad4Injective(s: string, t: string)
    requires 1 <= |s| && (|s| > 1 ==> s[0] != '0')
    requires 1 <= |t| && (|t| > 1 ==> t[0] != '0')
    requires Pad4(s) == Pad4(t)
    ensures s == t
  {
    if |s| < |t| {
      Pad4Shorter(s, t);
    } else if |t| < |s| {
      Pad4Shorter(t, s);
    } else {
      var r := Pad4(s);
      assert s == r[|r| - |s|..] && t == r[|r| - |t|..];
    }
  }

  /** The four parts of a date label, grouped from the right. */
  lemma DateLabelParts(d: CalendarDate)
    ensures DateLabel(d) == MonthAbbrev(d.month) + (" " + (DecimalString(d.day) + (", " + Pad4(DecimalString(d.year)))))
  {
    Regroup(MonthAbbrev(d.month), " ", DecimalString(d.day), ", ", Pad4(DecimalString(d.year)));
  }

  lemma Regroup(a: string, b: string, c: string, e: string, f: string)
    ensures a + b + c + e + f == a + (b + (c + (e + f)))
  {
  }

  /** A date label names exactly one date: month, day and year can all be read back. */
  lemma DateLabelInjective(d1: CalendarDate, d2: CalendarDate)
    requires DateLabel(d1) == DateLabel(d2)
    ensures d1 == d2
  {
    DateLabelParts(d1);
    DateLabelParts(d2);
    var y1, y2 := DecimalString(d1.year), DecimalString(d2.year);
    var x1, x2 := DecimalString(d1.day), DecimalString(d2.day);
    var q1, q2 := ", " + Pad4(y1), ", " + Pad4(y2);
    SplitAt(MonthAbbrev(d1.month), " " + (x1 + q1), MonthAbbrev(d2.month), " " + (x2 + q2));
    MonthAbbrevInjective(d1.month, d2.month);
    SplitAt(" ", x1 + q1, " ", x2 + q2);
    DigitsThenComma(x1, q1, x2, q2);
    DecimalStringInjective(d1.day, d2.day);
    SplitAt(", ", Pad4(y1), ", ", Pad4(y2));
    Pad4Injective(y1, y2);
    DecimalStringInjective(d1.year, d2.year);
  }

  /** The four kinds of label are told apart by their form. */
  datatype LabelKind = JustNow | Minutes(n: nat) | Hours(n: nat) | Date(d: CalendarDate)

  /** The bucket a minute difference falls in. */
  function KindOf(diff: int, created: CalendarDate): (k: LabelKind)
    ensures k.JustNow? <==> diff < 1
    ensures k.Minutes? <==> 1 <= diff < 60
    ensures k.Hours? <==> 60 <= diff < 1440
    ensures k.Date? <==> diff >= 1440
    ensures k.Minutes? ==> k.n == diff
    ensures k.Hours? ==> 1 <= k.n <= 23 && k.n * 60 <= diff < (k.n + 1) * 60
  {
    if diff < 1 then JustNow
    else if diff < 60 then Minutes(diff)
    else if diff < 1440 then Hours(diff / 60)
    else Date(created)
  }

  /**
   * `formatted_time`: under a minute `Just now`; under an hour the minutes
   * (always plural); under a day the whole hours, floored; otherwise the
   * creation date.
   */
  function FormattedTime(diff: int, created: CalendarDate): (s: string)
    ensures diff < 1 <==> s == "Just now"
    ensures 1 <= diff < 60 ==> s == DecimalString(diff) + " minutes ago"
    ensures 60 <= diff < 1440 ==> s == DecimalString(diff / 60) + " hours ago" && 1 <= diff / 60 <= 23
    ensures diff >= 1440 ==> s == DateLabel(created)
  {
    match KindOf(diff, created)
    case JustNow => "Just now"
    case Minutes(n) => DecimalString(n) + " minutes ago"
    case Hours(n) => DecimalString(n) + " hours ago"
    case Date(d) => DateLabel(d)
  }

  /** Two different minute counts under an hour give two different labels. */
  lemma MinutesLabelInjective(a: int, b: int, created: CalendarDate)
    requires 1 <= a < 60 && 1 <= b < 60
    requires FormattedTime(a, created) == FormattedTime(b, created)
    ensures a == b
  {
    NumberLabelInjective(a, b, " minutes ago");
  }

  /** Every difference from one hour to just under a day shows between 1 and 23 hours. */
  lemma HoursBucket(diff: int)
    requires 60 <= diff < 1440
    ensures 1 <= diff / 60 <= 23
  {
  }

  /** One row of `activity_logs`; `createdAt` is in seconds. */
  datatype ActivityLog = ActivityLog(
    id: nat,
    userId: Option<nat>,
    action: string,
    target: string,
    logType: string,
    createdAt: int)

  /**
   * `scopeRecent`: the entries created at or after `now` minus `days` days,
   * in their order.
   */
  function Recent(entries: seq<ActivityLog>, now: int, days: int): (r: seq<ActivityLog>)
    ensures |r| <= |entries|
    ensures forall e :: e in r <==> e in entries && e.createdAt >= now - days * 86400
    decreases |entries|
  {
    if |entries| == 0 then []
    else
      (if entries[0].createdAt >= now - days * 86400 then [entries[0]] else [])
      + Recent(entries[1..], now, days)
  }

  /** `recent()` without an argument looks back seven days. */
  function RecentWeek(entries: seq<ActivityLog>, now: int): (r: seq<ActivityLog>)
    ensures forall e :: e in r <==> e in entries && e.createdAt >= now - 7 * 86400
  {
    Recent(entries, now, 7)
  }

  /** A longer look-back keeps every entry a shorter one keeps. */
  lemma RecentWidens(entries: seq<ActivityLog>, now: int, d1: int, d2: int)
    requires d1 <= d2
    ensures forall e :: e in Recent(entries, now, d1) ==> e in Recent(entries, now, d2)
  {
    forall e | e in Recent(entries, now, d1) ensures e in Recent(entries, now, d2) {
      assert now - d2 * 86400 <= now - d1 * 86400;
    }
  }

  /** `scopeOfType`: the entries of one type, in their order. */
  function OfType(entries: seq<ActivityLog>, logType: string): (r: seq<ActivityLog>)
    ensures |r| <= |entries|
    ensures forall e :: e in r <==> e in entries && e.logType == logType
    decreases |entries|
  {
    if |entries| == 0 then []
    else (if entries[0].logType == logType then [entries[0]] else []) + OfType(entries[1..], logType)
  }

  /** `scopeByUser`: the entries of one user, in their order. */
  function ByUser(entries: seq<ActivityLog>, userId: nat): (r: seq<ActivityLog>)
    ensures |r| <= |entries|
    ensures forall e :: e in r <==> e in entries && e.userId == Some(userId)
    decreases |entries|
  {
    if |entries| == 0 then []
    else (if entries[0].userId == Some(userId) then [entries[0]] else []) + ByUser(entries[1..], userId)
  }

  /** Chained scopes give the same list, in the same order, whichever is applied first. */
  lemma {:induction false} ScopesCommute(entries: seq<ActivityLog>, logType: string, userId: nat)
    ensures OfType(ByUser(entries, userId), logType) == ByUser(OfType(entries, logType), userId)
    decreases |entries|
  {
    if |entries| > 0 {
      var e, rest := entries[0], entries[1..];
      ScopesCommute(rest, logType, userId);
      var u := if e.userId == Some(userId) then [e] else [];
      var t := if e.logType == logType then [e] else [];
      OfTypeAppend(u, ByUser(rest, userId), logType);
      ByUserAppend(t, OfType(rest, logType), userId);
    }
  }

  lemma {:induction false} OfTypeAppend(a: seq<ActivityLog>, b: seq<ActivityLog>, logType: string)
    ensures OfType(a + b, logType) == OfType(a, logType) + OfType(b, logType)
    decreases |a|
  {
    if |a| > 0 {
      assert (a + b)[1..] == a[1..] + b;
      OfTypeAppend(a[1..], b, logType);
    } else {
      assert a + b == b;
    }
  }

  lemma {:induction false} ByUserAppend(a: seq<ActivityLog>, b: seq<ActivityLog>, userId: nat)
    ensures ByUser(a + b, userId) == ByUser(a, userId) + ByUser(b, userId)
    decreases |a|
  {
    if |a| > 0 {
      assert (a + b)[1..] == a[1..] + b;
      ByUserAppend(a[1..], b, userId);
    } else {
      assert a + b == b;
    }
  }
}
