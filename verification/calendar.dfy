/**
 * `DateTime` values to the second, their `yyyy-MM-dd` / `yyyy-MM-dd HH:mm:ss`
 * text forms, and the reading of those forms back (the part of
 * `DateTime.TryParse` that the text written by this application exercises).
 */
module Calendar {
  import opened Wrappers
  import opened Text

  datatype Stamp = Stamp(year: int, month: int, day: int, hour: int, minute: int, second: int)

  predicate IsLeapYear(y: int) {
    y % 4 == 0 && (y % 100 != 0 || y % 400 == 0)
  }

  function DaysInMonth(y: int, m: int): int
    requires 1 <= m <= 12
  {
    if m == 2 then (if IsLeapYear(y) then 29 else 28)
    else if m == 4 || m == 6 || m == 9 || m == 11 then 30
    else 31
  }

  /** The range `System.DateTime` can represent, to the second. */
  predicate IsValid(t: Stamp) {
    && 1 <= t.year <= 9999
    && 1 <= t.month <= 12
    && 1 <= t.day <= DaysInMonth(t.year, t.month)
    && 0 <= t.hour < 24
    && 0 <= t.minute < 60
    && 0 <= t.second < 60
  }

  type DateTime = t: Stamp | IsValid(t) witness Stamp(1, 1, 1, 0, 0, 0)

  /** `a <= b` between instants: the fields compared from the year down to the second. */
  predicate NotAfter(a: Stamp, b: Stamp) {
    if a.year != b.year then a.year < b.year
    else if a.month != b.month then a.month < b.month
    else if a.day != b.day then a.day < b.day
    else if a.hour != b.hour then a.hour < b.hour
    else if a.minute != b.minute then a.minute < b.minute
    else a.second <= b.second
  }

  /** `default(DateTime)`: 0001-01-01 00:00:00. */
  const MinValue: DateTime := Stamp(1, 1, 1, 0, 0, 0)

  /** `t.Date`: the same day at midnight. */
  function DatePart(t: DateTime): (r: DateTime)
    ensures r.year == t.year && r.month == t.month && r.day == t.day
    ensures r.hour == 0 && r.minute == 0 && r.second == 0
  {
    Stamp(t.year, t.month, t.day, 0, 0, 0)
  }

  /** `t.ToString("yyyy-MM-dd")`. */
  function FormatDate(t: DateTime): (r: string) {
    FormatNumber(t.year, 4) + "-" + FormatNumber(t.month, 2) + "-" + FormatNumber(t.day, 2)
  }

  /** `t.ToString("yyyy-MM-dd HH:mm:ss")`. */
  function FormatTimestamp(t: DateTime): (r: string) {
    FormatDate(t) + " " + FormatNumber(t.hour, 2) + ":" + FormatNumber(t.minute, 2) + ":" + FormatNumber(t.second, 2)
  }

  /** The number written in `s[from..from + len]`, if that slice exists and is all digits. */
  function Field(s: string, from: nat, len: nat): Option<nat> {
    if from + len <= |s| then ParseNumber(s[from..from + len]) else None
  }

  /** Assembles a `DateTime` from its parts, failing when they name no valid instant. */
  function Assemble(y: Option<nat>, mo: Option<nat>, d: Option<nat>, h: nat, mi: nat, sec: nat): (r: Option<DateTime>)
    ensures r.Some? <==> y.Some? && mo.Some? && d.Some? && IsValid(Stamp(y.value, mo.value, d.value, h, mi, sec))
    ensures r.Some? ==> r.value == Stamp(y.value, mo.value, d.value, h, mi, sec)
  {
    if y.Some? && mo.Some? && d.Some? && IsValid(Stamp(y.value, mo.value, d.value, h, mi, sec))
    then Some(Stamp(y.value, mo.value, d.value, h, mi, sec))
    else None
  }

  /**
   * Reads `yyyy-MM-dd` (as midnight) or `yyyy-MM-dd HH:mm:ss`; any other text,
   * and any text naming an impossible date, is rejected.
   */
  function ParseDateTime(s: string): Option<DateTime> {
    if |s| != 10 && |s| != 19 then None
    else if s[4] != '-' || s[7] != '-' then None
    else if |s| == 10 then Assemble(Field(s, 0, 4), Field(s, 5, 2), Field(s, 8, 2), 0, 0, 0)
    else if s[10] != ' ' || s[13] != ':' || s[16] != ':' then None
    else
      var h, mi, sec := Field(s, 11, 2), Field(s, 14, 2), Field(s, 17, 2);
      if h.Some? && mi.Some? && sec.Some?
      then Assemble(Field(s, 0, 4), Field(s, 5, 2), Field(s, 8, 2), h.value, mi.value, sec.value)
      else None
  }

  /** `DateTime.TryParse(text, out v) ? v : fallback`. */
  function ParseOr(text: string, fallback: DateTime): (r: DateTime) {
    ParseDateTime(text).GetOr(fallback)
  }

  lemma Pow10Small()
    ensures Pow10(2) == 100 && Pow10(4) == 10000
  {
    assert Pow10(1) == 10;
    assert Pow10(3) == 1000;
  }

  lemma DateFieldWidths(t: DateTime)
    ensures |FormatNumber(t.year, 4)| == 4
    ensures |FormatNumber(t.month, 2)| == 2
    ensures |FormatNumber(t.day, 2)| == 2
    ensures |FormatNumber(t.hour, 2)| == 2
    ensures |FormatNumber(t.minute, 2)| == 2
    ensures |FormatNumber(t.second, 2)| == 2
  {
    Pow10Small();
    FormatNumberWidth(t.year, 4);
    FormatNumberWidth(t.month, 2);
    FormatNumberWidth(t.day, 2);
    FormatNumberWidth(t.hour, 2);
    FormatNumberWidth(t.minute, 2);
    FormatNumberWidth(t.second, 2);
  }

  /** Where the pieces of a `yyyy-MM-dd` text sit. */
  lemma DateShape(y: string, m: string, d: string)
    requires |y| == 4 && |m| == 2 && |d| == 2
    ensures var f := y + "-" + m + "-" + d;
      |f| == 10 && f[0..4] == y && f[4] == '-' && f[5..7] == m && f[7] == '-' && f[8..10] == d
  {
  }

  /** Where the pieces of a `yyyy-MM-dd HH:mm:ss` text sit. */
  lemma TimestampShape(date: string, h: string, mi: string, sec: string)
    requires |date| == 10 && |h| == 2 && |mi| == 2 && |sec| == 2
    ensures var f := date + " " + h + ":" + mi + ":" + sec;
      && |f| == 19 && f[..10] == date && f[10] == ' ' && f[11..13] == h
      && f[13] == ':' && f[14..16] == mi && f[16] == ':' && f[17..19] == sec
  {
  }

  /** A text whose first ten characters have the `yyyy-MM-dd` shape, with fields `y`, `m`, `d`. */
  lemma DateFieldsOfShape(s: string, y: string, m: string, d: string, yn: nat, mn: nat, dn: nat)
    requires |y| == 4 && |m| == 2 && |d| == 2
    requires ParseNumber(y) == Some(yn) && ParseNumber(m) == Some(mn) && ParseNumber(d) == Some(dn)
    requires |s| >= 10 && s[..10] == y + "-" + m + "-" + d
    ensures s[4] == '-' && s[7] == '-'
    ensures Field(s, 0, 4) == Some(yn) && Field(s, 5, 2) == Some(mn) && Field(s, 8, 2) == Some(dn)
  {
    DateShape(y, m, d);
    var f := s[..10];
    assert s[0..4] == f[0..4] && s[5..7] == f[5..7] && s[8..10] == f[8..10];
    assert s[4] == f[4] && s[7] == f[7];
  }

  /** The date fields of a text that starts with `FormatDate(t)` read back as `t`'s date. */
  lemma DateFieldsOfFormat(t: DateTime, s: string)
    requires |s| >= 10 && s[..10] == FormatDate(t)
    ensures s[4] == '-' && s[7] == '-'
    ensures Field(s, 0, 4) == Some(t.year as nat)
    ensures Field(s, 5, 2) == Some(t.month as nat)
    ensures Field(s, 8, 2) == Some(t.day as nat)
  {
    DateFieldWidths(t);
    ParseFormatNumber(t.year, 4);
    ParseFormatNumber(t.month, 2);
    ParseFormatNumber(t.day, 2);
    DateFieldsOfShape(s, FormatNumber(t.year, 4), FormatNumber(t.month, 2), FormatNumber(t.day, 2), t.year, t.month, t.day);
  }

  /** `FormatDate` always writes ten characters. */
  lemma FormatDateLength(t: DateTime)
    ensures |FormatDate(t)| == 10
  {
    DateFieldWidths(t);
    DateShape(FormatNumber(t.year, 4), FormatNumber(t.month, 2), FormatNumber(t.day, 2));
  }

  /** Round trip: a date written as `yyyy-MM-dd` reads back as that day at midnight. */
  lemma ParseFormatDate(t: DateTime)
    ensures ParseDateTime(FormatDate(t)) == Some(DatePart(t))
  {
    var s := FormatDate(t);
    FormatDateLength(t);
    assert s[..10] == s;
    DateFieldsOfFormat(t, s);
  }

  /** A `yyyy-MM-dd HH:mm:ss` text whose time fields are `h`, `mi`, `sec`. */
  lemma TimeFieldsOfShape(s: string, date: string, h: string, mi: string, sec: string, hn: nat, mn: nat, sn: nat)
    requires |date| == 10 && |h| == 2 && |mi| == 2 && |sec| == 2
    requires ParseNumber(h) == Some(hn) && ParseNumber(mi) == Some(mn) && ParseNumber(sec) == Some(sn)
    requires s == date + " " + h + ":" + mi + ":" + sec
    ensures |s| == 19 && s[..10] == date && s[10] == ' ' && s[13] == ':' && s[16] == ':'
    ensures Field(s, 11, 2) == Some(hn) && Field(s, 14, 2) == Some(mn) && Field(s, 17, 2) == Some(sn)
  {
    TimestampShape(date, h, mi, sec);
  }

  /** Round trip: a timestamp written as `yyyy-MM-dd HH:mm:ss` reads back unchanged. */
  lemma ParseFormatTimestamp(t: DateTime)
    ensures ParseDateTime(FormatTimestamp(t)) == Some(t)
  {
    var s := FormatTimestamp(t);
    DateFieldWidths(t);
    FormatDateLength(t);
    ParseFormatNumber(t.hour, 2);
    ParseFormatNumber(t.minute, 2);
    ParseFormatNumber(t.second, 2);
    TimeFieldsOfShape(s, FormatDate(t), FormatNumber(t.hour, 2), FormatNumber(t.minute, 2), FormatNumber(t.second, 2),
      t.hour, t.minute, t.second);
    DateFieldsOfFormat(t, s);
  }
}
