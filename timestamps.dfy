/**
 * The two overloads of time_to_path: a broken-down calendar time formatted
 * as the stem "%Y-%m-%d_%H-%M-%S", and the EXIF DateTimeOriginal text
 * "YYYY:MM:DD HH:MM:SS" (Exif 2.3, section 4.6.5) parsed with
 * "%Y:%m:%d %H:%M:%S" and formatted the same way.
 */
module Timestamps {
  import opened Decimal

  /**
   * C's struct tm, as strftime reads it and std::get_time writes it:
   * `year` counts years since 1900 and `mon` months since January.
   */
  datatype Tm = Tm(year: int, mon: int, mday: int, hour: int, min: int, sec: int)

  const TmYearBase := 1900

  /** The ranges the C library gives the fields, with a year of four digits. */
  predicate InRange(t: Tm) {
    && 0 <= t.year + TmYearBase <= 9999
    && 0 <= t.mon <= 11
    && 1 <= t.mday <= 31
    && 0 <= t.hour <= 23
    && 0 <= t.min <= 59
    && 0 <= t.sec <= 60
  }

  /** A character a formatted stem can hold: no '.', so a stem never carries an extension. */
  predicate IsStemChar(c: char) {
    IsDigit(c) || c == '-' || c == '_'
  }

  /** The offsets of the separators in "YYYY-MM-DD_HH-MM-SS" and in "YYYY:MM:DD HH:MM:SS". */
  predicate IsSeparatorOffset(i: int) {
    i == 4 || i == 7 || i == 10 || i == 13 || i == 16
  }

  /**
   * The canonical stem: 19 characters, '-' at offsets 4, 7, 13 and 16,
   * '_' at 10, and decimal digits everywhere else.
   */
  predicate IsCanonicalStem(s: string) {
    && |s| == 19
    && s[4] == '-' && s[7] == '-' && s[10] == '_' && s[13] == '-' && s[16] == '-'
    && forall i :: 0 <= i < 19 && !IsSeparatorOffset(i) ==> IsDigit(s[i])
  }

  /** Three fields joined by one separator, as "%Y-%m-%d" and "%H-%M-%S" join theirs. */
  function Join3(a: string, b: string, c: string, sep: char): string {
    a + [sep] + b + [sep] + c
  }

  /** strftime(buf, 64, "%Y-%m-%d_%H-%M-%S", &time). */
  function TimeToPath(t: Tm): (r: string)
    ensures forall i :: 0 <= i < |r| ==> IsStemChar(r[i])
  {
    Join3(PadInt(t.year + TmYearBase, 4), PadInt(t.mon + 1, 2), PadInt(t.mday, 2), '-') + "_"
      + Join3(PadInt(t.hour, 2), PadInt(t.min, 2), PadInt(t.sec, 2), '-')
  }

  /** Where the parts of a joined triple sit, for two-character second and third parts. */
  lemma Join3Layout(a: string, b: string, c: string, sep: char)
    requires |b| == 2 && |c| == 2
    ensures var r := Join3(a, b, c, sep);
      && |r| == |a| + 6 && r[..|a|] == a && r[|a|] == sep && r[|a| + 1..|a| + 3] == b
      && r[|a| + 3] == sep && r[|a| + 4..] == c
  {
    var r := Join3(a, b, c, sep);
    assert r == a + ([sep] + b + [sep] + c);
    assert r[|a|..] == [sep] + b + [sep] + c;
    assert r[|a| + 1..|a| + 3] == b;
  }

  /** The date half, the '_' and the time half of a stem. */
  lemma StemLayout(date: string, time: string)
    requires |date| == 10 && |time| == 8
    ensures var r := date + "_" + time;
      && |r| == 19 && r[..10] == date && r[10] == '_' && r[11..] == time
  {
    var r := date + "_" + time;
    assert r == date + ("_" + time);
  }

  /** A digit field of width w holding v. */
  lemma Field(v: nat, w: nat)
    requires w >= 1 && v < Pow10(w)
    ensures |PadInt(v, w)| == w && AllDigits(PadInt(v, w)) && DigitsValue(PadInt(v, w)) == v
  {
    PadDecLength(v, w);
    PadDecValue(v, w);
  }

  /**
   * The stem read back from its layout: the six digit groups a, b, ... f
   * at offsets 0, 5, 8, 11, 14 and 17.
   */
  predicate Spells(r: string, a: string, b: string, c: string, d: string, e: string, f: string)
    requires |r| == 19
  {
    r[0..4] == a && r[5..7] == b && r[8..10] == c && r[11..13] == d && r[14..16] == e && r[17..19] == f
  }

  /** The layout of a stem built from six digit groups. */
  lemma StemOfGroups(a: string, b: string, c: string, d: string, e: string, f: string)
    requires |a| == 4 && |b| == 2 && |c| == 2 && |d| == 2 && |e| == 2 && |f| == 2
    ensures var r := Join3(a, b, c, '-') + "_" + Join3(d, e, f, '-');
      && |r| == 19 && r[4] == '-' && r[7] == '-' && r[10] == '_' && r[13] == '-' && r[16] == '-'
      && Spells(r, a, b, c, d, e, f)
  {
    var date, time := Join3(a, b, c, '-'), Join3(d, e, f, '-');
    Join3Layout(a, b, c, '-');
    Join3Layout(d, e, f, '-');
    StemLayout(date, time);
    var r := date + "_" + time;
    assert r[0..4] == date[0..4] && r[5..7] == date[5..7] && r[8..10] == date[8..10];
    assert r[11..13] == time[0..2] && r[14..16] == time[3..5] && r[17..19] == time[6..8];
  }

  /**
   * For fields in range the stem is canonical, and its digit groups spell
   * the year, the month counted from 1, the day, hour, minute and second.
   */
  lemma TimeToPathShape(t: Tm)
    requires InRange(t)
    ensures IsCanonicalStem(TimeToPath(t))
    ensures var r := TimeToPath(t);
      && DigitsValue(r[0..4]) == t.year + TmYearBase && DigitsValue(r[5..7]) == t.mon + 1
      && DigitsValue(r[8..10]) == t.mday && DigitsValue(r[11..13]) == t.hour
      && DigitsValue(r[14..16]) == t.min && DigitsValue(r[17..19]) == t.sec
  {
    var y, mo, d := PadInt(t.year + TmYearBase, 4), PadInt(t.mon + 1, 2), PadInt(t.mday, 2);
    var h, mi, s := PadInt(t.hour, 2), PadInt(t.min, 2), PadInt(t.sec, 2);
    DateFields(t);
    TimeFields(t);
    StemOfDigitGroups(TimeToPath(t), y, mo, d, h, mi, s);
  }

  /** The date fields in range are written as digit groups of widths 4, 2 and 2 holding their values. */
  lemma DateFields(t: Tm)
    requires InRange(t)
    ensures var y, mo, d := PadInt(t.year + TmYearBase, 4), PadInt(t.mon + 1, 2), PadInt(t.mday, 2);
      && |y| == 4 && AllDigits(y) && DigitsValue(y) == t.year + TmYearBase
      && |mo| == 2 && AllDigits(mo) && DigitsValue(mo) == t.mon + 1
      && |d| == 2 && AllDigits(d) && DigitsValue(d) == t.mday
  {
    Field(t.year + TmYearBase, 4);
    Field(t.mon + 1, 2);
    Field(t.mday, 2);
  }

  /** The time fields in range are written as two-digit groups holding their values. */
  lemma TimeFields(t: Tm)
    requires InRange(t)
    ensures var h, mi, s := PadInt(t.hour, 2), PadInt(t.min, 2), PadInt(t.sec, 2);
      && |h| == 2 && AllDigits(h) && DigitsValue(h) == t.hour
      && |mi| == 2 && AllDigits(mi) && DigitsValue(mi) == t.min
      && |s| == 2 && AllDigits(s) && DigitsValue(s) == t.sec
  {
    Field(t.hour, 2);
    Field(t.min, 2);
    Field(t.sec, 2);
  }

  /** A stem built from six digit groups is canonical and spells them. */
  lemma StemOfDigitGroups(r: string, a: string, b: string, c: string, d: string, e: string, f: string)
    requires |a| == 4 && |b| == 2 && |c| == 2 && |d| == 2 && |e| == 2 && |f| == 2
    requires AllDigits(a) && AllDigits(b) && AllDigits(c) && AllDigits(d) && AllDigits(e) && AllDigits(f)
    requires r == Join3(a, b, c, '-') + "_" + Join3(d, e, f, '-')
    ensures IsCanonicalStem(r) && Spells(r, a, b, c, d, e, f)
  {
    StemOfGroups(a, b, c, d, e, f);
    GroupsCanonical(r, a, b, c, d, e, f);
  }

  /** A stem laid out from six digit groups is canonical. */
  lemma GroupsCanonical(r: string, a: string, b: string, c: string, d: string, e: string, f: string)
    requires |r| == 19 && r[4] == '-' && r[7] == '-' && r[10] == '_' && r[13] == '-' && r[16] == '-'
    requires Spells(r, a, b, c, d, e, f)
    requires AllDigits(a) && AllDigits(b) && AllDigits(c) && AllDigits(d) && AllDigits(e) && AllDigits(f)
    ensures IsCanonicalStem(r)
  {
    forall i | 0 <= i < 19 && !IsSeparatorOffset(i) ensures IsDigit(r[i]) {
      if i < 4 { assert r[i] == r[0..4][i]; }
      else if i < 7 { assert r[i] == r[5..7][i - 5]; }
      else if i < 10 { assert r[i] == r[8..10][i - 8]; }
      else if i < 13 { assert r[i] == r[11..13][i - 11]; }
      else if i < 16 { assert r[i] == r[14..16][i - 14]; }
      else { assert r[i] == r[17..19][i - 17]; }
    }
  }

  /**
   * What std::get_time accepts for "%Y:%m:%d %H:%M:%S" on a 19-character
   * EXIF date: digits and separators in place, the month 1..12, the day
   * 1..31, the hour 0..23, the minute 0..59 and the second 0..60.
   */
  predicate WellFormedDateTime(s: string) {
    && |s| == 19
    && s[4] == ':' && s[7] == ':' && s[10] == ' ' && s[13] == ':' && s[16] == ':'
    && (forall i :: 0 <= i < 19 && !IsSeparatorOffset(i) ==> IsDigit(s[i]))
    && 1 <= DigitsValue(s[5..7]) <= 12
    && 1 <= DigitsValue(s[8..10]) <= 31
    && DigitsValue(s[11..13]) <= 23
    && DigitsValue(s[14..16]) <= 59
    && DigitsValue(s[17..19]) <= 60
  }

  /** ss >> std::get_time(&tm, "%Y:%m:%d %H:%M:%S") on well-formed text. */
  function ParseDateTime(s: string): (t: Tm)
    requires WellFormedDateTime(s)
    ensures InRange(t)
  {
    Tm(DigitsValue(s[0..4]) - TmYearBase, DigitsValue(s[5..7]) - 1, DigitsValue(s[8..10]),
       DigitsValue(s[11..13]), DigitsValue(s[14..16]), DigitsValue(s[17..19]))
  }

  /**
   * The EXIF text as the stem keeps it: the date's ':' become '-', the
   * space becomes '_', the time's ':' become '-', every digit stays.
   */
  function StemOfExifText(s: string): (r: string)
    requires |s| == 19
    ensures |r| == 19
  {
    seq(19, i requires 0 <= i < 19 => if i == 10 then '_' else if IsSeparatorOffset(i) then '-' else s[i])
  }

  /**
   * time_to_path(char*): parse, then format. The stem is the EXIF text
   * with its separators replaced, digit for digit.
   */
  function ExifTimeToPath(s: string): (r: string)
    requires WellFormedDateTime(s)
    ensures r == StemOfExifText(s)
    ensures IsCanonicalStem(r)
  {
    var t := ParseDateTime(s);
    TimeToPathShape(t);
    ParsedGroups(s);
    StemOfExifTextGroups(s);
    TimeToPath(t)
  }

  /** Each digit group of the EXIF text comes back unchanged from the formatter. */
  lemma ParsedGroups(s: string)
    requires WellFormedDateTime(s)
    ensures TimeToPath(ParseDateTime(s))
      == Join3(s[0..4], s[5..7], s[8..10], '-') + "_" + Join3(s[11..13], s[14..16], s[17..19], '-')
  {
    var t := ParseDateTime(s);
    DateGroups(s);
    TimeGroups(s);
    FormatFields(t, s[0..4], s[5..7], s[8..10], s[11..13], s[14..16], s[17..19]);
  }

  /** The year, month and day of the EXIF text come back as its first three groups. */
  lemma DateGroups(s: string)
    requires WellFormedDateTime(s)
    ensures var t := ParseDateTime(s);
      && PadInt(t.year + TmYearBase, 4) == s[0..4] && PadInt(t.mon + 1, 2) == s[5..7]
      && PadInt(t.mday, 2) == s[8..10]
  {
    YearGroup(s);
    Group(s, 5, 7);
    Group(s, 8, 10);
  }

  /** The year of the EXIF text, less 1900 and plus 1900 again, comes back as its first group. */
  lemma YearGroup(s: string)
    requires WellFormedDateTime(s)
    ensures PadInt(ParseDateTime(s).year + TmYearBase, 4) == s[0..4]
  {
    Group(s, 0, 4);
  }

  /** The hour, minute and second of the EXIF text come back as its last three groups. */
  lemma TimeGroups(s: string)
    requires WellFormedDateTime(s)
    ensures var t := ParseDateTime(s);
      && PadInt(t.hour, 2) == s[11..13] && PadInt(t.min, 2) == s[14..16] && PadInt(t.sec, 2) == s[17..19]
  {
    Group(s, 11, 13);
    Group(s, 14, 16);
    Group(s, 17, 19);
  }

  /** The stem of a time whose fields are formatted as the six groups a ... f. */
  lemma FormatFields(t: Tm, a: string, b: string, c: string, d: string, e: string, f: string)
    requires PadInt(t.year + TmYearBase, 4) == a && PadInt(t.mon + 1, 2) == b && PadInt(t.mday, 2) == c
    requires PadInt(t.hour, 2) == d && PadInt(t.min, 2) == e && PadInt(t.sec, 2) == f
    ensures TimeToPath(t) == Join3(a, b, c, '-') + "_" + Join3(d, e, f, '-')
  {
  }

  /** A digit group, parsed and formatted again at its width. */
  lemma Group(s: string, lo: nat, hi: nat)
    requires lo < hi <= |s|
    requires forall i :: lo <= i < hi ==> IsDigit(s[i])
    ensures AllDigits(s[lo..hi]) && PadInt(DigitsValue(s[lo..hi]), hi - lo) == s[lo..hi]
  {
    assert AllDigits(s[lo..hi]) by {
      forall i | 0 <= i < hi - lo ensures IsDigit(s[lo..hi][i]) {
        assert s[lo..hi][i] == s[lo + i];
      }
    }
    PadDecOfDigits(s[lo..hi]);
  }

  /** The reference stem of an EXIF text has the text's digit groups in the stem's layout. */
  lemma StemOfExifTextGroups(s: string)
    requires |s| == 19
    ensures StemOfExifText(s)
      == Join3(s[0..4], s[5..7], s[8..10], '-') + "_" + Join3(s[11..13], s[14..16], s[17..19], '-')
  {
    var g := StemOfExifText(s);
    var r := Join3(s[0..4], s[5..7], s[8..10], '-') + "_" + Join3(s[11..13], s[14..16], s[17..19], '-');
    StemOfGroups(s[0..4], s[5..7], s[8..10], s[11..13], s[14..16], s[17..19]);
    forall i | 0 <= i < 19 ensures r[i] == g[i] {
      if i < 4 { assert r[i] == r[0..4][i]; }
      else if 4 < i < 7 { assert r[i] == r[5..7][i - 5]; }
      else if 7 < i < 10 { assert r[i] == r[8..10][i - 8]; }
      else if 10 < i < 13 { assert r[i] == r[11..13][i - 11]; }
      else if 13 < i < 16 { assert r[i] == r[14..16][i - 14]; }
      else if 16 < i { assert r[i] == r[17..19][i - 17]; }
    }
  }
}
