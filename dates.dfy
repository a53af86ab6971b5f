/** The part of Python's `datetime.strptime` and `strftime` that the
    post-validation pass relies on (ocr_app/processor.py:168-170), for the five
    formats it tries.

    `strptime` turns a format into a regular expression, matches it at the start
    of the value and rejects any unconverted rest, so a value is accepted exactly
    when it is in the language of that expression:
    - `%Y` is four digits;
    - `%m` is `1[0-2]`, `0[1-9]` or `[1-9]`;
    - `%d` is `3[01]`, `[12][0-9]`, `0[1-9]`, `[1-9]` or a space then `[1-9]`;
    - `%b` and `%B` are the English month abbreviations and names, in any case;
    - a space in the format matches one or more whitespace characters.
    The parsed fields must then form a real calendar date (year 1 to 9999, day
    within its month), or `datetime` raises. Each parser below splits the
    value at the places the expression forces and checks every piece. */
module Dates {
  import opened Common

  datatype Date = Date(year: int, month: int, day: int)

  predicate IsLeapYear(y: int)
  {
    y % 4 == 0 && (y % 100 != 0 || y % 400 == 0)
  }

  function DaysInMonth(y: int, m: int): int
  {
    if m == 2 then (if IsLeapYear(y) then 29 else 28)
    else if m == 4 || m == 6 || m == 9 || m == 11 then 30
    else 31
  }

  /** The dates `datetime` can represent. */
  predicate ValidDate(d: Date)
  {
    1 <= d.year <= 9999 && 1 <= d.month <= 12 && 1 <= d.day <= DaysInMonth(d.year, d.month)
  }

  /** The characters a regular-expression `\s` matches (`str.isspace`). */
  predicate IsSpace(c: char)
  {
    var k := c as int;
    (9 <= k <= 13) || (28 <= k <= 32) || k == 0x85 || k == 0xA0 || k == 0x1680
    || (0x2000 <= k <= 0x200A) || k == 0x2028 || k == 0x2029 || k == 0x202F
    || k == 0x205F || k == 0x3000
  }

  predicate IsAsciiLetter(c: char)
  {
    'a' <= c <= 'z' || 'A' <= c <= 'Z'
  }

  /** `s` without its trailing run of whitespace. */
  function TrimEnd(s: string): (r: string)
    ensures |r| <= |s| && r == s[..|r|]
    ensures forall i :: |r| <= i < |s| ==> IsSpace(s[i])
    ensures |r| > 0 ==> !IsSpace(r[|r| - 1])
    decreases |s|
  {
    if |s| > 0 && IsSpace(s[|s| - 1]) then TrimEnd(s[..|s| - 1]) else s
  }

  /** `s` without its leading run of whitespace. */
  function TrimStart(s: string): (r: string)
    ensures |r| <= |s| && r == s[|s| - |r|..]
    ensures forall i :: 0 <= i < |s| - |r| ==> IsSpace(s[i])
    ensures |r| > 0 ==> !IsSpace(r[0])
    decreases |s|
  {
    if |s| > 0 && IsSpace(s[0]) then TrimStart(s[1..]) else s
  }

  /** The length of the leading run of ASCII letters of `s`. */
  function LeadingLetters(s: string): (n: nat)
    ensures n <= |s|
    decreases |s|
  {
    if |s| > 0 && IsAsciiLetter(s[0]) then 1 + LeadingLetters(s[1..]) else 0
  }

  /** The position of the first `c` in `s`, if any. */
  function IndexOf(s: string, c: char): (r: Option<nat>)
    ensures r.Some? ==> r.value < |s| && s[r.value] == c
    decreases |s|
  {
    if |s| == 0 then None
    else if s[0] == c then Some(0)
    else match IndexOf(s[1..], c)
      case Some(k) => Some(k + 1)
      case None => None
  }

  /** The position found is the first occurrence; none is found only when
      `c` does not occur. */
  lemma {:induction false} IndexOfFirst(s: string, c: char)
    ensures IndexOf(s, c).Some? ==> forall k :: 0 <= k < IndexOf(s, c).value ==> s[k] != c
    ensures IndexOf(s, c).None? ==> forall k :: 0 <= k < |s| ==> s[k] != c
    decreases |s|
  {
    if |s| > 0 && s[0] != c {
      IndexOfFirst(s[1..], c);
      assert forall k :: 1 <= k < |s| ==> s[k] == s[1..][k - 1];
    }
  }

  lemma FirstIndex(s: string, c: char, k: nat)
    requires k < |s| && s[k] == c
    requires forall i :: 0 <= i < k ==> s[i] != c
    ensures IndexOf(s, c) == Some(k)
  {
    IndexOfFirst(s, c);
  }

  /** `%Y`: four digits. */
  function YearField(s: string): Option<int>
  {
    if |s| == 4 && IsDigit(s[0]) && IsDigit(s[1]) && IsDigit(s[2]) && IsDigit(s[3])
    then Some(DigitValue(s[0]) * 1000 + DigitValue(s[1]) * 100 + DigitValue(s[2]) * 10 + DigitValue(s[3]))
    else None
  }

  /** `%m`: `1[0-2]`, `0[1-9]` or `[1-9]`. */
  function MonthField(s: string): Option<int>
  {
    if |s| == 2 && s[0] == '1' && '0' <= s[1] <= '2' then Some(10 + DigitValue(s[1]))
    else if |s| == 2 && s[0] == '0' && '1' <= s[1] <= '9' then Some(DigitValue(s[1]))
    else if |s| == 1 && '1' <= s[0] <= '9' then Some(DigitValue(s[0]))
    else None
  }

  /** `%d`: `3[01]`, `[12][0-9]`, `0[1-9]`, `[1-9]` or a space then `[1-9]`. */
  function DayField(s: string): Option<int>
  {
    if |s| == 2 && s[0] == '3' && '0' <= s[1] <= '1' then Some(30 + DigitValue(s[1]))
    else if |s| == 2 && '1' <= s[0] <= '2' && IsDigit(s[1]) then Some(DigitValue(s[0]) * 10 + DigitValue(s[1]))
    else if |s| == 2 && s[0] == '0' && '1' <= s[1] <= '9' then Some(DigitValue(s[1]))
    else if |s| == 1 && '1' <= s[0] <= '9' then Some(DigitValue(s[0]))
    else if |s| == 2 && s[0] == ' ' && '1' <= s[1] <= '9' then Some(DigitValue(s[1]))
    else None
  }

  const MonthAbbreviations: seq<string> :=
    ["jan", "feb", "mar", "apr", "may", "jun", "jul", "aug", "sep", "oct", "nov", "dec"]

  const MonthNames: seq<string> :=
    ["january", "february", "march", "april", "may", "june", "july", "august",
     "september", "october", "november", "december"]

  /** `%b` or `%B`: the month whose (lower-case) name `s` is, ignoring case. */
  function MonthNamed(names: seq<string>, s: string): Option<int>
  {
    NamedFrom(names, Lower(s), 0)
  }

  function NamedFrom(names: seq<string>, t: string, i: nat): (r: Option<int>)
    ensures r.Some? ==> i < r.value <= |names|
    decreases |names| - i
  {
    if i >= |names| then None
    else if names[i] == t then Some(i + 1)
    else NamedFrom(names, t, i + 1)
  }

  predicate IsLowerWord(w: string)
  {
    |w| > 0 && forall i :: 0 <= i < |w| ==> 'a' <= w[i] <= 'z'
  }

  function UpperChar(c: char): char
  {
    if 'a' <= c <= 'z' then (c as int - 32) as char else c
  }

  /** A lower-case month word with its first letter upper-cased, as the C
      locale spells month names. */
  function Capitalized(w: string): (r: string)
    requires IsLowerWord(w)
    ensures |r| == |w| && Lower(r) == w
    ensures forall i :: 0 <= i < |r| ==> IsAsciiLetter(r[i])
  {
    [UpperChar(w[0])] + w[1..]
  }

  /** A number found is that of an entry equal to the text. */
  lemma {:induction false} NamedFromEntry(names: seq<string>, t: string, i: nat)
    requires NamedFrom(names, t, i).Some?
    ensures names[NamedFrom(names, t, i).value - 1] == t
    decreases |names| - i
  {
    if names[i] != t {
      NamedFromEntry(names, t, i + 1);
    }
  }

  /** The search stops at the first entry equal to the text. */
  lemma {:induction false} NamedFromFinds(names: seq<string>, t: string, i: nat, k: nat)
    requires i <= k < |names| && names[k] == t
    requires forall j :: i <= j < k ==> names[j] != t
    ensures NamedFrom(names, t, i) == Some(k + 1)
    decreases k - i
  {
    if i < k {
      NamedFromFinds(names, t, i + 1, k);
    }
  }

  /** Each abbreviation is a three-letter word naming its own month. */
  lemma AbbreviationNamesMonth(m: int)
    requires 1 <= m <= 12
    ensures IsLowerWord(MonthAbbreviations[m - 1]) && |MonthAbbreviations[m - 1]| == 3
    ensures NamedFrom(MonthAbbreviations, MonthAbbreviations[m - 1], 0) == Some(m)
  {
    var a := MonthAbbreviations;
    assert forall j :: 0 <= j < 12 ==> |a[j]| == 3;
    forall j | 0 <= j < m - 1
      ensures a[j] != a[m - 1]
    {
      assert a[j][0] != a[m - 1][0] || a[j][1] != a[m - 1][1] || a[j][2] != a[m - 1][2];
    }
    NamedFromFinds(a, a[m - 1], 0, m - 1);
  }

  /** Each full name is a word of at least three letters naming its own month. */
  lemma FullNameNamesMonth(m: int)
    requires 1 <= m <= 12
    ensures IsLowerWord(MonthNames[m - 1]) && |MonthNames[m - 1]| >= 3
    ensures NamedFrom(MonthNames, MonthNames[m - 1], 0) == Some(m)
  {
    var a := MonthNames;
    assert forall j :: 0 <= j < 12 ==> |a[j]| >= 3;
    forall j | 0 <= j < m - 1
      ensures a[j] != a[m - 1]
    {
      assert |a[j]| != |a[m - 1]| || a[j][0] != a[m - 1][0] || a[j][2] != a[m - 1][2];
    }
    NamedFromFinds(a, a[m - 1], 0, m - 1);
  }

  /** Builds the date when every field parsed and the date exists. */
  function Combine(year: Option<int>, month: Option<int>, day: Option<int>): (r: Option<Date>)
    ensures r.Some? ==> ValidDate(r.value)
    ensures r.Some? ==> Some(r.value.year) == year && Some(r.value.month) == month && Some(r.value.day) == day
  {
    if year.Some? && month.Some? && day.Some? && ValidDate(Date(year.value, month.value, day.value))
    then Some(Date(year.value, month.value, day.value))
    else None
  }

  /** The five formats, in the order they are tried. */
  datatype DateFormat =
    | IsoDate          // "%Y-%m-%d"
    | DayAbbrevYear    // "%d %b %Y"
    | MonthNameDayYear // "%B %d, %Y"
    | DayMonthYear     // "%d/%m/%Y"
    | MonthDayYear     // "%m/%d/%Y"

  const Formats: seq<DateFormat> := [IsoDate, DayAbbrevYear, MonthNameDayYear, DayMonthYear, MonthDayYear]

  /** "%Y-%m-%d": four digits, a hyphen, the month up to the next hyphen, the day. */
  function ParseIso(s: string): Option<Date>
  {
    if |s| < 5 || s[4] != '-' then None
    else
      var rest := s[5..];
      match IndexOf(rest, '-')
      case None => None
      case Some(j) => Combine(YearField(s[..4]), MonthField(rest[..j]), DayField(rest[j + 1..]))
  }

  /** "%d %b %Y": the year is the last four characters; before it, whitespace,
      the three-letter abbreviation, whitespace and the day. */
  function ParseDayAbbrevYear(s: string): Option<Date>
  {
    if |s| < 4 then None
    else
      var front := s[..|s| - 4];
      var monthEnd := TrimEnd(front);
      if |monthEnd| == |front| || |monthEnd| < 3 then None
      else
        var beforeMonth := monthEnd[..|monthEnd| - 3];
        var day := TrimEnd(beforeMonth);
        if |day| == |beforeMonth| then None
        else Combine(YearField(s[|s| - 4..]),
                     MonthNamed(MonthAbbreviations, monthEnd[|monthEnd| - 3..]),
                     DayField(day))
  }

  /** "%B %d, %Y": before the last four characters (the year), whitespace
      and before it a comma; what precedes the comma is the name and the day. */
  function ParseMonthNameDayYear(s: string): Option<Date>
  {
    if |s| < 4 then None
    else
      var front := s[..|s| - 4];
      var commaEnd := TrimEnd(front);
      if |commaEnd| == |front| || |commaEnd| == 0 || commaEnd[|commaEnd| - 1] != ',' then None
      else ParseNameAndDay(commaEnd[..|commaEnd| - 1], s[|s| - 4..])
  }

  /** "%B %d" with the year text: the leading letters name the month; then
      whitespace and the day. */
  function ParseNameAndDay(nameAndDay: string, year: string): Option<Date>
  {
    var n := LeadingLetters(nameAndDay);
    var afterName := nameAndDay[n..];
    var day := TrimStart(afterName);
    if |day| == |afterName| then None
    else Combine(YearField(year), MonthNamed(MonthNames, nameAndDay[..n]), DayField(day))
  }

  /** "%d/%m/%Y" (day first) or "%m/%d/%Y": split at the first two slashes. */
  function ParseSlashed(s: string, dayFirst: bool): Option<Date>
  {
    match IndexOf(s, '/')
    case None => None
    case Some(i) =>
      var rest := s[i + 1..];
      match IndexOf(rest, '/')
      case None => None
      case Some(j) =>
        var first, second, year := s[..i], rest[..j], rest[j + 1..];
        if dayFirst then Combine(YearField(year), MonthField(second), DayField(first))
        else Combine(YearField(year), MonthField(first), DayField(second))
  }

  /** `datetime.strptime(s, fmt)`: the date, or `None` where it raises. */
  function ParseWith(f: DateFormat, s: string): (r: Option<Date>)
    ensures r.Some? ==> ValidDate(r.value)
  {
    match f
    case IsoDate => ParseIso(s)
    case DayAbbrevYear => ParseDayAbbrevYear(s)
    case MonthNameDayYear => ParseMonthNameDayYear(s)
    case DayMonthYear => ParseSlashed(s, true)
    case MonthDayYear => ParseSlashed(s, false)
  }

  /** The loop over formats with `break` on the first success. */
  function FirstParse(formats: seq<DateFormat>, s: string): (r: Option<Date>)
    ensures r.Some? ==> ValidDate(r.value)
    decreases |formats|
  {
    if formats == [] then None
    else if ParseWith(formats[0], s).Some? then ParseWith(formats[0], s)
    else FirstParse(formats[1..], s)
  }

  function ParseDate(s: string): Option<Date>
  {
    FirstParse(Formats, s)
  }

  /** The first format that accepts the value decides the date; the value is
      rejected only when every format rejects it. */
  lemma {:induction false} FirstParseDecides(formats: seq<DateFormat>, s: string, d: Date)
    ensures FirstParse(formats, s) == Some(d) <==>
              exists i :: 0 <= i < |formats| && ParseWith(formats[i], s) == Some(d) &&
                          forall j :: 0 <= j < i ==> ParseWith(formats[j], s).None?
    ensures FirstParse(formats, s).None? <==> forall i :: 0 <= i < |formats| ==> ParseWith(formats[i], s).None?
  {
    FirstParseFinds(formats, s, d);
    FirstParseRejects(formats, s);
  }

  lemma {:induction false} FirstParseFinds(formats: seq<DateFormat>, s: string, d: Date)
    ensures FirstParse(formats, s) == Some(d) <==>
              exists i :: 0 <= i < |formats| && ParseWith(formats[i], s) == Some(d) &&
                          forall j :: 0 <= j < i ==> ParseWith(formats[j], s).None?
    decreases |formats|
  {
    if formats != [] && ParseWith(formats[0], s).None? {
      FirstParseFinds(formats[1..], s, d);
      if FirstParse(formats, s) == Some(d) {
        var i :| 0 <= i < |formats| - 1 && ParseWith(formats[1..][i], s) == Some(d) &&
                 forall j :: 0 <= j < i ==> ParseWith(formats[1..][j], s).None?;
        assert ParseWith(formats[i + 1], s) == Some(d);
        forall j | 0 <= j < i + 1 ensures ParseWith(formats[j], s).None? {
          if j > 0 {
            assert formats[j] == formats[1..][j - 1];
          }
        }
      }
      if exists i :: 0 <= i < |formats| && ParseWith(formats[i], s) == Some(d) &&
                     forall j :: 0 <= j < i ==> ParseWith(formats[j], s).None? {
        var i :| 0 <= i < |formats| && ParseWith(formats[i], s) == Some(d) &&
                 forall j :: 0 <= j < i ==> ParseWith(formats[j], s).None?;
        assert i > 0;
        assert ParseWith(formats[1..][i - 1], s) == Some(d);
        forall j | 0 <= j < i - 1 ensures ParseWith(formats[1..][j], s).None? {
          assert formats[1..][j] == formats[j + 1];
        }
      }
    }
  }

  lemma {:induction false} FirstParseRejects(formats: seq<DateFormat>, s: string)
    ensures FirstParse(formats, s).None? <==> forall i :: 0 <= i < |formats| ==> ParseWith(formats[i], s).None?
    decreases |formats|
  {
    if formats != [] && ParseWith(formats[0], s).None? {
      FirstParseRejects(formats[1..], s);
      if forall i :: 0 <= i < |formats| ==> ParseWith(formats[i], s).None? {
        forall i | 0 <= i < |formats| - 1 ensures ParseWith(formats[1..][i], s).None? {
          assert formats[1..][i] == formats[i + 1];
        }
      }
    }
  }

  /** Formats that reject the value can be skipped. */
  lemma {:induction false} FirstParseSkips(formats: seq<DateFormat>, s: string, k: nat)
    requires k <= |formats|
    requires forall j :: 0 <= j < k ==> ParseWith(formats[j], s).None?
    ensures FirstParse(formats, s) == FirstParse(formats[k..], s)
    decreases k
  {
    if k > 0 {
      assert formats[1..][k - 1..] == formats[k..];
      forall j | 0 <= j < k - 1 ensures ParseWith(formats[1..][j], s).None? {
        assert formats[1..][j] == formats[j + 1];
      }
      FirstParseSkips(formats[1..], s, k - 1);
    }
  }

  /** `ParseDate` when the formats before the `k`-th reject the value and
      the `k`-th accepts it. */
  lemma ParseDateAt(s: string, k: nat)
    requires k < |Formats|
    requires 0 < k ==> ParseIso(s).None?
    requires 1 < k ==> ParseDayAbbrevYear(s).None?
    requires 2 < k ==> ParseMonthNameDayYear(s).None?
    requires 3 < k ==> ParseSlashed(s, true).None?
    requires ParseWith(Formats[k], s).Some?
    ensures ParseDate(s) == ParseWith(Formats[k], s)
  {
    forall j | 0 <= j < k
      ensures ParseWith(Formats[j], s).None?
    {
      assert Formats[j] == [IsoDate, DayAbbrevYear, MonthNameDayYear, DayMonthYear][j];
    }
    FirstParseSkips(Formats, s, k);
    assert Formats[k..][0] == Formats[k];
  }

  function Pad2(n: int): string
    requires 0 <= n <= 99
  {
    [DigitChar(n / 10), DigitChar(n % 10)]
  }

  /** `%Y` written as four digits, zero-padded, as `strftime` does from
      CPython 3.12.5 and 3.13 on. Earlier releases defer to the C library,
      and glibc writes a year below 1000 with fewer digits ("999"). */
  function Pad4(n: int): string
    requires 0 <= n <= 9999
  {
    Pad2(n / 100) + Pad2(n % 100)
  }

  /** `strftime("%Y-MM-DD")` as written: the year, then the literal text
      "-MM-DD" (`MM` and `DD` are not directives). */
  function FormatAsWritten(d: Date): string
    requires ValidDate(d)
  {
    Pad4(d.year) + "-MM-DD"
  }

  /** `strftime("%Y-%m-%d")`, the ISO calendar date the pass is meant to write. */
  function FormatIso(d: Date): string
    requires ValidDate(d)
  {
    Pad4(d.year) + "-" + Pad2(d.month) + "-" + Pad2(d.day)
  }

  /** `strftime("%d/%m/%Y")`. */
  function FormatDayMonthYear(d: Date): string
    requires ValidDate(d)
  {
    Pad2(d.day) + "/" + Pad2(d.month) + "/" + Pad4(d.year)
  }

  /** `strftime("%m/%d/%Y")`. */
  function FormatMonthDayYear(d: Date): string
    requires ValidDate(d)
  {
    Pad2(d.month) + "/" + Pad2(d.day) + "/" + Pad4(d.year)
  }

  /** `strftime("%d %b %Y")` in the C locale, as in "15 Mar 1990". */
  function FormatDayAbbrevYear(d: Date): string
    requires ValidDate(d)
  {
    Pad2(d.day) + " " + Capitalized(MonthAbbreviations[d.month - 1]) + " " + Pad4(d.year)
  }

  /** `strftime("%B %d, %Y")` in the C locale, as in "March 15, 1990". */
  function FormatMonthNameDayYear(d: Date): string
    requires ValidDate(d)
  {
    Capitalized(MonthNames[d.month - 1]) + " " + Pad2(d.day) + ", " + Pad4(d.year)
  }

  /** How the pass writes a parsed date back: as the source stands, or as
      the ISO date it evidently means. */
  datatype DateStyle = AsWritten | Iso

  function Render(style: DateStyle, d: Date): string
    requires ValidDate(d)
  {
    match style
    case AsWritten => FormatAsWritten(d)
    case Iso => FormatIso(d)
  }

  lemma YearFieldOfPad4(y: int)
    requires 0 <= y <= 9999
    ensures YearField(Pad4(y)) == Some(y)
  {
    var h, l := y / 100, y % 100;
    assert y == 100 * h + l;
    assert h == 10 * (h / 10) + h % 10;
    assert l == 10 * (l / 10) + l % 10;
    var s := Pad4(y);
    assert DigitValue(s[0]) == h / 10 && DigitValue(s[1]) == h % 10;
    assert DigitValue(s[2]) == l / 10 && DigitValue(s[3]) == l % 10;
  }

  /** The ISO text of a date is read back, by the first format, as that date. */
  lemma IsoRoundTrip(d: Date)
    requires ValidDate(d)
    ensures ParseWith(IsoDate, FormatIso(d)) == Some(d)
    ensures ParseDate(FormatIso(d)) == Some(d)
  {
    var s := FormatIso(d);
    assert ParseIso(s) == Some(d) by {
      var rest := s[5..];
      assert s[..4] == Pad4(d.year);
      assert rest == Pad2(d.month) + "-" + Pad2(d.day);
      assert rest[..2] == Pad2(d.month) && rest[3..] == Pad2(d.day);
      assert rest[0] != '-' && rest[1] != '-' && rest[2] == '-';
      FirstIndex(rest, '-', 2);
      YearFieldOfPad4(d.year);
      MonthFieldOfPad2(d.month);
      DayFieldOfPad2(d.day);
    }
    ParseDateAt(s, 0);
  }

  /** The text written as the source stands is not a date in any of the
      five formats, so it is never rewritten again. */
  lemma AsWrittenNeverParses(d: Date)
    requires ValidDate(d)
    ensures ParseDate(FormatAsWritten(d)).None?
  {
    var s := FormatAsWritten(d);
    assert s[4] == '-' && s[5..] == "MM-DD";
    assert s[5..][0] != '-' && s[5..][1] != '-' && s[5..][2] == '-';
    FirstIndex(s[5..], '-', 2);
    assert MonthField("MM").None?;
    assert s[|s| - 4..] == "M-DD";
    assert IndexOf(s, '/').None?;
    FirstParseDecides(Formats, s, d);
  }

  lemma MonthFieldOfPad2(m: int)
    requires 1 <= m <= 12
    ensures MonthField(Pad2(m)) == Some(m)
  {
  }

  lemma DayFieldOfPad2(d: int)
    requires 1 <= d <= 31
    ensures DayField(Pad2(d)) == Some(d)
  {
  }

  /** The texts `%d` reads as day `n`: two digits, or for a day below 10 a
      single digit, alone or after one space. */
  predicate DayText(t: string, n: int)
  {
    (1 <= n <= 31 && t == Pad2(n)) || (1 <= n <= 9 && (t == [DigitChar(n)] || t == [' ', DigitChar(n)]))
  }

  /** The texts `%m` reads as month `n`: two digits, or for a month below 10
      a single digit. */
  predicate MonthText(t: string, n: int)
  {
    (1 <= n <= 12 && t == Pad2(n)) || (1 <= n <= 9 && t == [DigitChar(n)])
  }

  /** A run of one or more whitespace characters, what a space in a format matches. */
  predicate SpaceRun(w: string)
  {
    |w| > 0 && forall i :: 0 <= i < |w| ==> IsSpace(w[i])
  }

  /** `%d` reads exactly its texts. */
  lemma DayFieldExact(t: string, n: int)
    ensures DayField(t) == Some(n) <==> DayText(t, n)
  {
    if DayField(t) == Some(n) {
      if |t| == 2 && t[0] != ' ' {
        assert t[0] == DigitChar(n / 10) && t[1] == DigitChar(n % 10);
        assert t == Pad2(n);
      } else if |t| == 1 {
        assert t == [DigitChar(n)];
      } else {
        assert t == [' ', DigitChar(n)];
      }
    }
    if DayText(t, n) && t == Pad2(n) {
      DayFieldOfPad2(n);
    }
  }

  /** `%m` reads exactly its texts. */
  lemma MonthFieldExact(t: string, n: int)
    ensures MonthField(t) == Some(n) <==> MonthText(t, n)
  {
    if MonthField(t) == Some(n) {
      if |t| == 2 {
        assert t[0] == DigitChar(n / 10) && t[1] == DigitChar(n % 10);
        assert t == Pad2(n);
      } else {
        assert t == [DigitChar(n)];
      }
    }
    if MonthText(t, n) && t == Pad2(n) {
      MonthFieldOfPad2(n);
    }
  }

  /** `%Y` reads exactly the four-digit texts `strftime` writes. */
  lemma YearFieldExact(t: string, y: int)
    ensures YearField(t) == Some(y) <==> 0 <= y <= 9999 && t == Pad4(y)
  {
    if YearField(t) == Some(y) {
      var a, b, c, e := DigitValue(t[0]), DigitValue(t[1]), DigitValue(t[2]), DigitValue(t[3]);
      assert y == 100 * (10 * a + b) + (10 * c + e);
      assert y / 100 == 10 * a + b && y % 100 == 10 * c + e;
      assert (10 * a + b) / 10 == a && (10 * a + b) % 10 == b;
      assert (10 * c + e) / 10 == c && (10 * c + e) % 10 == e;
      assert t == Pad4(y);
    }
    if 0 <= y <= 9999 && t == Pad4(y) {
      YearFieldOfPad4(y);
    }
  }

  /** The two formats with month names need whitespace right before the year. */
  lemma WordFormatsNeedSpaceBeforeYear(s: string)
    requires |s| >= 5 && !IsSpace(s[|s| - 5])
    ensures ParseDayAbbrevYear(s).None? && ParseMonthNameDayYear(s).None?
  {
    var front := s[..|s| - 4];
    assert TrimEnd(front) == front;
  }

  lemma SlashedFields(first: string, second: string, year: string)
    requires |first| == 2 && first[0] != '/' && first[1] != '/'
    requires |second| == 2 && second[0] != '/' && second[1] != '/'
    ensures ParseSlashed(first + "/" + second + "/" + year, true)
            == Combine(YearField(year), MonthField(second), DayField(first))
    ensures ParseSlashed(first + "/" + second + "/" + year, false)
            == Combine(YearField(year), MonthField(first), DayField(second))
  {
    var s := first + "/" + second + "/" + year;
    assert s[0] != '/' && s[1] != '/' && s[2] == '/';
    FirstIndex(s, '/', 2);
    var rest := s[3..];
    assert rest == second + "/" + year;
    assert rest[0] != '/' && rest[1] != '/' && rest[2] == '/';
    FirstIndex(rest, '/', 2);
    assert s[..2] == first && rest[..2] == second && rest[3..] == year;
  }

  /** The text "%d/%m/%Y" writes for a date is read back, by the fourth
      format, as that date: day first. */
  lemma DayFirstRoundTrip(d: Date)
    requires ValidDate(d)
    ensures ParseWith(DayMonthYear, FormatDayMonthYear(d)) == Some(d)
    ensures ParseDate(FormatDayMonthYear(d)) == Some(d)
  {
    var s := FormatDayMonthYear(d);
    assert ParseWith(IsoDate, s).None? by {
      assert |s| == 10 && s[4] == Pad2(d.month)[1];
    }
    WordFormatsNeedSpaceBeforeYear(s);
    assert ParseWith(DayMonthYear, s) == Some(d) by {
      SlashedFields(Pad2(d.day), Pad2(d.month), Pad4(d.year));
      YearFieldOfPad4(d.year);
      MonthFieldOfPad2(d.month);
      DayFieldOfPad2(d.day);
    }
    ParseDateAt(s, 3);
  }

  /** Slashed dates are read day first: "03/04/2020" is the 3rd of April. */
  lemma SlashedDatesAreDayFirst(s: string)
    requires s == "03/04/2020"
    ensures ParseDate(s) == Some(Date(2020, 4, 3))
  {
    assert s == FormatDayMonthYear(Date(2020, 4, 3)) by {
      assert Pad2(3) == "03" && Pad2(4) == "04" && Pad4(2020) == "2020";
    }
    DayFirstRoundTrip(Date(2020, 4, 3));
  }

  lemma IsoExampleText()
    ensures FormatIso(Date(2020, 4, 3)) == "2020-04-03"
  {
    assert Pad4(2020) == "2020" && Pad2(4) == "04" && Pad2(3) == "03";
  }

  /** As written, the 15th of March 1990 becomes "1990-MM-DD" where
      "1990-03-15" was meant, and every date of a year gets the same text. */
  lemma AsWrittenDropsMonthAndDay()
    ensures FormatAsWritten(Date(1990, 3, 15)) == "1990-MM-DD"
    ensures FormatIso(Date(1990, 3, 15)) == "1990-03-15"
    ensures FormatAsWritten(Date(1990, 3, 15)) == FormatAsWritten(Date(1990, 12, 31))
  {
    assert Pad4(1990) == "1990";
    assert Pad2(15) == "15" && Pad2(3) == "03";
  }

  lemma TrimOneSpace(x: string)
    requires |x| > 0 && !IsSpace(x[|x| - 1])
    ensures TrimEnd(x + " ") == x
  {
    assert (x + " ")[..|x|] == x;
  }

  lemma TrimOneLeadingSpace(x: string)
    requires |x| > 0 && !IsSpace(x[0])
    ensures TrimStart(" " + x) == x
  {
    assert (" " + x)[1..] == x;
  }

  lemma {:induction false} LeadingLettersOf(x: string, y: string)
    requires forall i :: 0 <= i < |x| ==> IsAsciiLetter(x[i])
    requires |y| > 0 && !IsAsciiLetter(y[0])
    ensures LeadingLetters(x + y) == |x|
    decreases |x|
  {
    if x == [] {
      assert x + y == y;
    } else {
      assert (x + y)[1..] == x[1..] + y;
      LeadingLettersOf(x[1..], y);
    }
  }

  /** The text "%d %b %Y" writes for a date is read back, by the second
      format, as that date, and no earlier format accepts it. */
  lemma DayAbbrevRoundTrip(d: Date)
    requires ValidDate(d)
    ensures ParseWith(DayAbbrevYear, FormatDayAbbrevYear(d)) == Some(d)
    ensures ParseDate(FormatDayAbbrevYear(d)) == Some(d)
  {
    AbbreviationNamesMonth(d.month);
    var p, a, y := Pad2(d.day), Capitalized(MonthAbbreviations[d.month - 1]), Pad4(d.year);
    assert MonthNamed(MonthAbbreviations, a) == Some(d.month);
    YearFieldOfPad4(d.year);
    DayFieldOfPad2(d.day);
    DayAbbrevText(p, a, y, d);
  }

  /** "<day> <abbreviation> <year>" whose three fields read as `d`. */
  lemma DayAbbrevText(p: string, a: string, y: string, d: Date)
    requires |p| == 2 && !IsSpace(p[1]) && |a| == 3 && IsAsciiLetter(a[1]) && !IsSpace(a[2]) && |y| == 4
    requires YearField(y) == Some(d.year) && MonthNamed(MonthAbbreviations, a) == Some(d.month)
    requires DayField(p) == Some(d.day) && ValidDate(d)
    ensures ParseWith(DayAbbrevYear, p + " " + a + " " + y) == Some(d)
    ensures ParseDate(p + " " + a + " " + y) == Some(d)
  {
    var s := p + " " + a + " " + y;
    DayAbbrevFields(p, a, y);
    assert s[4] == a[1];
    ParseDateAt(s, 1);
  }

  /** How the second format splits "<day> <abbreviation> <year>". */
  lemma DayAbbrevFields(p: string, a: string, y: string)
    requires |p| == 2 && !IsSpace(p[1])
    requires |a| == 3 && !IsSpace(a[2]) && |y| == 4
    ensures ParseDayAbbrevYear(p + " " + a + " " + y)
            == Combine(YearField(y), MonthNamed(MonthAbbreviations, a), DayField(p))
  {
    var s := p + " " + a + " " + y;
    var monthEnd := p + " " + a;
    assert s[..|s| - 4] == monthEnd + " ";
    TrimOneSpace(monthEnd);
    assert monthEnd[..|monthEnd| - 3] == p + " " && monthEnd[|monthEnd| - 3..] == a;
    TrimOneSpace(p);
    assert s[|s| - 4..] == y;
  }

  /** The text "%B %d, %Y" writes for a date is read back, by the third
      format, as that date, and no earlier format accepts it. */
  lemma MonthNameRoundTrip(d: Date)
    requires ValidDate(d)
    ensures ParseWith(MonthNameDayYear, FormatMonthNameDayYear(d)) == Some(d)
    ensures ParseDate(FormatMonthNameDayYear(d)) == Some(d)
  {
    FullNameNamesMonth(d.month);
    var n, p, y := Capitalized(MonthNames[d.month - 1]), Pad2(d.day), Pad4(d.year);
    assert MonthNamed(MonthNames, n) == Some(d.month);
    YearFieldOfPad4(d.year);
    DayFieldOfPad2(d.day);
    MonthNameText(n, p, y, d);
  }

  /** "<name> <day>, <year>" whose three fields read as `d`. */
  lemma MonthNameText(n: string, p: string, y: string, d: Date)
    requires |n| >= 3 && forall i :: 0 <= i < |n| ==> IsAsciiLetter(n[i])
    requires |p| == 2 && IsDigit(p[0]) && IsDigit(p[1]) && |y| == 4
    requires YearField(y) == Some(d.year) && MonthNamed(MonthNames, n) == Some(d.month)
    requires DayField(p) == Some(d.day) && ValidDate(d)
    ensures ParseWith(MonthNameDayYear, n + " " + p + ", " + y) == Some(d)
    ensures ParseDate(n + " " + p + ", " + y) == Some(d)
  {
    var s := n + " " + p + ", " + y;
    MonthNameFields(n, p, y);
    MonthNameTextNotEarlier(n, p, y);
    ParseDateAt(s, 2);
  }

  /** "<name> <day>, <year>" is neither "%Y-%m-%d" nor "%d %b %Y". */
  lemma MonthNameTextNotEarlier(n: string, p: string, y: string)
    requires |n| >= 3 && forall i :: 0 <= i < |n| ==> IsAsciiLetter(n[i])
    requires |p| == 2 && IsDigit(p[0]) && IsDigit(p[1]) && |y| == 4
    ensures ParseIso(n + " " + p + ", " + y).None?
    ensures ParseDayAbbrevYear(n + " " + p + ", " + y).None?
  {
    var s := n + " " + p + ", " + y;
    assert s[4] == (if |n| > 4 then n[4] else if |n| == 4 then ' ' else p[0]);
    var monthEnd := n + " " + p + ",";
    assert s[..|s| - 4] == monthEnd + " ";
    TrimOneSpace(monthEnd);
    assert monthEnd[..|monthEnd| - 3] == n + " ";
    TrimOneSpace(n);
    assert DayField(n).None?;
  }

  /** How the third format splits "<name> <day>, <year>". */
  lemma MonthNameFields(n: string, p: string, y: string)
    requires |n| > 0 && forall i :: 0 <= i < |n| ==> IsAsciiLetter(n[i])
    requires |p| == 2 && IsDigit(p[0]) && IsDigit(p[1]) && |y| == 4
    ensures ParseMonthNameDayYear(n + " " + p + ", " + y)
            == Combine(YearField(y), MonthNamed(MonthNames, n), DayField(p))
  {
    var s := n + " " + p + ", " + y;
    var commaEnd := n + " " + p + ",";
    assert s[..|s| - 4] == commaEnd + " ";
    TrimOneSpace(commaEnd);
    var nameAndDay := n + (" " + p);
    assert commaEnd[..|commaEnd| - 1] == nameAndDay;
    LeadingLettersOf(n, " " + p);
    assert nameAndDay[..|n|] == n && nameAndDay[|n|..] == " " + p;
    TrimOneLeadingSpace(p);
    assert s[|s| - 4..] == y;
  }

  /** Two digits from 13 to 31 are not a month. */
  lemma NoMonthAboveTwelve(n: int)
    requires 13 <= n <= 31
    ensures MonthField(Pad2(n)).None?
  {
  }

  /** The text "%m/%d/%Y" writes for a date is read by the fifth format as
      that date. Since "%d/%m/%Y" is tried first, the whole pass reads it
      as that date only when the day is above 12; otherwise month and day
      come out swapped. */
  lemma MonthFirstRoundTrip(d: Date)
    requires ValidDate(d)
    ensures ParseWith(MonthDayYear, FormatMonthDayYear(d)) == Some(d)
    ensures d.day > 12 ==> ParseDate(FormatMonthDayYear(d)) == Some(d)
    ensures d.day <= 12 ==> ParseDate(FormatMonthDayYear(d)) == Some(Date(d.year, d.day, d.month))
  {
    var s := FormatMonthDayYear(d);
    var m, dd, y := Pad2(d.month), Pad2(d.day), Pad4(d.year);
    SlashedFields(m, dd, y);
    YearFieldOfPad4(d.year);
    assert ParseWith(MonthDayYear, s) == Some(d) by {
      MonthFieldOfPad2(d.month);
      DayFieldOfPad2(d.day);
    }
    assert ParseIso(s).None? && ParseDayAbbrevYear(s).None? && ParseMonthNameDayYear(s).None? by {
      assert |s| == 10 && s[4] == dd[1];
      WordFormatsNeedSpaceBeforeYear(s);
    }
    if d.day > 12 {
      assert ParseSlashed(s, true).None? by {
        NoMonthAboveTwelve(d.day);
      }
      ParseDateAt(s, 4);
    } else {
      assert ParseSlashed(s, true) == Some(Date(d.year, d.day, d.month)) by {
        MonthFieldOfPad2(d.day);
        DayFieldOfPad2(d.month);
      }
      ParseDateAt(s, 3);
    }
  }

}
