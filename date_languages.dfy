/** Exactly which texts each of the five `strptime` formats of the
    post-validation pass (ocr_app/processor.py:168-170) reads as a given
    date: the language of the format's regular expression, built from the
    texts `%d`, `%m` and `%Y` read as the date's fields, the month words
    in any ASCII case, and one or more whitespace characters wherever the
    format has a space. Nothing before, between or after these pieces is
    accepted. */
module DateLanguages {
  import opened Common
  import opened Dates

  /** The texts that format `f` reads as the (valid) date `d`. */
  ghost predicate ReadsAs(f: DateFormat, s: string, d: Date)
    requires ValidDate(d)
  {
    match f
    case IsoDate => IsoText(s, d)
    case DayAbbrevYear => DayAbbrevText(s, d)
    case MonthNameDayYear => MonthNameText(s, d)
    case DayMonthYear => SlashedText(s, true, d)
    case MonthDayYear => SlashedText(s, false, d)
  }

  /** "%Y-%m-%d": `s` is the year, the month text `mt` and the day text
      `dt`, joined by hyphens. */
  predicate IsoPieces(s: string, d: Date, mt: string, dt: string)
    requires ValidDate(d)
  {
    MonthText(mt, d.month) && DayText(dt, d.day) && s == Pad4(d.year) + "-" + mt + "-" + dt
  }

  ghost predicate IsoText(s: string, d: Date)
    requires ValidDate(d)
  {
    exists mt, dt :: IsoPieces(s, d, mt, dt)
  }

  /** "%d %b %Y": the day text, whitespace, the abbreviation in any case,
      whitespace and the year. */
  predicate DayAbbrevPieces(s: string, d: Date, dt: string, w1: string, a: string, w2: string)
    requires ValidDate(d)
  {
    DayText(dt, d.day) && SpaceRun(w1) && Lower(a) == MonthAbbreviations[d.month - 1] &&
    SpaceRun(w2) && s == dt + w1 + a + w2 + Pad4(d.year)
  }

  ghost predicate DayAbbrevText(s: string, d: Date)
    requires ValidDate(d)
  {
    exists dt, w1, a, w2 :: DayAbbrevPieces(s, d, dt, w1, a, w2)
  }

  /** "%B %d, %Y": the month name in any case, whitespace, the day text, a
      comma, whitespace and the year. */
  predicate MonthNamePieces(s: string, d: Date, nm: string, w1: string, dt: string, w2: string)
    requires ValidDate(d)
  {
    Lower(nm) == MonthNames[d.month - 1] && SpaceRun(w1) && DayText(dt, d.day) &&
    SpaceRun(w2) && s == nm + w1 + dt + "," + w2 + Pad4(d.year)
  }

  ghost predicate MonthNameText(s: string, d: Date)
    requires ValidDate(d)
  {
    exists nm, w1, dt, w2 :: MonthNamePieces(s, d, nm, w1, dt, w2)
  }

  predicate SlashedFieldTexts(first: string, second: string, dayFirst: bool, d: Date)
  {
    if dayFirst then DayText(first, d.day) && MonthText(second, d.month)
    else MonthText(first, d.month) && DayText(second, d.day)
  }

  /** "%d/%m/%Y" (day first) or "%m/%d/%Y": two field texts and the year,
      joined by slashes. */
  predicate SlashedPieces(s: string, dayFirst: bool, d: Date, first: string, second: string)
    requires ValidDate(d)
  {
    SlashedFieldTexts(first, second, dayFirst, d) && s == first + "/" + second + "/" + Pad4(d.year)
  }

  ghost predicate SlashedText(s: string, dayFirst: bool, d: Date)
    requires ValidDate(d)
  {
    exists first, second :: SlashedPieces(s, dayFirst, d, first, second)
  }

  /** A day or month text is one or two characters, digits or a leading
      space, and ends in a digit. */
  lemma FieldTextChars(t: string, n: int)
    requires DayText(t, n) || MonthText(t, n)
    ensures 1 <= |t| <= 2 && IsDigit(t[|t| - 1])
    ensures forall i :: 0 <= i < |t| ==> IsDigit(t[i]) || t[i] == ' '
  {
  }

  lemma {:induction false} TrimEndRun(x: string, w: string)
    requires forall i :: 0 <= i < |w| ==> IsSpace(w[i])
    requires |x| > 0 && !IsSpace(x[|x| - 1])
    ensures TrimEnd(x + w) == x
    decreases |w|
  {
    if w == [] {
      assert x + w == x;
    } else {
      assert (x + w)[..|x + w| - 1] == x + w[..|w| - 1];
      TrimEndRun(x, w[..|w| - 1]);
    }
  }

  lemma {:induction false} TrimStartRun(w: string, x: string)
    requires forall i :: 0 <= i < |w| ==> IsSpace(w[i])
    ensures TrimStart(w + x) == TrimStart(x)
    decreases |w|
  {
    if w == [] {
      assert w + x == x;
    } else {
      assert (w + x)[0] == w[0] && (w + x)[1..] == w[1..] + x;
      TrimStartRun(w[1..], x);
    }
  }

  /** Text that lower-cases to a lower-case word is made of ASCII letters. */
  lemma LowerWordLetters(x: string, w: string)
    requires Lower(x) == w && IsLowerWord(w)
    ensures |x| == |w| && forall i :: 0 <= i < |x| ==> IsAsciiLetter(x[i]) && !IsSpace(x[i])
  {
    forall i | 0 <= i < |x|
      ensures IsAsciiLetter(x[i]) && !IsSpace(x[i])
    {
      assert LowerChar(x[i]) == w[i];
    }
  }

  /** A month found by name is that of the table entry the name lower-cases to. */
  lemma MonthNamedEntry(names: seq<string>, x: string, m: int)
    requires MonthNamed(names, x) == Some(m)
    ensures 1 <= m <= |names| && Lower(x) == names[m - 1]
  {
    NamedFromEntry(names, Lower(x), 0);
  }

  // ---- "%Y-%m-%d" ----

  lemma IsoReads(mt: string, dt: string, d: Date)
    requires ValidDate(d) && MonthText(mt, d.month) && DayText(dt, d.day)
    ensures ParseIso(Pad4(d.year) + "-" + mt + "-" + dt) == Some(d)
  {
    var s := Pad4(d.year) + "-" + mt + "-" + dt;
    FieldTextChars(mt, d.month);
    var rest := s[5..];
    assert s[4] == '-' && s[..4] == Pad4(d.year);
    assert rest == mt + "-" + dt;
    FirstIndex(rest, '-', |mt|);
    assert rest[..|mt|] == mt && rest[|mt| + 1..] == dt;
    YearFieldExact(Pad4(d.year), d.year);
    MonthFieldExact(mt, d.month);
    DayFieldExact(dt, d.day);
  }

  lemma IsoSound(s: string, d: Date)
    requires ParseIso(s) == Some(d)
    ensures ValidDate(d) && IsoText(s, d)
  {
    var rest := s[5..];
    var j := IndexOf(rest, '-').value;
    var mt, dt := rest[..j], rest[j + 1..];
    YearFieldExact(s[..4], d.year);
    MonthFieldExact(mt, d.month);
    DayFieldExact(dt, d.day);
    assert rest == mt + "-" + dt;
    assert s == s[..4] + "-" + rest;
    assert IsoPieces(s, d, mt, dt);
  }

  /** `strptime(s, "%Y-%m-%d")` is `d` exactly when `s` is in the format's
      language for `d`. */
  lemma IsoExact(s: string, d: Date)
    ensures ParseIso(s) == Some(d) <==> ValidDate(d) && IsoText(s, d)
  {
    if ParseIso(s) == Some(d) {
      IsoSound(s, d);
    }
    if ValidDate(d) && IsoText(s, d) {
      var mt, dt :| IsoPieces(s, d, mt, dt);
      IsoReads(mt, dt, d);
    }
  }

  // ---- "%d/%m/%Y" and "%m/%d/%Y" ----

  /** A text is its pieces around two separator characters. */
  lemma Rejoin(s: string, i: nat, j: nat, c: char)
    requires i < |s| && s[i] == c && j < |s| - i - 1 && s[i + 1..][j] == c
    ensures s == s[..i] + [c] + s[i + 1..][..j] + [c] + s[i + 1..][j + 1..]
  {
    var rest := s[i + 1..];
    assert rest == rest[..j] + [c] + rest[j + 1..];
    assert s == s[..i] + [c] + rest;
  }

  /** Joining three pieces that hold no separator with two separators, the
      first two separators found are the ones put in. */
  lemma Split(a: string, b: string, t: string, c: char)
    requires forall k :: 0 <= k < |a| ==> a[k] != c
    requires forall k :: 0 <= k < |b| ==> b[k] != c
    ensures var s := a + [c] + b + [c] + t;
      IndexOf(s, c) == Some(|a|) && s[..|a|] == a &&
      IndexOf(s[|a| + 1..], c) == Some(|b|) && s[|a| + 1..][..|b|] == b && s[|a| + 1..][|b| + 1..] == t
  {
    var s := a + [c] + b + [c] + t;
    FirstIndex(s, c, |a|);
    var rest := s[|a| + 1..];
    assert rest == b + [c] + t;
    FirstIndex(rest, c, |b|);
  }

  /** `ParseSlashed` once the two separators are known. */
  lemma SlashedAt(s: string, dayFirst: bool, i: nat, j: nat)
    requires IndexOf(s, '/') == Some(i) && IndexOf(s[i + 1..], '/') == Some(j)
    ensures var first, second, year := s[..i], s[i + 1..][..j], s[i + 1..][j + 1..];
      ParseSlashed(s, dayFirst) ==
        if dayFirst then Combine(YearField(year), MonthField(second), DayField(first))
        else Combine(YearField(year), MonthField(first), DayField(second))
  {
  }

  /** Field texts of the slashed formats hold no slash. */
  lemma SlashedCuts(first: string, second: string, y: string, dayFirst: bool, d: Date)
    requires SlashedFieldTexts(first, second, dayFirst, d)
    ensures var s := first + "/" + second + "/" + y;
      IndexOf(s, '/') == Some(|first|) && s[..|first|] == first &&
      IndexOf(s[|first| + 1..], '/') == Some(|second|) && s[|first| + 1..][..|second|] == second &&
      s[|first| + 1..][|second| + 1..] == y
  {
    if dayFirst {
      FieldTextChars(first, d.day);
      FieldTextChars(second, d.month);
    } else {
      FieldTextChars(first, d.month);
      FieldTextChars(second, d.day);
    }
    Split(first, second, y, '/');
  }

  /** The field texts of a slashed date read as its fields. */
  lemma SlashedFieldsOf(first: string, second: string, dayFirst: bool, d: Date)
    requires ValidDate(d) && SlashedFieldTexts(first, second, dayFirst, d)
    ensures if dayFirst then Combine(YearField(Pad4(d.year)), MonthField(second), DayField(first)) == Some(d)
            else Combine(YearField(Pad4(d.year)), MonthField(first), DayField(second)) == Some(d)
  {
    YearFieldExact(Pad4(d.year), d.year);
    MonthFieldExact(if dayFirst then second else first, d.month);
    DayFieldExact(if dayFirst then first else second, d.day);
  }

  lemma SlashedReads(first: string, second: string, dayFirst: bool, d: Date)
    requires ValidDate(d) && SlashedFieldTexts(first, second, dayFirst, d)
    ensures ParseSlashed(first + "/" + second + "/" + Pad4(d.year), dayFirst) == Some(d)
  {
    SlashedCuts(first, second, Pad4(d.year), dayFirst, d);
    SlashedAt(first + "/" + second + "/" + Pad4(d.year), dayFirst, |first|, |second|);
    SlashedFieldsOf(first, second, dayFirst, d);
  }

  /** The field texts of a slashed date that `Combine` accepts. */
  lemma SlashedFieldsRead(first: string, second: string, year: string, dayFirst: bool, d: Date)
    requires if dayFirst then Combine(YearField(year), MonthField(second), DayField(first)) == Some(d)
             else Combine(YearField(year), MonthField(first), DayField(second)) == Some(d)
    ensures ValidDate(d) && SlashedFieldTexts(first, second, dayFirst, d) && year == Pad4(d.year)
  {
    YearFieldExact(year, d.year);
    if dayFirst {
      MonthFieldExact(second, d.month);
      DayFieldExact(first, d.day);
    } else {
      MonthFieldExact(first, d.month);
      DayFieldExact(second, d.day);
    }
  }

  /** A text cut at two slashes into field texts that `Combine` accepts is
      in the slashed language. */
  lemma SlashedTextAt(s: string, i: nat, j: nat, dayFirst: bool, d: Date)
    requires i < |s| && s[i] == '/' && j < |s| - i - 1 && s[i + 1..][j] == '/'
    requires var first, second, year := s[..i], s[i + 1..][..j], s[i + 1..][j + 1..];
      if dayFirst then Combine(YearField(year), MonthField(second), DayField(first)) == Some(d)
      else Combine(YearField(year), MonthField(first), DayField(second)) == Some(d)
    ensures ValidDate(d) && SlashedText(s, dayFirst, d)
  {
    var first, second, year := s[..i], s[i + 1..][..j], s[i + 1..][j + 1..];
    SlashedFieldsRead(first, second, year, dayFirst, d);
    Rejoin(s, i, j, '/');
    assert SlashedPieces(s, dayFirst, d, first, second);
  }

  lemma SlashedSound(s: string, dayFirst: bool, d: Date)
    requires ParseSlashed(s, dayFirst) == Some(d)
    ensures ValidDate(d) && SlashedText(s, dayFirst, d)
  {
    var i := IndexOf(s, '/').value;
    var j := IndexOf(s[i + 1..], '/').value;
    SlashedAt(s, dayFirst, i, j);
    SlashedTextAt(s, i, j, dayFirst, d);
  }

  /** The slashed formats read a text as `d` exactly when it is in their
      language for `d`. */
  lemma SlashedExact(s: string, dayFirst: bool, d: Date)
    ensures ParseSlashed(s, dayFirst) == Some(d) <==> ValidDate(d) && SlashedText(s, dayFirst, d)
  {
    if ParseSlashed(s, dayFirst) == Some(d) {
      SlashedSound(s, dayFirst, d);
    }
    if ValidDate(d) && SlashedText(s, dayFirst, d) {
      var first, second :| SlashedPieces(s, dayFirst, d, first, second);
      SlashedReads(first, second, dayFirst, d);
    }
  }
  // ---- "%d %b %Y" ----

  /** How the second format splits a day, whitespace, a three-letter word,
      whitespace and four year characters. */
  lemma DayAbbrevSplit(dt: string, w1: string, a: string, w2: string, y: string)
    requires |dt| > 0 && !IsSpace(dt[|dt| - 1]) && SpaceRun(w1)
    requires |a| == 3 && !IsSpace(a[2]) && SpaceRun(w2) && |y| == 4
    ensures ParseDayAbbrevYear(dt + w1 + a + w2 + y)
            == Combine(YearField(y), MonthNamed(MonthAbbreviations, a), DayField(dt))
  {
    var s := dt + w1 + a + w2 + y;
    var monthEnd := dt + w1 + a;
    assert s[..|s| - 4] == monthEnd + w2 && s[|s| - 4..] == y;
    TrimEndRun(monthEnd, w2);
    assert monthEnd[..|monthEnd| - 3] == dt + w1 && monthEnd[|monthEnd| - 3..] == a;
    TrimEndRun(dt, w1);
  }

  lemma DayAbbrevReads(dt: string, w1: string, a: string, w2: string, d: Date)
    requires ValidDate(d) && DayText(dt, d.day) && SpaceRun(w1) && SpaceRun(w2)
    requires Lower(a) == MonthAbbreviations[d.month - 1]
    ensures ParseDayAbbrevYear(dt + w1 + a + w2 + Pad4(d.year)) == Some(d)
  {
    FieldTextChars(dt, d.day);
    AbbreviationNamesMonth(d.month);
    LowerWordLetters(a, MonthAbbreviations[d.month - 1]);
    DayAbbrevSplit(dt, w1, a, w2, Pad4(d.year));
    YearFieldExact(Pad4(d.year), d.year);
    DayFieldExact(dt, d.day);
  }

  /** A day, two runs of whitespace around a month abbreviation, and a year
      whose fields read as `d` are in the second format's language. */
  lemma DayAbbrevTextOf(dt: string, w1: string, a: string, w2: string, y: string, d: Date)
    requires ValidDate(d) && SpaceRun(w1) && SpaceRun(w2) && MonthNamed(MonthAbbreviations, a) == Some(d.month)
    requires DayField(dt) == Some(d.day) && YearField(y) == Some(d.year)
    ensures DayAbbrevText(dt + w1 + a + w2 + y, d)
  {
    MonthNamedEntry(MonthAbbreviations, a, d.month);
    DayFieldExact(dt, d.day);
    YearFieldExact(y, d.year);
    assert DayAbbrevPieces(dt + w1 + a + w2 + y, d, dt, w1, a, w2);
  }

  /** The text the second format accepts is its day, whitespace, the
      abbreviation, whitespace and the year, cut where the format cuts it. */
  lemma DayAbbrevCuts(s: string)
    requires |s| >= 4
    requires var front := s[..|s| - 4];
      var monthEnd := TrimEnd(front);
      |monthEnd| < |front| && |monthEnd| >= 3 &&
      |TrimEnd(monthEnd[..|monthEnd| - 3])| < |monthEnd| - 3
    ensures var front := s[..|s| - 4];
      var monthEnd := TrimEnd(front);
      var beforeMonth := monthEnd[..|monthEnd| - 3];
      var day := TrimEnd(beforeMonth);
      SpaceRun(beforeMonth[|day|..]) && SpaceRun(front[|monthEnd|..]) &&
      s == day + beforeMonth[|day|..] + monthEnd[|monthEnd| - 3..] + front[|monthEnd|..] + s[|s| - 4..]
  {
    var front := s[..|s| - 4];
    var y := s[|s| - 4..];
    var monthEnd := TrimEnd(front);
    var beforeMonth := monthEnd[..|monthEnd| - 3];
    var a := monthEnd[|monthEnd| - 3..];
    var day := TrimEnd(beforeMonth);
    TrimEndCut(front);
    TrimEndCut(beforeMonth);
    Halves(s, |s| - 4);
    Halves(monthEnd, |monthEnd| - 3);
  }

  lemma DayAbbrevSound(s: string, d: Date)
    requires ParseDayAbbrevYear(s) == Some(d)
    ensures ValidDate(d) && DayAbbrevText(s, d)
  {
    DayAbbrevCuts(s);
    var front := s[..|s| - 4];
    var monthEnd := TrimEnd(front);
    var beforeMonth := monthEnd[..|monthEnd| - 3];
    var day := TrimEnd(beforeMonth);
    DayAbbrevTextOf(day, beforeMonth[|day|..], monthEnd[|monthEnd| - 3..], front[|monthEnd|..], s[|s| - 4..], d);
  }

  /** `strptime(s, "%d %b %Y")` is `d` exactly when `s` is in the format's
      language for `d`. */
  lemma DayAbbrevExact(s: string, d: Date)
    ensures ParseDayAbbrevYear(s) == Some(d) <==> ValidDate(d) && DayAbbrevText(s, d)
  {
    if ParseDayAbbrevYear(s) == Some(d) {
      DayAbbrevSound(s, d);
    }
    if ValidDate(d) && DayAbbrevText(s, d) {
      var dt, w1, a, w2 :| DayAbbrevPieces(s, d, dt, w1, a, w2);
      DayAbbrevReads(dt, w1, a, w2, d);
    }
  }
  // ---- "%B %d, %Y" ----

  /** A day text without its leading whitespace still reads as the day. */
  lemma DayTextTrimmed(dt: string, n: int)
    requires DayText(dt, n)
    ensures 0 < |TrimStart(dt)| < |dt| + 1 && DayField(TrimStart(dt)) == Some(n)
  {
    if 1 <= n <= 9 && dt == [' ', DigitChar(n)] {
      var x := [DigitChar(n)];
      assert dt == " " + x;
      TrimOneLeadingSpace(x);
      assert DayText(x, n);
      DayFieldExact(x, n);
    } else {
      assert TrimStart(dt) == dt by {
        assert !IsSpace(dt[0]);
      }
      DayFieldExact(dt, n);
    }
  }

  /** `ParseMonthNameDayYear` once the comma before the year is known. */
  lemma MonthNameAt(s: string, nameAndDay: string)
    requires |s| >= 4 && TrimEnd(s[..|s| - 4]) == nameAndDay + "," && |nameAndDay| + 1 < |s| - 4
    ensures ParseMonthNameDayYear(s) == ParseNameAndDay(nameAndDay, s[|s| - 4..])
  {
    var commaEnd := nameAndDay + ",";
    assert commaEnd[..|commaEnd| - 1] == nameAndDay;
  }

  /** Text, whitespace and four year characters: the year is the last four
      characters and the whitespace is what trimming removes before them. */
  lemma YearCut(x: string, w: string, y: string)
    requires |x| > 0 && !IsSpace(x[|x| - 1]) && SpaceRun(w) && |y| == 4
    ensures var s := x + w + y; TrimEnd(s[..|s| - 4]) == x && s[|s| - 4..] == y
  {
    var s := x + w + y;
    assert s[..|s| - 4] == x + w && s[|s| - 4..] == y;
    TrimEndRun(x, w);
  }

  /** A word followed by whitespace: the leading letters are the word. */
  lemma NameCut(nm: string, w: string, x: string)
    requires forall i :: 0 <= i < |nm| ==> IsAsciiLetter(nm[i])
    requires SpaceRun(w)
    ensures var t := nm + w + x;
      LeadingLetters(t) == |nm| && t[..|nm|] == nm && t[|nm|..] == w + x
  {
    var t := nm + w + x;
    assert t == nm + (w + x);
    LeadingLettersOf(nm, w + x);
  }

  /** The name and day texts of a date read as its month and day. */
  lemma MonthNameFieldsOf(nm: string, dt: string, y: string, d: Date)
    requires ValidDate(d) && Lower(nm) == MonthNames[d.month - 1] && DayText(dt, d.day) && YearField(y) == Some(d.year)
    ensures forall i :: 0 <= i < |nm| ==> IsAsciiLetter(nm[i])
    ensures 0 < |TrimStart(dt)| <= |dt|
    ensures Combine(YearField(y), MonthNamed(MonthNames, nm), DayField(TrimStart(dt))) == Some(d)
  {
    FullNameNamesMonth(d.month);
    LowerWordLetters(nm, MonthNames[d.month - 1]);
    DayTextTrimmed(dt, d.day);
  }

  lemma NameAndDayReads(nm: string, w1: string, dt: string, y: string, d: Date)
    requires ValidDate(d) && Lower(nm) == MonthNames[d.month - 1] && SpaceRun(w1) && DayText(dt, d.day)
    requires YearField(y) == Some(d.year)
    ensures ParseNameAndDay(nm + w1 + dt, y) == Some(d)
  {
    MonthNameFieldsOf(nm, dt, y, d);
    NameCut(nm, w1, dt);
    TrimStartRun(w1, dt);
  }

  lemma MonthNameReads(nm: string, w1: string, dt: string, w2: string, d: Date)
    requires ValidDate(d) && Lower(nm) == MonthNames[d.month - 1] && SpaceRun(w1) && DayText(dt, d.day) && SpaceRun(w2)
    ensures ParseMonthNameDayYear(nm + w1 + dt + "," + w2 + Pad4(d.year)) == Some(d)
  {
    var x := nm + w1 + dt;
    YearCut(x + ",", w2, Pad4(d.year));
    MonthNameAt(x + "," + w2 + Pad4(d.year), x);
    YearFieldExact(Pad4(d.year), d.year);
    NameAndDayReads(nm, w1, dt, Pad4(d.year), d);
  }

  /** A month name, whitespace, a day, a comma, whitespace and a year whose
      fields read as `d` are in the third format's language. */
  lemma MonthNameTextOf(x: string, nm: string, w1: string, dt: string, w2: string, y: string, d: Date)
    requires x == nm + w1 + dt
    requires ValidDate(d) && MonthNamed(MonthNames, nm) == Some(d.month) && SpaceRun(w1) && SpaceRun(w2)
    requires DayField(dt) == Some(d.day) && YearField(y) == Some(d.year)
    ensures MonthNameText(x + "," + w2 + y, d)
  {
    MonthNamedEntry(MonthNames, nm, d.month);
    DayFieldExact(dt, d.day);
    YearFieldExact(y, d.year);
    assert MonthNamePieces(x + "," + w2 + y, d, nm, w1, dt, w2);
  }

  /** A text is what trimming its end keeps, then the whitespace removed. */
  lemma TrimEndCut(x: string)
    ensures x == TrimEnd(x) + x[|TrimEnd(x)|..]
    ensures |TrimEnd(x)| < |x| ==> SpaceRun(x[|TrimEnd(x)|..])
  {
  }

  /** A text is the whitespace trimming its start removes, then what it keeps. */
  lemma TrimStartCut(x: string)
    ensures x == x[..|x| - |TrimStart(x)|] + TrimStart(x)
    ensures |TrimStart(x)| < |x| ==> SpaceRun(x[..|x| - |TrimStart(x)|])
  {
  }

  /** The text the third format accepts is the name and the day, a comma,
      whitespace and the year, cut where the format cuts it. */
  lemma MonthNameCuts(s: string)
    requires |s| >= 4
    requires var front := s[..|s| - 4];
      var commaEnd := TrimEnd(front);
      |commaEnd| < |front| && |commaEnd| > 0 && commaEnd[|commaEnd| - 1] == ','
    ensures var front := s[..|s| - 4];
      var commaEnd := TrimEnd(front);
      SpaceRun(front[|commaEnd|..]) && s == commaEnd[..|commaEnd| - 1] + "," + front[|commaEnd|..] + s[|s| - 4..]
  {
    var front := s[..|s| - 4];
    var commaEnd := TrimEnd(front);
    TrimEndCut(front);
    Halves(s, |s| - 4);
    Halves(commaEnd, |commaEnd| - 1);
    assert commaEnd[|commaEnd| - 1..] == ",";
  }

  /** A text cut at `n`, where whitespace follows: the part before, the
      whitespace, and what trimming it leaves. */
  lemma CutBeforeSpace(x: string, n: nat)
    requires n <= |x| && |TrimStart(x[n..])| < |x[n..]|
    ensures var rest := x[n..];
      var day := TrimStart(rest);
      SpaceRun(rest[..|rest| - |day|]) && x == x[..n] + rest[..|rest| - |day|] + day
  {
    var rest := x[n..];
    var day := TrimStart(rest);
    TrimStartCut(rest);
    Halves(x, n);
    Associative(x[..n], rest[..|rest| - |day|], day);
  }

  lemma Halves(x: string, k: nat)
    requires k <= |x|
    ensures x == x[..k] + x[k..]
  {
  }

  lemma Associative(a: string, b: string, c: string)
    ensures a + (b + c) == a + b + c
  {
  }

  /** Name and day text cut at `n` where whitespace follows, whose pieces
      read as `d`, make a text of the third format's language. */
  lemma NameAndDayTextOf(x: string, n: nat, w2: string, y: string, d: Date)
    requires n <= |x| && |TrimStart(x[n..])| < |x[n..]| && SpaceRun(w2)
    requires Combine(YearField(y), MonthNamed(MonthNames, x[..n]), DayField(TrimStart(x[n..]))) == Some(d)
    ensures ValidDate(d) && MonthNameText(x + "," + w2 + y, d)
  {
    CutBeforeSpace(x, n);
    var rest := x[n..];
    var day := TrimStart(rest);
    MonthNameTextOf(x, x[..n], rest[..|rest| - |day|], day, w2, y, d);
  }

  lemma NameAndDaySound(x: string, w2: string, y: string, d: Date)
    requires ParseNameAndDay(x, y) == Some(d) && SpaceRun(w2)
    ensures ValidDate(d) && MonthNameText(x + "," + w2 + y, d)
  {
    NameAndDayTextOf(x, LeadingLetters(x), w2, y, d);
  }

  lemma MonthNameSound(s: string, d: Date)
    requires ParseMonthNameDayYear(s) == Some(d)
    ensures ValidDate(d) && MonthNameText(s, d)
  {
    MonthNameCuts(s);
    var front := s[..|s| - 4];
    var commaEnd := TrimEnd(front);
    NameAndDaySound(commaEnd[..|commaEnd| - 1], front[|commaEnd|..], s[|s| - 4..], d);
  }

  /** `strptime(s, "%B %d, %Y")` is `d` exactly when `s` is in the format's
      language for `d`. */
  lemma MonthNameExact(s: string, d: Date)
    ensures ParseMonthNameDayYear(s) == Some(d) <==> ValidDate(d) && MonthNameText(s, d)
  {
    if ParseMonthNameDayYear(s) == Some(d) {
      MonthNameSound(s, d);
    }
    if ValidDate(d) && MonthNameText(s, d) {
      var nm, w1, dt, w2 :| MonthNamePieces(s, d, nm, w1, dt, w2);
      MonthNameReads(nm, w1, dt, w2, d);
    }
  }

  // ---- all five formats ----

  /** Each format reads a text as `d` exactly when the text is in that
      format's language for `d`. */
  lemma ParseWithExact(f: DateFormat, s: string, d: Date)
    ensures ParseWith(f, s) == Some(d) <==> ValidDate(d) && ReadsAs(f, s, d)
  {
    match f
    case IsoDate => IsoExact(s, d);
    case DayAbbrevYear => DayAbbrevExact(s, d);
    case MonthNameDayYear => MonthNameExact(s, d);
    case DayMonthYear => SlashedExact(s, true, d);
    case MonthDayYear => SlashedExact(s, false, d);
  }

  /** "%Y-%m-%d" reads no text longer than ten characters. */
  lemma IsoTextIsShort(s: string)
    ensures |s| > 10 ==> ParseIso(s).None?
  {
    if ParseIso(s).Some? {
      var d := ParseIso(s).value;
      IsoSound(s, d);
      var mt, dt :| IsoPieces(s, d, mt, dt);
      FieldTextChars(mt, d.month);
      FieldTextChars(dt, d.day);
    }
  }

  /** Text after an ISO date is not ignored: the date no longer reads. */
  lemma IsoRejectsTrailingText(d: Date, t: string)
    requires ValidDate(d) && |t| > 0
    ensures ParseIso(FormatIso(d) + t).None?
  {
    IsoTextIsShort(FormatIso(d) + t);
  }

  /** Single-digit fields: "5" is day and month 5, and " 5" is day 5. */
  lemma SingleDigitFields(n: int)
    requires 1 <= n <= 9
    ensures DayField([DigitChar(n)]) == Some(n) && DayField([' ', DigitChar(n)]) == Some(n)
    ensures MonthField([DigitChar(n)]) == Some(n)
  {
    DayFieldExact([DigitChar(n)], n);
    DayFieldExact([' ', DigitChar(n)], n);
    MonthFieldExact([DigitChar(n)], n);
  }

  /** "5/3/1990" is the 5th of March 1990: single digits, day first. */
  lemma SlashedSingleDigits(s: string)
    requires s == "5/3/1990"
    ensures ParseDate(s) == Some(Date(1990, 3, 5))
  {
    var d := Date(1990, 3, 5);
    assert Pad4(1990) == "1990";
    assert DayText("5", 5) && MonthText("3", 3);
    SlashedReads("5", "3", true, d);
    assert s == "5" + "/" + "3" + "/" + Pad4(1990);
    assert ParseIso(s).None? by {
      assert s[4] == '1';
    }
    WordFormatsNeedSpaceBeforeYear(s);
    ParseDateAt(s, 3);
  }

  /** The example text split at the points where "%d %b %Y" cuts it. */
  lemma TabExampleText()
    ensures "15\tMar 1990" == "15" + "\t" + "Mar" + " " + Pad4(1990)
  {
    assert Pad4(1990) == "1990";
  }

  /** "15\tMar 1990" is the 15th of March 1990: a tab is whitespace too. */
  lemma TabBeforeMonth(s: string)
    requires s == "15\tMar 1990"
    ensures ParseDate(s) == Some(Date(1990, 3, 15))
  {
    var d := Date(1990, 3, 15);
    assert ParseDayAbbrevYear(s) == Some(d) by {
      assert DayText("15", 15) by {
        assert Pad2(15) == "15";
      }
      assert Lower("Mar") == MonthAbbreviations[2];
      assert SpaceRun("\t") && SpaceRun(" ");
      DayAbbrevReads("15", "\t", "Mar", " ", d);
      TabExampleText();
    }
    assert ParseIso(s).None? by {
      assert s[4] == 'a';
    }
    ParseDateAt(s, 1);
  }
}
