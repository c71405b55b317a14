/** What the UADER strategy guarantees, stated over the model in `Uader`. */
module UaderProperties {
  import opened Wrappers
  import opened JsText
  import opened Calendar
  import opened Scraper
  import opened Uader

  // ---------------------------------------------------------------- relevance filter

  lemma {:induction false} AnyKeywordInIff(title: string, keywords: seq<string>)
    ensures AnyKeywordIn(title, keywords) <==> exists k :: k in keywords && Includes(title, k)
  {
    if keywords != [] {
      AnyKeywordInIff(title, keywords[1..]);
      if AnyKeywordIn(title, keywords) {
        if !Includes(title, keywords[0]) {
          var k :| k in keywords[1..] && Includes(title, k);
          assert k in keywords;
        }
      }
      if k :| k in keywords && Includes(title, k) {
        if k != keywords[0] {
          assert k in keywords[1..];
        }
      }
    }
  }

  /** The filter accepts a title exactly when its lower-cased form contains one of the keywords. */
  lemma IsInternshipIff(title: string)
    ensures IsInternship(title) <==> exists k, i :: k in Keywords && OccursAt(Lower(title), k, i)
  {
    AnyKeywordInIff(Lower(title), Keywords);
    forall k | k in Keywords {
      IncludesIff(Lower(title), k);
    }
  }

  /** The filter ignores letter case. */
  lemma IsInternshipIgnoresCase(title: string)
    ensures IsInternship(title) == IsInternship(Lower(title))
  {
    LowerIdempotent(title);
  }

  /** A title announcing a paid internship passes, whatever its case. */
  lemma PaidInternshipPasses()
    ensures IsInternship("Convocatoria PASANTÍA 2025")
  {
    var t := Lower("Convocatoria PASANTÍA 2025");
    assert t[13..21] == "pasantía";
    IncludesIff(t, "pasantía");
    assert OccursAt(t, "pasantía", 13);
  }

  /** A call for grants does not pass. */
  lemma GrantCallFails()
    ensures !IsInternship("Becas de ayuda económica")
  {
    GrantTitleSmallLetters();
    GrantTitleCapitals();
    NoKeywordLetters("Becas de ayuda económica");
  }

  lemma GrantTitleSmallLetters()
    ensures 'p' !in "Becas de ayuda económica" && 'r' !in "Becas de ayuda económica" && 'f' !in "Becas de ayuda económica"
  {
  }

  lemma GrantTitleCapitals()
    ensures 'P' !in "Becas de ayuda económica" && 'R' !in "Becas de ayuda económica" && 'F' !in "Becas de ayuda económica"
  {
  }

  /** Every keyword holds a p, an r or an f: a title with none of them, in either case, fails. */
  lemma NoKeywordLetters(title: string)
    requires 'p' !in title && 'P' !in title && 'r' !in title && 'R' !in title && 'f' !in title && 'F' !in title
    ensures !IsInternship(title)
  {
    LowerAbsent(title, 'p');
    LowerAbsent(title, 'r');
    LowerAbsent(title, 'f');
    NoKeywordIn(Lower(title));
  }

  /** A small letter absent from s in both cases is absent from its lower-cased form. */
  lemma LowerAbsent(s: string, c: char)
    requires 'a' <= c <= 'z'
    requires c !in s && (c as int - 32) as char !in s
    ensures c !in Lower(s)
  {
    forall i | 0 <= i < |s|
      ensures Lower(s)[i] != c
    {
      assert s[i] != c && s[i] != (c as int - 32) as char;
    }
  }

  /** A lower-cased title with no 'p', 'r' or 'f' holds none of the keywords. */
  lemma NoKeywordIn(title: string)
    requires 'p' !in title && 'r' !in title && 'f' !in title
    ensures !AnyKeywordIn(title, Keywords)
  {
    AnyKeywordInIff(title, Keywords);
    forall k | k in Keywords
      ensures !Includes(title, k)
    {
      IncludesIff(title, k);
      if Includes(title, k) {
        var i :| OccursAt(title, k, i);
        FirstCharOccurs(title, k, i);
      }
    }
  }

  lemma FirstCharOccurs(s: string, k: string, i: int)
    requires k != [] && OccursAt(s, k, i)
    ensures k[0] in s
  {
    assert s[i] == s[i..i + |k|][0];
  }

  // ---------------------------------------------------------------- visual date text

  /** The month table is only ever hit on its three-letter keys, which name the months in order. */
  lemma MonthOfAbbreviation(token: string, m: int)
    ensures MonthOf(token) == Some(m) <==> 0 <= m < 12 && MonthKey(token) == MonthAbbreviations[m]
  {
  }

  /**
   * A day that exists in its month, in a year of at least 100 (so that it is
   * not read as 19xx), comes out as that local day when it is not after
   * today and as the same day a year earlier when it is.
   */
  lemma RolloverIffAfterToday(text: string, today: CivilDate, c: CivilDate)
    requires |Tokens(text)| >= 2
    requires ParseInt(Tokens(text)[0], false) == Some(c.day)
    requires MonthOf(Tokens(text)[1]) == Some(c.month)
    requires YearOf(Tokens(text), today) == c.year
    requires c.year >= 100 && IsValid(c) && !(c.month == 1 && c.day == 29)
    requires InTimeRange(c) && InTimeRange(c.(year := c.year - 1))
    ensures Before(today, c) ==> ParseSpanishDate(text, today) == Some(LocalMidnight(c.(year := c.year - 1)))
    ensures !Before(today, c) ==> ParseSpanishDate(text, today) == Some(LocalMidnight(c))
  {
    TwoTokensNotEmpty(text);
    RollBackOfValid(c, today);
    SpanishDateOfCandidate(text, today, c.year, c.month, c.day, LocalDate(c.year, c.month, c.day));
  }

  /** The rollover on a real day: kept when not after today, otherwise the same day a year earlier. */
  lemma RollBackOfValid(c: CivilDate, today: CivilDate)
    requires c.year >= 100 && IsValid(c) && !(c.month == 1 && c.day == 29)
    requires InTimeRange(c) && InTimeRange(c.(year := c.year - 1))
    ensures Before(today, c) ==> RollBack(LocalDate(c.year, c.month, c.day), c.year, today) == LocalMidnight(c.(year := c.year - 1))
    ensures !Before(today, c) ==> RollBack(LocalDate(c.year, c.month, c.day), c.year, today) == LocalMidnight(c)
  {
    LocalDateOfValid(c);
    if Before(today, c) {
      SetFullYearBackOne(c);
    }
  }

  lemma TwoTokensNotEmpty(text: string)
    requires |Tokens(text)| >= 2
    ensures text != []
  {
    assert Tokens("") == [""];
  }

  /** How ParseSpanishDate ends once day and month are read. */
  lemma SpanishDateOfCandidate(text: string, today: CivilDate, year: int, month: int, day: int, candidate: JsDate)
    requires text != [] && |Tokens(text)| >= 2
    requires ParseInt(Tokens(text)[0], false) == Some(day) && MonthOf(Tokens(text)[1]) == Some(month)
    requires YearOf(Tokens(text), today) == year && candidate == LocalDate(year, month, day)
    ensures ParseSpanishDate(text, today) == Some(RollBack(candidate, year, today))
  {
  }

  /** Without a year in the text, the parsed day is never after today. */
  lemma WithoutYearNeverAfterToday(text: string, today: CivilDate, c: CivilDate)
    requires |Tokens(text)| <= 2 || ParseInt(Tokens(text)[2], true).None?
    requires ParseSpanishDate(text, today) == Some(LocalMidnight(c))
    ensures !Before(today, c)
  {
    SpanishDateRead(text, today, c);
    var parts := Tokens(text);
    var month, day := MonthOf(parts[1]).value, ParseInt(parts[0], false).value;
    SpanishDateOfCandidate(text, today, today.year, month, day, LocalDate(today.year, month, day));
    RollBackNotAfter(month, day, today);
  }

  /**
   * A text that parses to a local midnight had a day and a month token; with
   * no third token, or one `parseInt` cannot read, the current year was used.
   */
  lemma SpanishDateRead(text: string, today: CivilDate, c: CivilDate)
    requires ParseSpanishDate(text, today) == Some(LocalMidnight(c))
    ensures text != [] && |Tokens(text)| >= 2
    ensures ParseInt(Tokens(text)[0], false).Some? && MonthOf(Tokens(text)[1]).Some?
    ensures |Tokens(text)| <= 2 || ParseInt(Tokens(text)[2], true).None? ==> YearOf(Tokens(text), today) == today.year
  {
  }

  /** A candidate built in the current year never ends up after today. */
  lemma RollBackNotAfter(m: int, d: int, today: CivilDate)
    ensures var r := RollBack(LocalDate(today.year, m, d), today.year, today);
      r.LocalMidnight? ==> !Before(today, r.localDay)
  {
    var candidate := LocalDate(today.year, m, d);
    if candidate.LocalMidnight? && Before(today, candidate.localDay) {
      var k := candidate.localDay;
      MakeDayKeepsYear(today.year - 1, k.month, k.day);
    }
  }

  /** "15 Dic" read on 1 February 2025 is 15 December 2024. */
  lemma ParseSpanishDateExample()
    ensures ParseSpanishDate("15 Dic", CivilDate(2025, 1, 1)) == Some(LocalMidnight(CivilDate(2024, 11, 15)))
  {
    FifteenDicTokens();
    FifteenValue();
    DicMonth();
    RolloverIffAfterToday("15 Dic", CivilDate(2025, 1, 1), CivilDate(2025, 11, 15));
  }

  lemma FifteenDicTokens()
    ensures Tokens("15 Dic") == ["15", "Dic"]
  {
    FifteenDicUntrimmed();
    FifteenDicFields();
  }

  lemma FifteenDicUntrimmed()
    ensures Trim("15 Dic") == "15 Dic"
  {
    var text := "15 Dic";
    assert !IsWhite(text[0]) && !IsWhite(text[|text| - 1]);
    TrimUntrimmed(text);
  }

  lemma FifteenDicFields()
    ensures SplitFields("15 Dic") == ["15", "Dic"]
  {
    assert NoSeparators("15") && NoSeparators("Dic") && IsSeparatorRun(" ");
    assert "15 Dic" == "15" + " " + "Dic";
    SplitFieldsWord("Dic");
    SplitFieldsAtRun("15", " ", "Dic");
  }

  lemma FifteenValue()
    ensures ParseInt("15", false) == Some(15)
  {
    assert AllDigitsIn("15", 10);
    ParseIntOfDigits("15", false);
    assert "15"[..1] == "1" && "1"[..0] == "";
  }

  lemma DicMonth()
    ensures MonthOf("Dic") == Some(11)
  {
    var key := MonthKey("Dic");
    assert Min(3, 3) == 3;
    assert Lower("Dic")[0] == 'd' && Lower("Dic")[1] == 'i' && Lower("Dic")[2] == 'c';
    assert key == "dic";
    assert MonthNames["dic"] == 11;
  }

  // ---------------------------------------------------------------- <time datetime>

  /** "Y-M-D" in decimal digits is 00:00 UTC of day (Y, M, D), month M standing for month number M - 1. */
  lemma DatetimeAttributeIsUtcMidnight(ys: string, ms: string, ds: string)
    requires ys != [] && AllDigitsIn(ys, 10)
    requires ms != [] && AllDigitsIn(ms, 10)
    requires ds != [] && AllDigitsIn(ds, 10)
    requires ValueIn(ys, 10) >= 100
    requires IsValid(CivilDate(ValueIn(ys, 10), ValueIn(ms, 10) - 1, ValueIn(ds, 10)))
    requires InTimeRange(CivilDate(ValueIn(ys, 10), ValueIn(ms, 10) - 1, ValueIn(ds, 10)))
    ensures DatetimeAttributeDate(ys + "-" + ms + "-" + ds)
      == UtcMidnight(CivilDate(ValueIn(ys, 10), ValueIn(ms, 10) - 1, ValueIn(ds, 10)))
  {
    var y, m, d := ValueIn(ys, 10), ValueIn(ms, 10), ValueIn(ds, 10);
    DatetimeOfDigits(ys, ms, ds, y, m, d);
    DateUtcOfValid(CivilDate(y, m - 1, d));
  }

  /** A `datetime` attribute gives `Date.UTC` arguments exactly when it has three '-' fields and each of the first three reads as a number. */
  lemma DatetimeArgumentsDefined(attr: string)
    ensures DatetimeArguments(attr).Some? <==>
      && |SplitOn(attr, '-')| >= 3
      && NumberValue(SplitOn(attr, '-')[0]).Some?
      && NumberValue(SplitOn(attr, '-')[1]).Some?
      && NumberValue(SplitOn(attr, '-')[2]).Some?
  {
  }

  /** "Y-M-D" in decimal digits is `Date.UTC(Y, M - 1, D)`. */
  lemma DatetimeOfDigits(ys: string, ms: string, ds: string, y: int, m: int, d: int)
    requires ys != [] && AllDigitsIn(ys, 10) && y == ValueIn(ys, 10)
    requires ms != [] && AllDigitsIn(ms, 10) && m == ValueIn(ms, 10)
    requires ds != [] && AllDigitsIn(ds, 10) && d == ValueIn(ds, 10)
    ensures DatetimeAttributeDate(ys + "-" + ms + "-" + ds) == DateUtc(y, m - 1, d)
  {
    var attr := ys + "-" + ms + "-" + ds;
    DigitsHaveNoDash(ds);
    DashFields(ys, ms, ds);
    NumberValueOfDigits(ys);
    NumberValueOfDigits(ms);
    NumberValueOfDigits(ds);
    TruncOfWhole(y, m, d);
    DatetimeOfWholeParts(attr, ys, ms, ds, y, m, d, d as real);
  }

  /**
   * A fraction on the day, "Y-M-D.F", is cut off as `Date.UTC` does: the
   * attribute dates the same day as "Y-M-D".
   */
  lemma DatetimeFractionIgnored(ys: string, ms: string, ds: string, fs: string)
    requires ys != [] && AllDigitsIn(ys, 10)
    requires ms != [] && AllDigitsIn(ms, 10)
    requires ds != [] && AllDigitsIn(ds, 10)
    requires AllDigitsIn(fs, 10)
    ensures DatetimeAttributeDate(ys + "-" + ms + "-" + ds + "." + fs) == DatetimeAttributeDate(ys + "-" + ms + "-" + ds)
  {
    var y, m, d := ValueIn(ys, 10), ValueIn(ms, 10), ValueIn(ds, 10);
    DatetimeOfFraction(ys, ms, ds, fs, y, m, d);
    DatetimeOfDigits(ys, ms, ds, y, m, d);
  }

  /** "Y-M-D.F" in decimal digits is `Date.UTC(Y, M - 1, D)`: the fraction is cut off. */
  lemma DatetimeOfFraction(ys: string, ms: string, ds: string, fs: string, y: int, m: int, d: int)
    requires ys != [] && AllDigitsIn(ys, 10) && y == ValueIn(ys, 10)
    requires ms != [] && AllDigitsIn(ms, 10) && m == ValueIn(ms, 10)
    requires ds != [] && AllDigitsIn(ds, 10) && d == ValueIn(ds, 10)
    requires AllDigitsIn(fs, 10)
    ensures DatetimeAttributeDate(ys + "-" + ms + "-" + ds + "." + fs) == DateUtc(y, m - 1, d)
  {
    FractionFields(ys, ms, ds, fs);
    NumberValueOfDigits(ys);
    NumberValueOfDigits(ms);
    NumberValueOfDecimal(ds, fs);
    DatetimeOfWholeParts(ys + "-" + ms + "-" + ds + "." + fs, ys, ms, ds + "." + fs, y, m, d, DecimalValue(ds, fs));
  }

  /** "Y-M-D.F" splits on '-' into Y, M and "D.F". */
  lemma FractionFields(ys: string, ms: string, ds: string, fs: string)
    requires AllDigitsIn(ys, 10) && AllDigitsIn(ms, 10) && AllDigitsIn(ds, 10) && AllDigitsIn(fs, 10)
    ensures SplitOn(ys + "-" + ms + "-" + ds + "." + fs, '-') == [ys, ms, ds + "." + fs]
  {
    DigitsHaveNoDash(ds);
    DigitsHaveNoDash(fs);
    assert '-' !in ds + "." + fs;
    DashFields(ys, ms, ds + "." + fs);
    assert ys + "-" + ms + "-" + ds + "." + fs == ys + "-" + ms + "-" + (ds + "." + fs);
  }

  /** An attribute whose year and month are whole numbers and whose day truncates to d is `Date.UTC(y, m - 1, d)`. */
  lemma DatetimeOfWholeParts(attr: string, ys: string, ms: string, ds: string, y: int, m: int, d: int, dv: real)
    requires SplitOn(attr, '-') == [ys, ms, ds]
    requires NumberValue(ys) == Some(y as real) && NumberValue(ms) == Some(m as real)
    requires NumberValue(ds) == Some(dv) && Trunc(dv) == d
    ensures DatetimeAttributeDate(attr) == DateUtc(y, m - 1, d)
  {
    DatetimeArgumentsOfWholeParts(attr, ys, ms, ds, y, m, d, dv);
  }

  lemma DatetimeArgumentsOfWholeParts(attr: string, ys: string, ms: string, ds: string, y: int, m: int, d: int, dv: real)
    requires SplitOn(attr, '-') == [ys, ms, ds]
    requires NumberValue(ys) == Some(y as real) && NumberValue(ms) == Some(m as real)
    requires NumberValue(ds) == Some(dv) && Trunc(dv) == d
    ensures DatetimeArguments(attr) == Some((y, m - 1, d))
  {
    DatetimeArgumentsOfParts(attr, ys, ms, ds);
    UtcArgumentsOfWhole(y, m, d, dv);
  }

  /** The arguments come from the three parts the attribute splits into. */
  lemma DatetimeArgumentsOfParts(attr: string, ys: string, ms: string, ds: string)
    requires SplitOn(attr, '-') == [ys, ms, ds]
    ensures DatetimeArguments(attr) == UtcArguments(NumberValue(ys), NumberValue(ms), NumberValue(ds))
  {
    var parts := SplitOn(attr, '-');
    assert |parts| == 3 && parts[0] == ys && parts[1] == ms && parts[2] == ds;
  }

  lemma UtcArgumentsOfWhole(y: int, m: int, d: int, dv: real)
    requires Trunc(dv) == d
    ensures UtcArguments(Some(y as real), Some(m as real), Some(dv)) == Some((y, m - 1, d))
  {
    TruncOfWhole(y, m, d);
  }

  /** `Date.UTC` leaves whole numbers as they are, the month after its subtraction too. */
  lemma TruncOfWhole(y: int, m: int, d: int)
    ensures Trunc(y as real) == y && Trunc(m as real - 1.0) == m - 1 && Trunc(d as real) == d
  {
  }

  /** Three dash-free strings joined by dashes split back into themselves. */
  lemma DashFields(ys: string, ms: string, ds: string)
    requires AllDigitsIn(ys, 10) && AllDigitsIn(ms, 10) && '-' !in ds
    ensures SplitOn(ys + "-" + ms + "-" + ds, '-') == [ys, ms, ds]
  {
    DigitsHaveNoDash(ys);
    DigitsHaveNoDash(ms);
    SplitOnFirst(ds, '-', []);
    SplitOnFirst(ms, '-', ds);
    SplitOnFirst(ys, '-', ms + "-" + ds);
    assert ys + "-" + ms + "-" + ds == ys + ['-'] + (ms + ['-'] + ds);
  }

  lemma DigitsHaveNoDash(s: string)
    requires AllDigitsIn(s, 10)
    ensures '-' !in s
  {
    assert !IsDigitIn('-', 10);
  }

  lemma DateUtcOfValid(c: CivilDate)
    requires c.year >= 100 && IsValid(c) && InTimeRange(c)
    ensures DateUtc(c.year, c.month, c.day) == UtcMidnight(c)
  {
    MakeDayOfValid(c);
  }

  // ---------------------------------------------------------------- the date cascade

  /**
   * A non-empty article:published_time decides the date alone: its parse
   * when valid, now when not, whatever the `<time>` element and the visible
   * text say or whether they could be read at all.
   */
  lemma MetaDateDecides(page: DetailPage, world: World, time: Probe<Option<string>>, text: Probe<string>)
    requires page.publishedTime.Read? && Truthy(page.publishedTime.value)
    ensures PublishedDate(page.(timeDatetime := time, postDateText := text), world)
      == Read(OrNow(Some(FromTimeValue(world.parseDateString(page.publishedTime.value.value))), world.now))
  {
  }

  /** Without that meta tag, a non-empty `datetime` attribute decides the date, whatever the visible text. */
  lemma DatetimeDecides(page: DetailPage, world: World, text: Probe<string>)
    requires page.publishedTime.Read? && !Truthy(page.publishedTime.value)
    requires page.timeDatetime.Read? && Truthy(page.timeDatetime.value)
    ensures PublishedDate(page.(postDateText := text), world)
      == Read(OrNow(Some(DatetimeAttributeDate(page.timeDatetime.value.value)), world.now))
  {
  }

  /** With neither, the visible text is parsed, and an unparseable text gives now. */
  lemma VisibleTextLast(page: DetailPage, world: World)
    requires page.publishedTime.Read? && !Truthy(page.publishedTime.value)
    requires page.timeDatetime.Read? && !Truthy(page.timeDatetime.value)
    requires page.postDateText.Read?
    ensures PublishedDate(page, world)
      == Read(OrNow(ParseSpanishDate(page.postDateText.value, world.now.today), world.now))
  {
  }

  /** Meta date D1 and a conflicting visible date D2: the item carries D1. */
  lemma MetaDateBeatsVisibleText(world: World, ms: int)
    requires world.parseDateString("2025-11-03T12:00:00-03:00") == Some(ms)
    requires world.now.today == CivilDate(2025, 1, 1)
    ensures PublishedDate(
      DetailPage(Read(None), Read(None), Read(None), Read(Some("2025-11-03T12:00:00-03:00")),
                 Read(None), Read("15 Dic")), world) == Read(Instant(ms))
  {
  }

  /** The "2025-12-17" attribute is 00:00 UTC of 17 December 2025. */
  lemma DatetimeAttributeExample()
    ensures DatetimeAttributeDate("2025-12-17") == UtcMidnight(CivilDate(2025, 11, 17))
  {
    assert "2025-12-17" == "2025" + "-" + "12" + "-" + "17";
    DigitsOfExample();
    DatetimeAttributeIsUtcMidnight("2025", "12", "17");
  }

  /** The "2025-12-17.5" attribute, with a fraction on the day, is 00:00 UTC of 17 December 2025 too. */
  lemma DatetimeFractionExample()
    ensures DatetimeAttributeDate("2025-12-17.5") == UtcMidnight(CivilDate(2025, 11, 17))
  {
    var whole, fraction := "2025-12-17", "2025-12-17.5";
    assert whole == "2025" + "-" + "12" + "-" + "17";
    assert fraction == "2025" + "-" + "12" + "-" + "17" + "." + "5";
    assert AllDigitsIn("5", 10);
    DigitsOfExample();
    DatetimeFractionIgnored("2025", "12", "17", "5");
    DatetimeAttributeExample();
  }

  lemma DigitsOfExample()
    ensures AllDigitsIn("2025", 10) && AllDigitsIn("12", 10) && AllDigitsIn("17", 10)
    ensures ValueIn("2025", 10) == 2025 && ValueIn("12", 10) == 12 && ValueIn("17", 10) == 17
  {
    assert "2025"[..3] == "202" && "202"[..2] == "20" && "20"[..1] == "2" && "2"[..0] == "";
    assert "12"[..1] == "1" && "1"[..0] == "";
    assert "17"[..1] == "1";
  }

  // ---------------------------------------------------------------- the detail

  /** The item's image is og:image when that is non-empty, else the thumbnail's src when non-empty, else none. */
  lemma DetailImage(visit: DetailVisit, url: string, fallbackTitle: string, world: World)
    requires PostDetail(visit, url, fallbackTitle, world).Found?
    ensures visit.Loaded? && visit.page.ogImage.Read?
    ensures Truthy(visit.page.ogImage.value) ==>
      PostDetail(visit, url, fallbackTitle, world).item.imageUrl == visit.page.ogImage.value
    ensures !Truthy(visit.page.ogImage.value) ==>
      && visit.page.thumbnailSrc.Read?
      && PostDetail(visit, url, fallbackTitle, world).item.imageUrl ==
         (if Truthy(visit.page.thumbnailSrc.value) then visit.page.thumbnailSrc.value else None)
  {
  }

  /** The item's date is the cascade's, so it is always set and valid. */
  lemma DetailDate(visit: DetailVisit, url: string, fallbackTitle: string, world: World)
    requires PostDetail(visit, url, fallbackTitle, world).Found?
    ensures visit.Loaded? && PublishedDate(visit.page, world).Read?
    ensures PostDetail(visit, url, fallbackTitle, world).item.publishedAt == Some(PublishedDate(visit.page, world).value)
  {
  }

  // ---------------------------------------------------------------- the listing

  /** What the loop would make of each article, were it to reach it. */
  function StepsOf(articles: seq<Article>, world: World): (steps: seq<Step>)
    ensures |steps| == |articles|
    ensures forall i :: 0 <= i < |articles| ==> steps[i] == StepOf(articles[i], world)
  {
    seq(|articles|, i requires 0 <= i < |articles| => StepOf(articles[i], world))
  }

  /** The items a run of steps keeps: each emitted one, up to the first abort. */
  function Kept(steps: seq<Step>): seq<ScrapedInternship> {
    if steps == [] then []
    else match steps[0]
      case Abort => []
      case Skip => Kept(steps[1..])
      case Emit(item) => [item] + Kept(steps[1..])
  }

  /** The loop collects what its steps keep. */
  lemma {:induction false} CollectKept(articles: seq<Article>, world: World)
    ensures Collect(articles, world) == Kept(StepsOf(articles, world))
  {
    if articles != [] {
      var steps := StepsOf(articles, world);
      assert steps[1..] == StepsOf(articles[1..], world);
      CollectCons(articles, world);
      CollectKept(articles[1..], world);
    }
  }

  function Shift(s: seq<nat>): (r: seq<nat>)
    ensures |r| == |s| && forall j :: 0 <= j < |s| ==> r[j] == s[j] + 1
  {
    seq(|s|, j requires 0 <= j < |s| => s[j] + 1)
  }

  /** The position in a run of steps that each kept item comes from. */
  function Positions(steps: seq<Step>): (idx: seq<nat>)
    ensures |idx| == |Kept(steps)|
  {
    if steps == [] then []
    else match steps[0]
      case Abort => []
      case Skip => Shift(Positions(steps[1..]))
      case Emit(_) => [0] + Shift(Positions(steps[1..]))
  }

  /** The step at the j-th position emits exactly the j-th kept item. */
  lemma {:induction false} PositionsAt(steps: seq<Step>, j: nat)
    requires j < |Positions(steps)|
    ensures Positions(steps)[j] < |steps| && steps[Positions(steps)[j]] == Emit(Kept(steps)[j])
  {
    var rest := Positions(steps[1..]);
    if !(steps[0].Emit? && j == 0) {
      var k: nat := if steps[0].Emit? then j - 1 else j;
      PositionsAt(steps[1..], k);
      assert Positions(steps)[j] == rest[k] + 1;
      assert Kept(steps)[j] == Kept(steps[1..])[k];
    }
  }

  /** The positions increase. */
  lemma {:induction false} PositionsIncrease(steps: seq<Step>, j: nat, k: nat)
    requires j < k < |Positions(steps)|
    ensures Positions(steps)[j] < Positions(steps)[k]
  {
    var idx, rest := Positions(steps), Positions(steps[1..]);
    if steps[0].Emit? {
      assert idx == [0] + Shift(rest);
      assert idx[k] == rest[k - 1] + 1;
      if j > 0 {
        PositionsIncrease(steps[1..], j - 1, k - 1);
        assert idx[j] == rest[j - 1] + 1;
      }
    } else {
      assert steps[0].Skip? && idx == Shift(rest);
      PositionsIncrease(steps[1..], j, k);
    }
  }

  /** Without an abort, every emitting step is kept. */
  lemma {:induction false} PositionsComplete(steps: seq<Step>, k: nat)
    requires forall i :: 0 <= i < |steps| ==> !steps[i].Abort?
    requires k < |steps| && steps[k].Emit?
    ensures k in Positions(steps)
  {
    var idx := Positions(steps);
    if k > 0 {
      var rest := Positions(steps[1..]);
      PositionsComplete(steps[1..], k - 1);
      var j :| 0 <= j < |rest| && rest[j] == k - 1;
      if steps[0].Emit? {
        assert idx[j + 1] == k;
      } else {
        assert idx[j] == k;
      }
    }
  }

  /** The listing position each collected item comes from. */
  function Origins(articles: seq<Article>, world: World): (idx: seq<nat>) {
    Positions(StepsOf(articles, world))
  }

  /** The positions are increasing, and the article at each emits exactly the item collected for it. */
  lemma OriginsEmit(articles: seq<Article>, world: World)
    ensures var idx := Origins(articles, world);
      && |idx| == |Collect(articles, world)|
      && (forall j :: 0 <= j < |idx| ==>
            idx[j] < |articles| && StepOf(articles[idx[j]], world) == Emit(Collect(articles, world)[j]))
      && (forall j, k :: 0 <= j < k < |idx| ==> idx[j] < idx[k])
  {
    var steps := StepsOf(articles, world);
    var idx := Origins(articles, world);
    CollectKept(articles, world);
    forall j | 0 <= j < |idx|
      ensures idx[j] < |articles| && steps[idx[j]] == Emit(Kept(steps)[j])
    {
      PositionsAt(steps, j);
    }
    forall j, k | 0 <= j < k < |idx|
      ensures idx[j] < idx[k]
    {
      PositionsIncrease(steps, j, k);
    }
  }

  /**
   * Every item `scrape()` returns is the detail outcome of one of the first
   * five articles, one whose title passed the filter and whose link was
   * followed: the title, image and date rules of `PostDetail` hold of it.
   */
  lemma ScrapedFromDetail(listing: Probe<seq<Article>>, world: World, x: ScrapedInternship)
    requires x in Scraped(listing, world)
    ensures listing.Read?
    ensures exists i ::
      && 0 <= i < Min(|listing.value|, MaxArticles) && Passes(listing.value[i])
      && PostDetail(listing.value[i].detail, listing.value[i].href.value.value, listing.value[i].title.value, world) == Found(x)
  {
    var articles := listing.value[..Min(|listing.value|, MaxArticles)];
    OriginsEmit(articles, world);
    var idx := Origins(articles, world);
    var j :| 0 <= j < |idx| && Collect(articles, world)[j] == x;
    var i := idx[j];
    assert articles[i] == listing.value[i];
    assert StepOf(articles[i], world) == Emit(x);
  }

  /** When no article aborts the loop, every article that emits an item has that item collected. */
  lemma CollectComplete(articles: seq<Article>, world: World, k: nat)
    requires forall i :: 0 <= i < |articles| ==> !StepOf(articles[i], world).Abort?
    requires k < |articles| && StepOf(articles[k], world).Emit?
    ensures k in Origins(articles, world)
  {
    PositionsComplete(StepsOf(articles, world), k);
  }

  /** What an item the strategy returns always carries: the UADER tag, a non-empty url and a valid date. */
  predicate WellFormedItem(x: ScrapedInternship) {
    x.origin == "UADER" && x.url != [] && x.publishedAt.Some? && IsValidDate(x.publishedAt.value)
  }

  /** An article that emits, emits a well-formed item. */
  lemma EmittedWellFormed(article: Article, world: World)
    requires StepOf(article, world).Emit?
    ensures WellFormedItem(StepOf(article, world).item)
  {
    var url := article.href.value.value;
    var detail := PostDetail(article.detail, url, article.title.value, world);
    assert StepOf(article, world) == Emit(detail.item);
  }

  lemma {:induction false} CollectedWellFormed(articles: seq<Article>, world: World)
    ensures forall x :: x in Collect(articles, world) ==> WellFormedItem(x)
  {
    if articles != [] {
      CollectedWellFormed(articles[1..], world);
      if StepOf(articles[0], world).Emit? {
        EmittedWellFormed(articles[0], world);
      }
    }
  }

  /** Every item `scrape()` returns is tagged UADER, has a non-empty url and a valid publication date. */
  lemma ScrapedWellFormed(listing: Probe<seq<Article>>, world: World)
    ensures forall x :: x in Scraped(listing, world) ==> WellFormedItem(x)
  {
    if listing.Read? {
      CollectedWellFormed(listing.value[..Min(|listing.value|, MaxArticles)], world);
    }
  }

  /** An empty listing, or one that cannot be read, yields nothing. */
  lemma EmptyListing(world: World)
    ensures Scraped(Read([]), world) == [] && Scraped(Throws, world) == []
  {
  }
}
