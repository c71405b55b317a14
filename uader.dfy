/**
 * The UADER extraction strategy: keyword filter, Spanish date parser, detail
 * enrichment with its date cascade, and the listing loop. The browser is
 * replaced by the strings it would have read; a read that throws is a
 * `Throws` probe.
 */
module Uader {
  import opened Wrappers
  import opened JsText
  import opened Calendar
  import opened Scraper

  // ---------------------------------------------------------------- relevance filter

  /** The fixed keyword list of the filter. */
  const Keywords: seq<string> := ["pasantia", "pasantía", "rentada", "fcyt"]

  /** `keywords.some((k) => title.includes(k))`. */
  predicate AnyKeywordIn(title: string, keywords: seq<string>)
    ensures AnyKeywordIn(title, keywords) ==> exists i :: 0 <= i < |keywords| && Includes(title, keywords[i])
  {
    keywords != [] && (Includes(title, keywords[0]) || AnyKeywordIn(title, keywords[1..]))
  }

  /** Whether a listing title announces an internship: its lower-cased form contains a keyword. */
  predicate IsInternship(title: string)
    ensures IsInternship(title) ==> |title| >= 4
  {
    KeywordsAreLong(Lower(title), Keywords, 4);
    AnyKeywordIn(Lower(title), Keywords)
  }

  /** A title holding one of the keywords is at least as long as the shortest of them. */
  lemma {:induction false} KeywordsAreLong(title: string, keywords: seq<string>, n: nat)
    requires forall i :: 0 <= i < |keywords| ==> n <= |keywords[i]|
    ensures AnyKeywordIn(title, keywords) ==> n <= |title|
  {
    if keywords != [] {
      KeywordsAreLong(title, keywords[1..], n);
    }
  }

  // ---------------------------------------------------------------- visual date text

  /** The month table of the parser, abbreviations and full names. */
  const MonthNames: map<string, int> := map[
    "ene" := 0, "feb" := 1, "mar" := 2, "abr" := 3, "may" := 4, "jun" := 5,
    "jul" := 6, "ago" := 7, "sep" := 8, "oct" := 9, "nov" := 10, "dic" := 11,
    "enero" := 0, "febrero" := 1, "marzo" := 2, "abril" := 3, "mayo" := 4, "junio" := 5,
    "julio" := 6, "agosto" := 7, "septiembre" := 8, "octubre" := 9, "noviembre" := 10, "diciembre" := 11]

  /** The three-letter keys of the month table, in month order. */
  const MonthAbbreviations: seq<string> :=
    ["ene", "feb", "mar", "abr", "may", "jun", "jul", "ago", "sep", "oct", "nov", "dic"]

  function Min(a: int, b: int): int {
    if a < b then a else b
  }

  /** `token.toLowerCase().slice(0, 3)`. */
  function MonthKey(token: string): (key: string)
    ensures |key| == Min(3, |token|)
    ensures forall i :: 0 <= i < |key| ==> key[i] == LowerChar(token[i])
  {
    Lower(token)[..Min(3, |token|)]
  }

  /** `months[key]` for the key of a token: a month number, or None for undefined. */
  function MonthOf(token: string): (r: Option<int>)
    ensures r.Some? ==> 0 <= r.value < 12
    ensures r.Some? <==> MonthKey(token) in MonthAbbreviations
  {
    var key := MonthKey(token);
    if key in MonthNames then Some(MonthNames[key]) else None
  }

  /** `text.trim().split(/[\s,]+/)`. */
  function Tokens(text: string): (r: seq<string>)
    ensures |r| >= 1
    ensures forall i :: 0 <= i < |r| ==> NoSeparators(r[i])
  {
    var r := SplitFields(Trim(text));
    FieldsHaveNoSeparators(r);
    r
  }

  /** The year the candidate date is built in: the third token when `parseInt` reads a number from it, else the current year. */
  function YearOf(parts: seq<string>, today: CivilDate): (r: int)
    ensures |parts| <= 2 ==> r == today.year
    ensures |parts| > 2 && ParseInt(parts[2], true).None? ==> r == today.year
    ensures |parts| > 2 && parts[2] != [] && AllDigitsIn(parts[2], 10) ==> r == ValueIn(parts[2], 10)
  {
    if |parts| <= 2 then today.year
    else
      ParseIntOfDigits(parts[2], true);
      if ParseInt(parts[2], true).Some? then ParseInt(parts[2], true).value else today.year
  }

  /**
   * `parseSpanishDate(text)` with "now" falling on the local day `today`:
   * "day month [year]" separated by white space or commas, the day read by
   * `parseInt`, the month by the first three letters of its name. A
   * candidate after today is moved back to the year before the one it was
   * built from. None is `undefined`.
   */
  function ParseSpanishDate(text: string, today: CivilDate): (r: Option<JsDate>)
    ensures r == None <==>
      || text == []
      || |Tokens(text)| < 2
      || ParseInt(Tokens(text)[0], false) == None
      || MonthOf(Tokens(text)[1]) == None
    ensures r.Some? ==> r.value.InvalidDate? || (r.value.LocalMidnight? && IsValid(r.value.localDay))
  {
    if text == [] then None
    else
      var parts := Tokens(text);
      if |parts| < 2 then None
      else
        var day := ParseInt(parts[0], false);
        var month := MonthOf(parts[1]);
        var year := YearOf(parts, today);
        if day.None? || month.None? then None
        else
          Some(RollBack(LocalDate(year, month.value, day.value), year, today))
  }

  /** A candidate later than now, that is after today, is moved to the year before `year`. */
  function RollBack(candidate: JsDate, year: int, today: CivilDate): (r: JsDate)
    ensures !(candidate.LocalMidnight? && Before(today, candidate.localDay)) ==> r == candidate
    ensures candidate.LocalMidnight? && Before(today, candidate.localDay) ==>
      r.InvalidDate? || (r.LocalMidnight? && IsValid(r.localDay))
  {
    if candidate.LocalMidnight? && Before(today, candidate.localDay) then SetFullYear(candidate.localDay, year - 1)
    else candidate
  }

  // ---------------------------------------------------------------- machine-readable dates

  /**
   * The integer arguments `Date.UTC(year, month - 1, day)` works with for a
   * `datetime` attribute "YYYY-MM-DD": the attribute is split on '-' and the
   * first three parts converted by `Number`. A missing part is `undefined`,
   * which like a part that is not a number makes `Date.UTC` give NaN: None.
   */
  function DatetimeArguments(attr: string): (r: Option<(int, int, int)>)
    ensures r.Some? ==> |SplitOn(attr, '-')| >= 3
  {
    var parts := SplitOn(attr, '-');
    if |parts| < 3 then None
    else UtcArguments(NumberValue(parts[0]), NumberValue(parts[1]), NumberValue(parts[2]))
  }

  /** `Date.UTC(year, month - 1, day)` cuts each argument to an integer toward zero, the month after its subtraction. */
  function UtcArguments(year: Option<real>, month: Option<real>, day: Option<real>): (r: Option<(int, int, int)>)
    ensures r.Some? <==> year.Some? && month.Some? && day.Some?
    ensures r.Some? ==> -1.0 < month.value - 1.0 - r.value.1 as real < 1.0
  {
    if year.None? || month.None? || day.None? then None
    else Some((Trunc(year.value), Trunc(month.value - 1.0), Trunc(day.value)))
  }

  /** The date of a `datetime` attribute: `new Date(Date.UTC(...))` of its arguments. */
  function DatetimeAttributeDate(attr: string): (r: JsDate)
    ensures r.InvalidDate? || (r.UtcMidnight? && IsValid(r.utcDay))
    ensures DatetimeArguments(attr).None? ==> r.InvalidDate?
  {
    match DatetimeArguments(attr)
    case None => InvalidDate
    case Some((y, m, d)) => DateUtc(y, m, d)
  }

  /** `new Date(metaDate)`, given the time value the engine's date parser produced (None for NaN). */
  function FromTimeValue(parsed: Option<int>): (r: JsDate)
    ensures IsValidDate(r) <==> parsed.Some?
  {
    if parsed.Some? then Instant(parsed.value) else InvalidDate
  }

  // ---------------------------------------------------------------- the detail page

  /** One read from the page: it throws, or it yields a value. */
  datatype Probe<+T> = Throws | Read(value: T)

  /**
   * What the detail page offers. A meta or attribute read yields None when
   * the element or the attribute is absent.
   */
  datatype DetailPage = DetailPage(
    ogTitle: Probe<Option<string>>,        // meta og:title
    ogImage: Probe<Option<string>>,        // meta og:image
    thumbnailSrc: Probe<Option<string>>,   // src of the first '.img-thumbnail img'
    publishedTime: Probe<Option<string>>,  // meta article:published_time
    timeDatetime: Probe<Option<string>>,   // datetime of '.post-date time'
    postDateText: Probe<string>)           // inner text of '.post-date'

  /** What opening a detail URL gives. */
  datatype DetailVisit =
    | TabFails          // `browser.newPage()` throws, outside the detail's own try
    | NavigationFails   // `page.goto(url)` throws
    | Loaded(page: DetailPage)

  /** "Now": the instant, and the local calendar day it falls on. */
  datatype Clock = Clock(instant: int, today: CivilDate)

  /** What the strategy reads from outside besides the pages: the engine's date-string parser and the clock. */
  datatype World = World(parseDateString: string -> Option<int>, now: Clock)

  /** JavaScript truthiness of a string that may be null. */
  predicate Truthy(v: Option<string>) {
    v.Some? && v.value != []
  }

  /** The image: og:image when non-empty, else the thumbnail's src when non-empty, else none. */
  function ImageUrl(page: DetailPage): (r: Probe<Option<string>>)
    ensures r.Read? && r.value.Some? ==> r.value.value != []
  {
    match page.ogImage
    case Throws => Throws
    case Read(og) =>
      if Truthy(og) then Read(og)
      else match page.thumbnailSrc
        case Throws => Throws
        case Read(src) => Read(if Truthy(src) then src else None)
  }

  /** A date signal of the page, in the form the cascade found it. */
  datatype DateSignal =
    | MetaSignal(content: string)     // article:published_time
    | DatetimeSignal(attr: string)    // <time datetime>
    | TextSignal(text: string)        // visible '.post-date' text

  /**
   * The first date signal present on the page, in the order meta tag,
   * `<time datetime>`, visible text; the visible text is always there to be
   * read, and throws when it cannot be.
   */
  function FirstDateSignal(page: DetailPage): (r: Probe<DateSignal>)
    ensures r.Read? && r.value.MetaSignal? ==> r.value.content != []
    ensures r.Read? && r.value.DatetimeSignal? ==> r.value.attr != []
  {
    match page.publishedTime
    case Throws => Throws
    case Read(meta) =>
      if Truthy(meta) then Read(MetaSignal(meta.value))
      else match page.timeDatetime
        case Throws => Throws
        case Read(attr) =>
          if Truthy(attr) then Read(DatetimeSignal(attr.value))
          else match page.postDateText
            case Throws => Throws
            case Read(text) => Read(TextSignal(text))
  }

  /** The date a signal stands for, None when the text parser finds none. */
  function SignalDate(signal: DateSignal, world: World): (r: Option<JsDate>)
    ensures r.None? ==> signal.TextSignal?
    ensures r.Some? && !signal.MetaSignal? && IsValidDate(r.value) ==> r.value.UtcMidnight? || r.value.LocalMidnight?
  {
    match signal
    case MetaSignal(content) => Some(FromTimeValue(world.parseDateString(content)))
    case DatetimeSignal(attr) => Some(DatetimeAttributeDate(attr))
    case TextSignal(text) => ParseSpanishDate(text, world.now.today)
  }

  /** The published date of the item: the first signal's date, or now when that is missing or invalid. */
  function PublishedDate(page: DetailPage, world: World): (r: Probe<JsDate>)
    ensures r.Read? ==> IsValidDate(r.value)
    ensures r.Read? <==> FirstDateSignal(page).Read?
  {
    match FirstDateSignal(page)
    case Throws => Throws
    case Read(signal) =>
      Read(OrNow(SignalDate(signal, world), world.now))
  }

  /** The date finally stored: the chosen date when there is a valid one, now otherwise. */
  function OrNow(date: Option<JsDate>, now: Clock): (r: JsDate)
    ensures IsValidDate(r)
    ensures date.Some? && IsValidDate(date.value) ==> r == date.value
    ensures !(date.Some? && IsValidDate(date.value)) ==> r == Instant(now.instant)
  {
    if date.Some? && IsValidDate(date.value) then date.value else Instant(now.instant)
  }

  /** What `scrapePostDetail` does: throw to the listing loop, return null, or return an item. */
  datatype DetailOutcome = Aborted | Dropped | Found(item: ScrapedInternship)

  /**
   * The outcome of enriching one listing entry: the item takes its url from
   * the listing, its title from og:title when that is non-empty and from the
   * listing otherwise, its image and date from the page. Any read that
   * throws drops the item.
   */
  function PostDetail(visit: DetailVisit, url: string, fallbackTitle: string, world: World): (r: DetailOutcome)
    ensures r.Aborted? <==> visit.TabFails?
    ensures r.Found? <==>
      && visit.Loaded? && visit.page.ogTitle.Read?
      && ImageUrl(visit.page).Read? && PublishedDate(visit.page, world).Read?
    ensures r.Found? ==> r.item.origin == "UADER" && r.item.url == url
    ensures r.Found? ==> r.item.publishedAt.Some? && IsValidDate(r.item.publishedAt.value)
    ensures r.Found? ==>
      && visit.Loaded? && visit.page.ogTitle.Read?
      && r.item.title == if Truthy(visit.page.ogTitle.value) then visit.page.ogTitle.value.value else fallbackTitle
  {
    match visit
    case TabFails => Aborted
    case NavigationFails => Dropped
    case Loaded(page) =>
      match (page.ogTitle, ImageUrl(page), PublishedDate(page, world))
      case (Read(ogTitle), Read(image), Read(date)) =>
        Found(ScrapedInternship("UADER", url, if Truthy(ogTitle) then ogTitle.value else fallbackTitle, image, Some(date)))
      case _ => Dropped
  }

  /**
   * `scrapePostDetail(browser, url, fallbackTitle)`, step by step: the
   * image and the date are reassigned as each guard finds them still unset.
   */
  method ScrapePostDetail(visit: DetailVisit, url: string, fallbackTitle: string, world: World)
    returns (outcome: DetailOutcome)
    ensures outcome == PostDetail(visit, url, fallbackTitle, world)
  {
    if visit.TabFails? {
      return Aborted;
    }
    if visit.NavigationFails? {
      return Dropped;
    }
    var page := visit.page;
    if page.ogTitle.Throws? || page.ogImage.Throws? {
      return Dropped;
    }
    var ogTitle := page.ogTitle.value;
    var imageUrl := page.ogImage.value;
    if !Truthy(imageUrl) {
      if page.thumbnailSrc.Throws? {
        return Dropped;
      }
      if page.thumbnailSrc.value.Some? {
        imageUrl := page.thumbnailSrc.value;
      }
    }
    assert ImageUrl(page) == Read(if Truthy(imageUrl) then imageUrl else None);

    var publishedDate: Option<JsDate> := None;
    if page.publishedTime.Throws? {
      return Dropped;
    }
    var metaDate := page.publishedTime.value;
    if Truthy(metaDate) {
      publishedDate := Some(FromTimeValue(world.parseDateString(metaDate.value)));
      assert FirstDateSignal(page) == Read(MetaSignal(metaDate.value));
    }
    if publishedDate.None? {
      if page.timeDatetime.Throws? {
        return Dropped;
      }
      var datetimeAttr := page.timeDatetime.value;
      if Truthy(datetimeAttr) {
        publishedDate := Some(DatetimeAttributeDate(datetimeAttr.value));
        assert FirstDateSignal(page) == Read(DatetimeSignal(datetimeAttr.value));
      }
    }
    if publishedDate.None? {
      if page.postDateText.Throws? {
        return Dropped;
      }
      assert FirstDateSignal(page) == Read(TextSignal(page.postDateText.value));
      publishedDate := ParseSpanishDate(page.postDateText.value, world.now.today);
    }
    ghost var chosen := publishedDate;
    if publishedDate.None? || !IsValidDate(publishedDate.value) {
      publishedDate := Some(Instant(world.now.instant));
    }
    assert chosen == SignalDate(FirstDateSignal(page).value, world);
    assert PublishedDate(page, world) == Read(publishedDate.value);

    var title := if Truthy(ogTitle) then ogTitle.value else fallbackTitle;
    outcome := Found(ScrapedInternship("UADER", url, title, if Truthy(imageUrl) then imageUrl else None, publishedDate));
  }

  // ---------------------------------------------------------------- the listing

  /**
   * One `<article>` of the listing: the inner text and the href of its title
   * link, and what opening that link as a detail page gives.
   */
  datatype Article = Article(title: Probe<string>, href: Probe<Option<string>>, detail: DetailVisit)

  /** The most recent articles the loop looks at. */
  const MaxArticles := 5

  /** What one article contributes to the loop. */
  datatype Step = Abort | Skip | Emit(item: ScrapedInternship)

  /**
   * One pass of the listing loop: a read that throws ends the loop; an
   * article without a title or a link, or whose title is not about an
   * internship, is skipped; otherwise its detail decides.
   */
  function StepOf(article: Article, world: World): (s: Step)
    ensures s.Emit? ==>
      && article.title.Read? && article.title.value != [] && IsInternship(article.title.value)
      && article.href.Read? && Truthy(article.href.value)
      && PostDetail(article.detail, article.href.value.value, article.title.value, world) == Found(s.item)
    ensures Passes(article) ==>
      s == DetailStep(PostDetail(article.detail, article.href.value.value, article.title.value, world))
    ensures s.Abort? <==> article.title.Throws? || article.href.Throws? || (Passes(article) && article.detail.TabFails?)
  {
    match (article.title, article.href)
    case (Read(rawTitle), Read(url)) =>
      if rawTitle == [] || !Truthy(url) || !IsInternship(rawTitle) then Skip
      else DetailStep(PostDetail(article.detail, url.value, rawTitle, world))
    case _ => Abort
  }

  /** The listing entry has a non-empty title about an internship and a non-empty link: its detail is visited. */
  predicate Passes(article: Article)
    ensures Passes(article) ==>
      && article.title.Read? && |article.title.value| >= 4
      && article.href.Read? && article.href.value.Some? && article.href.value.value != []
  {
    && article.title.Read? && article.title.value != [] && IsInternship(article.title.value)
    && article.href.Read? && Truthy(article.href.value)
  }

  /** What the detail's outcome makes of the article: the loop ends, skips it, or keeps its item. */
  function DetailStep(detail: DetailOutcome): (s: Step)
    ensures s.Emit? <==> detail.Found?
    ensures s.Abort? <==> detail.Aborted?
  {
    match detail
    case Aborted => Abort
    case Dropped => Skip
    case Found(item) => Emit(item)
  }

  /** The items the loop collects from a run of articles, up to the first one that aborts it. */
  function Collect(articles: seq<Article>, world: World): (r: seq<ScrapedInternship>)
    ensures |r| <= |articles|
  {
    if articles == [] then []
    else match StepOf(articles[0], world)
      case Abort => []
      case Skip => Collect(articles[1..], world)
      case Emit(item) => [item] + Collect(articles[1..], world)
  }

  /** One unfolding of Collect, by what the first article contributes. */
  lemma CollectCons(articles: seq<Article>, world: World)
    requires articles != []
    ensures StepOf(articles[0], world).Abort? ==> Collect(articles, world) == []
    ensures StepOf(articles[0], world).Skip? ==> Collect(articles, world) == Collect(articles[1..], world)
    ensures StepOf(articles[0], world).Emit? ==>
      Collect(articles, world) == [StepOf(articles[0], world).item] + Collect(articles[1..], world)
  {
  }

  /** One more pass of the listing loop, in terms of what is left of the listing. */
  lemma CollectStep(articles: seq<Article>, results: seq<ScrapedInternship>, i: nat, world: World)
    requires i < |articles| && Collect(articles, world) == results + Collect(articles[i..], world)
    ensures StepOf(articles[i], world).Abort? ==> Collect(articles, world) == results
    ensures StepOf(articles[i], world).Skip? ==> Collect(articles, world) == results + Collect(articles[i + 1..], world)
    ensures StepOf(articles[i], world).Emit? ==>
      Collect(articles, world) == (results + [StepOf(articles[i], world).item]) + Collect(articles[i + 1..], world)
  {
    var rest := articles[i..];
    assert rest[1..] == articles[i + 1..];
    CollectCons(rest, world);
  }

  /** What `scrape()` returns for a listing: nothing when the listing itself cannot be read. */
  function Scraped(listing: Probe<seq<Article>>, world: World): (r: seq<ScrapedInternship>)
    ensures |r| <= MaxArticles
    ensures listing.Throws? ==> r == []
  {
    match listing
    case Throws => []
    case Read(articles) => Collect(articles[..Min(|articles|, MaxArticles)], world)
  }

  /** `scrape()`: at most the five most recent articles are examined, in listing order. */
  method Scrape(listing: Probe<seq<Article>>, world: World) returns (results: seq<ScrapedInternship>)
    ensures results == Scraped(listing, world)
    ensures |results| <= MaxArticles
  {
    results := [];
    if listing.Throws? {
      return;
    }
    var articles := listing.value;
    var limit := Min(|articles|, MaxArticles);
    for i := 0 to limit
      invariant Collect(articles[..limit], world) == results + Collect(articles[..limit][i..], world)
      invariant |results| <= i
    {
      var article := articles[i];
      CollectStep(articles[..limit], results, i, world);
      if article.title.Throws? || article.href.Throws? {
        assert StepOf(article, world) == Abort;
        return;
      }
      var rawTitle := article.title.value;
      var url := article.href.value;
      if rawTitle == [] || !Truthy(url) {
        assert StepOf(article, world) == Skip;
        continue;
      }
      if IsInternship(rawTitle) {
        var detailData := ScrapePostDetail(article.detail, url.value, rawTitle, world);
        assert StepOf(article, world) == DetailStep(detailData);
        if detailData.Aborted? {
          return;
        }
        if detailData.Found? {
          results := results + [detailData.item];
        }
      } else {
        assert StepOf(article, world) == Skip;
      }
    }
    assert articles[..limit][limit..] == [];
  }
}
