# uader-bot scraping core, modelled in Dafny

This project models the part of uader-bot that finds internship postings.
It has two halves:
- **The UADER strategy.** It reads the five most recent articles of a faculty news listing. It keeps those whose title mentions an internship and opens each one to collect a title, an image and a publication date, using a fallback cascade for the date.
- **The jobs service.** It runs a scraping cycle, saves every scraped posting whose url is not yet in the internship table, and returns the postings it saved.

## Files
- `wrappers.dfy`: `Option` and `Result`.
- `js_text.dfy` (module `JsText`): the JavaScript string primitives the strategy relies on. These are `toLowerCase`, `includes`, `trim`, `split(/[\s,]+/)`, `split('-')`, `parseInt` with and without a radix, and `Number`, each with its ECMAScript edge cases (white space set, empty pieces, sign and hex prefix).
- `calendar.dfy` (module `Calendar`): civil days and the `Date` values the strategy builds:
  - `Date.UTC` and `new Date(y, m, d)`, with the ECMAScript day and month overflow and the 0–99 → 19xx year rule;
  - `setFullYear`;
  - the ±8.64e15 ms clip to an invalid date.
- `scraper_interface.dfy` (module `Scraper`): the `ScrapedInternship` value.
- `uader.dfy` (module `Uader`): the strategy:
  - the keyword filter;
  - `parseSpanishDate`;
  - the `<time datetime>` decoding;
  - the date cascade;
  - `scrapePostDetail`, as a function and as a step-by-step method proved equal to it;
  - the listing loop `scrape`, as a method with loop invariants proved against the function `Scraped`.
- `uader_properties.dfy` (module `UaderProperties`): what the strategy guarantees.
- `jobs.dfy` (module `Jobs`):
  - the internship table, as a class holding a `map` from url to row, with `FindUnique` and `Create`;
  - the `JobsService` class with `SaveIfNew` and the cycle's nested loops (`RunScrapingCycle`, whose inner loop is `SaveScraped`);
  - the specification functions `Save`, `RunItems` and `RunBatches` that the methods are proved against.
- `jobs_properties.dfy` (module `JobsProperties`): what a cycle guarantees.

## How the outside world appears
- **Page reads.** Every read from a page (inner text, an attribute, a meta tag) is a `Probe`: it throws or yields a value.
- **Where a throw goes.** This follows the source's try/catch placement:
  - A throw while reading the listing, or one article's title or link, ends the listing loop. The items found so far are kept.
  - `browser.newPage()` for a detail page sits outside that page's own try, so its failure (`TabFails`) also ends the listing loop.
  - Any other failure on a detail page drops only that item.
- **Detail pages.** Each listing article carries what opening its link as a detail page gives (`Article.detail`): the tab cannot be opened, the navigation throws, or the page loads and each of its reads succeeds or throws. Two articles with the same link may therefore see different pages.
- **Date parsing and the clock.** The engine's parser for `new Date(metaDate)` is a parameter (`World.parseDateString`). So is "now" (`World.now`, a `Clock`: the instant and the local day it falls on).
- **Store failures.** A failing lookup or create is chosen per item by an `Oracle`, which also gives the clock reading stored as `foundAt`.
- **Strategy outputs.** What each strategy's `scrape()` returned is the input of the cycle (`batches`, one sequence per strategy). `UaderCycleItems` connects the two halves for the one strategy the service registers.

## Behaviour of the code worth knowing
- A failure of `browser.newPage()` on a detail page ends the whole listing loop, not just that item (src/jobs/strategies/uader.strategy.ts:105).
- The date cascade is decided by the first signal that is *present*. A non-empty `article:published_time` that does not parse gives "now", and the `<time>` element and the visible text are then not consulted (src/jobs/strategies/uader.strategy.ts:127-160).
- When neither date attribute is there and the page has no `.post-date` element, `innerText()` throws, and the item is dropped (src/jobs/strategies/uader.strategy.ts:153).
- A `datetime` attribute with a fraction on the day, such as "2025-12-17.5", dates the item 17 December: `Number` reads the fraction and `Date.UTC` cuts it off (src/jobs/strategies/uader.strategy.ts:139-140).

## Model

| member | source | states |
|---|---|---|
| `JsText.LowerChar` | src/jobs/strategies/uader.strategy.ts:91 | the result is never a capital letter, and a character that is not a capital is left alone |
| `JsText.Lower` | src/jobs/strategies/uader.strategy.ts:91 | same length as the input, each character lower-cased on its own |
| `JsText.LowerIdempotent` | src/jobs/strategies/uader.strategy.ts:91 | lower-casing twice is lower-casing once |
| `JsText.Includes` | src/jobs/strategies/uader.strategy.ts:94 | a string only includes keys no longer than itself |
| `JsText.IncludesIff` | src/jobs/strategies/uader.strategy.ts:94 | `includes` holds exactly when the keyword occurs at some position |
| `JsText.TrimStart` | src/jobs/strategies/uader.strategy.ts:217 | the result is a suffix of the input, starts with no white space, and only white space was removed |
| `JsText.TrimEnd` | src/jobs/strategies/uader.strategy.ts:217 | the result is a prefix of the input, ends with no white space, and only white space was removed |
| `JsText.Trim` | src/jobs/strategies/uader.strategy.ts:217 | trimming never lengthens the string |
| `JsText.TrimUntrimmed` | src/jobs/strategies/uader.strategy.ts:217 | a string with no white space at either end is its own trim |
| `JsText.SplitFields` | src/jobs/strategies/uader.strategy.ts:217 | at least one piece; no piece holds a separator; the pieces concatenate to the input without its separators; exactly one piece when the input has no separator |
| `JsText.SplitFieldsConcat` | src/jobs/strategies/uader.strategy.ts:217 | the pieces, joined, are the input with its separators removed |
| `JsText.SplitFieldsSingle` | src/jobs/strategies/uader.strategy.ts:217 | exactly one piece when, and only when, the input holds no separator |
| `JsText.SplitFieldsAtRun` | src/jobs/strategies/uader.strategy.ts:217 | a word, a run of separators, and a rest not starting with one: the word is the first piece and the rest is split on its own |
| `JsText.SplitFieldsLeadingRun` | src/jobs/strategies/uader.strategy.ts:217 | a leading run of separators gives one empty first piece, then the rest split on its own |
| `JsText.SplitFieldsTwo` | src/jobs/strategies/uader.strategy.ts:217 | two words around one run of separators split into exactly those two words |
| `JsText.SplitFieldsThree` | src/jobs/strategies/uader.strategy.ts:217 | three words separated by two runs, such as "15 Dic, 2024", split into exactly those three words |
| `JsText.SplitOn` | src/jobs/strategies/uader.strategy.ts:139 | at least one piece, none holding the separator |
| `JsText.SplitOnJoin` | src/jobs/strategies/uader.strategy.ts:139 | splitting on '-' undoes joining pieces that hold no '-' |
| `JsText.ParseInt` | src/jobs/strategies/uader.strategy.ts:221 | a blank string is NaN, and a negative result needs a leading minus sign |
| `JsText.ParseIntOfDigits` | src/jobs/strategies/uader.strategy.ts:227-228 | a string of decimal digits is its value, with or without hex prefix detection |
| `JsText.ParseIntDecimalPrefix` | src/jobs/strategies/uader.strategy.ts:221 | `parseInt(s, 10)` of decimal digits followed by a non-digit is the value of those digits |
| `JsText.NumberValue` | src/jobs/strategies/uader.strategy.ts:139 | a blank string is 0, and a negative value needs a leading minus sign |
| `JsText.NumberValueOfDigits` | src/jobs/strategies/uader.strategy.ts:139 | `Number` of a non-empty string of decimal digits is their value |
| `JsText.NumberValueOfDecimal` | src/jobs/strategies/uader.strategy.ts:139 | `Number` of "ddd.fff" is ddd plus the fraction fff, and it truncates back to ddd |
| `JsText.Trunc` | src/jobs/strategies/uader.strategy.ts:140 | `ToIntegerOrInfinity` cuts toward zero: the integer at or below a non-negative value and at or above a negative one, so -0.5 becomes 0 |
| `Calendar.Before` | src/jobs/strategies/uader.strategy.ts:238 | the day order behind `candidateDate > new Date()`: a day is never before itself |
| `Calendar.InTimeRange` | src/jobs/strategies/uader.strategy.ts:140 | the days a time value can hold (`TimeClip`) lie between the years of its first and last day |
| `Calendar.Carry` | src/jobs/strategies/uader.strategy.ts:233 | a day of month past either end of its month carries into the neighbouring months and always lands on a real day |
| `Calendar.MakeDay` | src/jobs/strategies/uader.strategy.ts:233 | any year, month and day offset, overflowing or not, lands on a real day |
| `Calendar.FullYear` | src/jobs/strategies/uader.strategy.ts:233 | a year from 0 to 99 is taken as 1900 plus it; any other year is kept |
| `Calendar.DaysInMonth` | src/jobs/strategies/uader.strategy.ts:233 | 28 to 31 days, 29 exactly for February of a leap year |
| `Calendar.NextDay` | src/jobs/strategies/uader.strategy.ts:233 | the next day of a real day is a real day and comes after it |
| `Calendar.MakeDayOfValid` | src/jobs/strategies/uader.strategy.ts:233 | building a real day needs no overflow correction |
| `Calendar.MakeDayNext` | src/jobs/strategies/uader.strategy.ts:233 | one more day of offset gives the next calendar day, so day overflow walks the calendar |
| `Calendar.MakeDayKeepsYear` | src/jobs/strategies/uader.strategy.ts:239 | a day of month from 1 to 31 never leaves the year it was built in |
| `Calendar.DateUtc` | src/jobs/strategies/uader.strategy.ts:140 | `Date.UTC` gives an invalid date or midnight UTC of a real day inside the time range |
| `Calendar.LocalDate` | src/jobs/strategies/uader.strategy.ts:233 | `new Date(y, m, d)` gives an invalid date or local midnight of a real day inside the time range |
| `Calendar.SetFullYear` | src/jobs/strategies/uader.strategy.ts:239 | `setFullYear` gives an invalid date or local midnight of a real day inside the time range |
| `Calendar.LocalDateOfValid` | src/jobs/strategies/uader.strategy.ts:233 | a real day of a year from 100 on, in range, is built as itself |
| `Calendar.SetFullYearBackOne` | src/jobs/strategies/uader.strategy.ts:239 | moving a day other than 29 February back one year keeps its month and day |
| `Uader.AnyKeywordIn` | src/jobs/strategies/uader.strategy.ts:94 | `some(includes)`: true only when one of the keywords occurs in the title |
| `Uader.IsInternship` | src/jobs/strategies/uader.strategy.ts:16-95 | a title shorter than the shortest keyword, "fcyt", never passes |
| `Uader.Tokens` | src/jobs/strategies/uader.strategy.ts:217 | at least one token, and no token holds white space or a comma |
| `Uader.YearOf` | src/jobs/strategies/uader.strategy.ts:226-229 | the current year with fewer than three tokens or a third token `parseInt` cannot read; a third token of decimal digits is the year it spells |
| `Uader.RollBack` | src/jobs/strategies/uader.strategy.ts:235-240 | a candidate not after today is kept; one after today becomes an invalid date or local midnight of a real day |
| `Uader.MonthKey` | src/jobs/strategies/uader.strategy.ts:222 | the key is the first three characters of the token, or all of a shorter one, each lower-cased |
| `Uader.MonthOf` | src/jobs/strategies/uader.strategy.ts:222-223 | a month number 0 to 11, found exactly when the lower-cased first three letters are a month abbreviation |
| `Uader.ParseSpanishDate` | src/jobs/strategies/uader.strategy.ts:184-251 | `undefined` exactly for empty text, fewer than two pieces, an unreadable day or an unknown month; otherwise an invalid date or local midnight of a real day |
| `Uader.DatetimeArguments` | src/jobs/strategies/uader.strategy.ts:139 | arguments exist only when `split('-')` gives at least three fields |
| `UaderProperties.DatetimeArgumentsDefined` | src/jobs/strategies/uader.strategy.ts:139-140 | arguments exist exactly when there are three '-' fields and each of the first three reads as a number; otherwise the date is NaN |
| `Uader.UtcArguments` | src/jobs/strategies/uader.strategy.ts:140 | defined exactly when all three numbers are; the month argument is `month - 1` cut to an integer, less than one away |
| `Uader.DatetimeAttributeDate` | src/jobs/strategies/uader.strategy.ts:136-140 | an invalid date or midnight UTC of a real day, and invalid whenever a part is missing or not a number |
| `Uader.FromTimeValue` | src/jobs/strategies/uader.strategy.ts:128 | the date is valid exactly when the engine's parser produced a time value |
| `Uader.ImageUrl` | src/jobs/strategies/uader.strategy.ts:111-117 | an image url the item carries is never empty |
| `Uader.FirstDateSignal` | src/jobs/strategies/uader.strategy.ts:122-155 | a meta or attribute signal the cascade settles on is non-empty |
| `Uader.SignalDate` | src/jobs/strategies/uader.strategy.ts:127-154 | only the visible text can leave the date `undefined`; a valid date from the attribute or the text is a midnight, UTC or local |
| `Uader.OrNow` | src/jobs/strategies/uader.strategy.ts:158-160 | the result is always valid: a valid chosen date is kept, and a missing or invalid one becomes now |
| `Uader.PublishedDate` | src/jobs/strategies/uader.strategy.ts:120-160 | whenever the reads succeed, the date is valid; it fails exactly when reading the signal the cascade needs throws |
| `Uader.PostDetail` | src/jobs/strategies/uader.strategy.ts:100-183 | it aborts the listing exactly when the tab cannot be opened, and finds an item exactly when the page loads and the og:title, image and date reads succeed; a found item is tagged UADER, keeps the listing url, has a valid date, and takes og:title when non-empty, otherwise the listing title |
| `Uader.ScrapePostDetail` | src/jobs/strategies/uader.strategy.ts:100-183 | the step-by-step reassignments give the same outcome as `PostDetail` |
| `Uader.StepOf` | src/jobs/strategies/uader.strategy.ts:46-75 | an article yields an item only with a non-empty title that passes the filter and a non-empty link, and the item is what its detail page gives; such an article's step is its detail outcome; the loop ends exactly when the title or link read throws or a passing article's tab cannot be opened |
| `Uader.Collect` | src/jobs/strategies/uader.strategy.ts:44-75 | never more items than articles |
| `Uader.Scraped` | src/jobs/strategies/uader.strategy.ts:18-85 | at most five items, and none when the listing cannot be read |
| `Uader.Scrape` | src/jobs/strategies/uader.strategy.ts:18-85 | the loop returns the items of the first five articles up to the first failing read, so at most five |
| `UaderProperties.AnyKeywordInIff` | src/jobs/strategies/uader.strategy.ts:94 | `some(includes)` holds exactly when one keyword is contained in the title |
| `UaderProperties.IsInternshipIff` | src/jobs/strategies/uader.strategy.ts:90-95 | a title passes exactly when one of the four keywords occurs in its lower-cased form |
| `UaderProperties.IsInternshipIgnoresCase` | src/jobs/strategies/uader.strategy.ts:91 | the filter gives the same answer for a title and its lower-cased form |
| `UaderProperties.PaidInternshipPasses` | src/jobs/strategies/uader.strategy.ts:16 | a title with "PASANTÍA" in capitals passes |
| `UaderProperties.GrantCallFails` | src/jobs/strategies/uader.strategy.ts:16 | a title with none of the keywords does not pass |
| `UaderProperties.NoKeywordIn` | src/jobs/strategies/uader.strategy.ts:16 | a lower-cased title without 'p', 'r' or 'f' holds no keyword |
| `UaderProperties.NoKeywordLetters` | src/jobs/strategies/uader.strategy.ts:16 | a title with no p, r or f in either case does not pass, since every keyword holds one of them |
| `UaderProperties.MonthOfAbbreviation` | src/jobs/strategies/uader.strategy.ts:188-223 | only the abbreviation keys are ever looked up, and abbreviation m is month m |
| `UaderProperties.RolloverIffAfterToday` | src/jobs/strategies/uader.strategy.ts:233-240 | a real day after today is moved back one year, and one on or before today is kept as it is |
| `UaderProperties.RollBackOfValid` | src/jobs/strategies/uader.strategy.ts:233-240 | on a real day of a year from 100 on, the candidate is that day when not after today and the same day a year earlier otherwise |
| `UaderProperties.RollBackNotAfter` | src/jobs/strategies/uader.strategy.ts:225-240 | a candidate built in the current year never ends up after today |
| `UaderProperties.WithoutYearNeverAfterToday` | src/jobs/strategies/uader.strategy.ts:225-240 | without a year in the text the date is never after today |
| `UaderProperties.ParseSpanishDateExample` | src/jobs/strategies/uader.strategy.ts:235-240 | "15 Dic" read on 1 February 2025 is 15 December 2024 |
| `UaderProperties.DatetimeAttributeIsUtcMidnight` | src/jobs/strategies/uader.strategy.ts:136-140 | "Y-M-D" in digits is midnight UTC of year Y, month M, day D |
| `UaderProperties.DatetimeAttributeExample` | src/jobs/strategies/uader.strategy.ts:136 | "2025-12-17" is midnight UTC of 17 December 2025 |
| `UaderProperties.FifteenDicTokens` | src/jobs/strategies/uader.strategy.ts:217 | "15 Dic" splits into the tokens "15" and "Dic" |
| `UaderProperties.DateUtcOfValid` | src/jobs/strategies/uader.strategy.ts:140 | `Date.UTC` of a real in-range day of a year from 100 on is midnight UTC of that day |
| `UaderProperties.DatetimeOfDigits` | src/jobs/strategies/uader.strategy.ts:136-140 | "Y-M-D" in digits is `Date.UTC(Y, M - 1, D)` |
| `UaderProperties.DatetimeOfFraction` | src/jobs/strategies/uader.strategy.ts:136-140 | "Y-M-D.F" in digits is `Date.UTC(Y, M - 1, D)`: the fraction is cut off |
| `UaderProperties.DatetimeFractionIgnored` | src/jobs/strategies/uader.strategy.ts:136-140 | "Y-M-D.F" dates the same as "Y-M-D" |
| `UaderProperties.DatetimeFractionExample` | src/jobs/strategies/uader.strategy.ts:136-140 | "2025-12-17.5" is midnight UTC of 17 December 2025 |
| `UaderProperties.MetaDateDecides` | src/jobs/strategies/uader.strategy.ts:122-133 | a non-empty published_time decides the date whatever the later signals are |
| `UaderProperties.DatetimeDecides` | src/jobs/strategies/uader.strategy.ts:133-146 | without it, a non-empty datetime attribute decides, whatever the visible text |
| `UaderProperties.VisibleTextLast` | src/jobs/strategies/uader.strategy.ts:148-160 | with neither, the visible text is parsed, and text that gives no valid date yields now |
| `UaderProperties.MetaDateBeatsVisibleText` | src/jobs/strategies/uader.strategy.ts:122-155 | a metadata date and a conflicting visible date: the metadata date wins |
| `UaderProperties.DetailImage` | src/jobs/strategies/uader.strategy.ts:111-117 | the image is og:image when non-empty, else the thumbnail's src when non-empty, else none |
| `UaderProperties.DetailDate` | src/jobs/strategies/uader.strategy.ts:120-173 | a found item's date is the one the cascade chose |
| `Uader.Passes` | src/jobs/strategies/uader.strategy.ts:55-58 | an article goes to the detail page only with a title read of at least four characters and a non-empty link |
| `Uader.DetailStep` | src/jobs/strategies/uader.strategy.ts:64-71 | the loop keeps an item exactly when the detail found one, and ends exactly when the detail threw |
| `UaderProperties.CollectKept` | src/jobs/strategies/uader.strategy.ts:46-71 | the loop's items are the emitted steps of its articles, taken in order up to the first abort |
| `UaderProperties.OriginsEmit` | src/jobs/strategies/uader.strategy.ts:46-71 | collected items come from increasing listing positions, and each comes from the article that produced it |
| `UaderProperties.CollectComplete` | src/jobs/strategies/uader.strategy.ts:46-71 | when no read throws, every article that yields an item has it collected |
| `UaderProperties.ScrapedFromDetail` | src/jobs/strategies/uader.strategy.ts:46-71 | every returned item is the detail result of one of the first five articles, one whose title passes the filter and whose link is non-empty |
| `UaderProperties.ScrapedWellFormed` | src/jobs/strategies/uader.strategy.ts:168-174 | every item returned is tagged UADER, has a non-empty url and a valid date |
| `UaderProperties.EmptyListing` | src/jobs/strategies/uader.strategy.ts:18-85 | an empty listing, or one that cannot be read, yields nothing |
| `Jobs.NewRecord` | src/jobs/jobs.services.ts:66-76 | the new row copies origin, title, url, image and date from the item, takes the creation time, and is not yet published |
| `Jobs.InternshipTable.FindUnique` | src/jobs/jobs.services.ts:57-59 | a failed query is an error; otherwise it finds the row under the url when there is one, and finds none exactly when there is not |
| `Jobs.InternshipTable.Create` | src/jobs/jobs.services.ts:66-76 | the row is added exactly when the query does not fail and the url is free; nothing changes otherwise; rows stay keyed by their url |
| `Jobs.Save` | src/jobs/jobs.services.ts:54-86 | saved exactly when no query fails and the url is new, and then only that url gains a row; otherwise the table is unchanged |
| `Jobs.RunItems` | src/jobs/jobs.services.ts:36-41 | at most one saved item per remaining item, and no url leaves the table |
| `Jobs.RunBatches` | src/jobs/jobs.services.ts:29-47 | no url leaves the table |
| `Jobs.JobsService.SaveIfNew` | src/jobs/jobs.services.ts:54-86 | lookup then create on the table gives the outcome and the table `Save` describes |
| `Jobs.JobsService.SaveScraped` | src/jobs/jobs.services.ts:36-41 | the inner loop returns the items saved in scrape order and leaves the table `RunItems` describes |
| `Jobs.JobsService.RunScrapingCycle` | src/jobs/jobs.services.ts:25-48 | the cycle returns the saved items in strategy order, then scrape order, and leaves the table `RunBatches` describes |
| `JobsProperties.CycleInvariant` | src/jobs/jobs.services.ts:54-86 | rows stay keyed by url; old rows are never changed; the returned items are exactly the new rows, each built from its item and unpublished; returned urls are distinct and are keys of the table |
| `JobsProperties.FailureSkipsItem` | src/jobs/jobs.services.ts:80-85 | a failing lookup or create loses only its own item, and the cycle continues with the same table |
| `JobsProperties.CycleReturnsFresh` | src/jobs/jobs.services.ts:29-47 | without store failures, the cycle returns, in order, each scraped item whose url was neither stored nor seen earlier, and adds exactly the scraped urls |
| `JobsProperties.FirstOccurrenceSaved` | src/jobs/jobs.services.ts:36-41 | without store failures, an item returned for a repeated url is that url's first occurrence, and its url was new |
| `JobsProperties.CycleIdempotent` | src/jobs/jobs.services.ts:57-63 | after a cycle without store failures, the same scraped data saves nothing and leaves the table as it is, whatever fails the second time |
| `JobsProperties.CycleReturnsScraped` | src/jobs/jobs.services.ts:29-41 | every returned item is one of the scraped items |
| `JobsProperties.UaderCycleItems` | src/jobs/jobs.services.ts:19-41 | with the UADER strategy, every returned item is tagged UADER, has a non-empty url and a valid date |

## Left out
- Browser handling is not modelled: `chromium.launch`, the locators, `page.goto` waiting and the `Logger` calls. What the pages yield, or that a read throws, is a parameter.
- `browser.close()` and `page.close()` throwing in their `finally` blocks is not modelled. The model assumes closing never throws. A throw there would make `scrape()` reject, and then the cycle.
- A rejection of `strategy.scrape()` inside the cycle is not modelled. `scrape()` catches everything but the close above.
- The engine's parsing of ISO strings in `new Date(metaDate)` is a foreign call. It is the parameter `World.parseDateString`.
- The local time zone is not modelled. Local midnights are represented by their civil day. The comparison `candidateDate > new Date()` is the comparison of that day with today's local day. The time-range clip on local dates uses the UTC day bounds.
- The source reads `new Date()` afresh for every item, and several times within one (`getFullYear()`, the rollover comparison, the fallback). The model has one clock, `World.now`, shared by every article of a listing, so a scrape that crosses midnight is not modelled.
- `JsText.LowerChar`: only Basic Latin and Latin-1 capitals are mapped. Other Unicode case mappings (Greek, Cyrillic, 'İ') are not modelled, and the keywords need none of them.
- `JsText.NumberValue`: a literal is read as an exact real, while JavaScript rounds it to the nearest double. A part such as "17.99999999999999999" is 18 in the source and 17 here. The literal "Infinity" is None here and Infinity in JavaScript. An overflowing literal such as "1e400" keeps its huge exact value here and is Infinity in JavaScript. `Date.UTC` gives an invalid date for either reading, because the '-' fields carry no sign and a huge value is outside the time range, so no `datetime` result changes.
- `JsText.ParseInt`: the result is an unbounded integer. JavaScript rounds digit runs beyond 2^53 to a float, which is not modelled.
- Persistence beyond the url map is not modelled: the Prisma schema and row ids. `isPublished` is only ever set to false by the cycle; the comment at src/jobs/jobs.services.ts:74 says it marks a Discord announcement, which no file of this model performs.
- Overlapping or concurrent cycles are not modelled, and neither is the check-then-create race between them. Cycles run one after the other. The table rejects a duplicate url on create, which is where the database enforces uniqueness.
- `src/discord/discord.service.ts` is not part of this model: the cycle never calls it. Nest modules, dependency injection and the scheduler are left out as wiring.
