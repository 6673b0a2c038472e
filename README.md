# f1-races-widget: the card-selection core of the two screenshot scripts

The f1-races-widget repository renders the Formula 1 season calendar page, builds a list of race
cards from it, picks the **last race** (the latest one already over) and the **next race**, and
captures each of the two cards as an image. This project models the decision core of that work in
Dafny, once for each of the two script variants:

- `screenshot.js` (module `Screenshot`):
  - a date parser that takes the digit runs and the first case-insensitive whole-word month name,
    and rolls the end year over when the end falls before the start;
  - a card list that keeps only cards whose date parses;
  - the last/next choice against today's midnight;
  - a capture that scans the live handles for the first whose normalised text contains the title or
    the date text, then falls back to a fresh in-page scan.
- `screenshot1.js` (module `Screenshot1`):
  - a token-based date parser whose month comes from the last word token, with `?? 0` turning an
    unknown month into January and no rollover;
  - a card list that keeps every card;
  - a last/next choice against the current instant, where a "NEXT RACE" badge wins over the dates;
  - a capture at the card's own index, with an XPath `contains` fallback on the title.

Shared pieces:

| module | contents |
|---|---|
| `Wrappers` | `Option` |
| `JsText` | `trim`, `split(/\s+/)`, `replace(/\s+/g, " ")`, `includes` and `Number` on strings of characters |
| `Calendar` | dates as (year, zero-based month, day) tuples in lexicographic order, the current instant, the month table |
| `Selection` | `filter`, a stable `sort` by one date key, `[0]`, `find` and `findIndex`, written generically |
| `Cards` | a card element, reduced to the texts of the elements the scripts query, and the `.each` push loop |

The selection is proved correct against independent definitions:

- The head of the sorted filter is the element with the latest end (or the earliest start).
- On ties it is the earliest such card in page order.
- It is absent exactly when no card qualifies.

For both parsers, the model proves:

- what the parser returns, field by field;
- exactly when it returns null;
- concrete results on the page's date shapes ("28 - 30 Nov", "30 Nov - 2 Dec") and on the shapes
  where the two scripts behave surprisingly.

## Model

| member | source | states |
|---|---|---|
| JsText.Trim | screenshot.js:167-169 | The result is the input with its leading and its trailing white-space runs removed: a contiguous piece of the input that starts right after the leading run and is followed only by white space. It has no white space at either end and is empty exactly when the input is all white space. |
| JsText.TrimOfPadded | screenshot1.js:14 | Trimming white space, then text without white space at its ends, then white space, gives exactly that middle text. |
| JsText.TrimOfTrimmed | screenshot1.js:14 | Trimming text that already has no white space at either end leaves it unchanged (the parser re-trims an already trimmed date text). |
| JsText.Tokens | screenshot1.js:14 | `trim().split(/\s+/)` gives at least one piece and no piece contains white space. |
| JsText.TokensOfTrimmed | screenshot1.js:14 | For non-empty text without white space at its ends, the pieces are exactly its maximal runs of non-white-space characters. |
| JsText.TrimKeepsFields | screenshot1.js:14 | Trimming does not change the words (maximal runs of non-white-space characters) of a text. |
| JsText.CollapseSpaces | screenshot.js:197 | After `replace(/\s+/g, " ")` every white-space character is a plain space and no two are adjacent; the result is empty exactly when the input is, and starts (or ends) with white space exactly when the input does. |
| JsText.CollapseKeepsFields | screenshot.js:197 | Collapsing the white-space runs does not change the words of the text. |
| JsText.NormalizeSpaces | screenshot.js:197 | The normalised `innerText` is trimmed, uses only plain spaces, and never has two spaces in a row. |
| JsText.SingleSpacedIsJoin | screenshot.js:197 | A text that is trimmed and single-spaced is its own words joined by single spaces. |
| JsText.NormalizeIsJoin | screenshot.js:197 | The normalised `innerText` is exactly the words of the element text, in order, joined by single spaces. |
| JsText.EmptyIsContained | screenshot1.js:198-199 | `contains(., "")` holds for every string, so an empty title matches every anchor in the XPath fallback. |
| JsText.StripQuotes | screenshot1.js:199 | Removing `"` keeps exactly the other characters, in order. So no `"` remains, and a title without one is unchanged. |
| JsText.DecimalRoundTrip | screenshot.js:17 | `Number` of the decimal numeral of n is n again. |
| JsText.LeadingZeroIgnored | screenshot1.js:15 | A leading zero does not change the value `Number` reads ("07" is 7). |
| Calendar.LessIsStrictTotal | screenshot.js:180-181 | Date comparison is irreflexive, asymmetric, transitive and total. |
| Calendar.Today | screenshot.js:177-178 | Today is the latest date whose midnight is not after the current instant, and the midnight of every earlier date lies before the current instant. |
| Calendar.MonthIndex | screenshot.js:20-21 | The month table gives a value exactly for its twelve keys, and that value is below 12. |
| Calendar.MonthNamesAreLetters | screenshot.js:20 | Every table key is three ASCII letters. |
| Cards.TitleOf | screenshot.js:167 | The title is the trimmed display paragraph when that is non-empty, otherwise the trimmed first paragraph, and it is trimmed. |
| Cards.DateTextOf | screenshot.js:168-170 | The date text is the trimmed upcoming-style date when non-empty, otherwise the trimmed past-style date (possibly empty). |
| Cards.HasNextRaceBadge | screenshot1.js:144-147 | True exactly when some badge span's trimmed text is "NEXT RACE". |
| Cards.EachPush | screenshot.js:164-173 | The push loop's output is the in-order list of the present callback results. |
| Cards.PushedExactly | screenshot.js:164-173 | The pushed list has no more entries than nodes, holds only present callback results, and holds every present callback result. |
| Cards.PushedAll | screenshot1.js:149-155 | When the callback pushes for every node, the output has one entry per node and entry `k` is node `k`'s. |
| Selection.Filter | screenshot.js:180-181 | The filter keeps only elements that pass, keeps every element that passes, and is no longer than its input. |
| Selection.FilterFirstTwo | screenshot1.js:15-25 | The first kept element is the first passing element; there is a second exactly when another element passes later, and it is the next such one. |
| Selection.FilterLast | screenshot1.js:16-20 | The last kept element is the last passing element. |
| Selection.StableSort | screenshot.js:180-181 | The sorted array is a permutation of its input and is ordered by the comparator. |
| Selection.Insert | screenshot.js:180-181 | Insertion adds exactly the new element and keeps a sorted array sorted. |
| Selection.HeadOfSortedFilter | screenshot.js:180-184 | The head of the sorted filter is absent exactly when nothing passes; otherwise nothing passing sorts ahead of it, and it sorts strictly ahead of every earlier passing element. |
| Selection.LatestFirst | screenshot.js:180-183 | Sorting the passing elements by a date, latest first, puts first the passing element with the latest date, the earliest in the input on a tie; there is none exactly when nothing passes. |
| Selection.EarliestFirst | screenshot.js:181-184 | Sorting the passing elements by a date, earliest first, puts first the passing element with the earliest date, the earliest in the input on a tie; there is none exactly when nothing passes. |
| Selection.FirstIndex | screenshot1.js:198-203 | The index of the first passing element (`fallback[0]`), absent exactly when none passes. |
| Selection.IndexOfFirst | screenshot.js:194-215 | The scanning loop returns the index of the first passing element, or -1 exactly when none passes. |
| Selection.Find | screenshot1.js:170 | `find` gives the first passing element, null exactly when none passes. |
| Screenshot.FirstMonthWord | screenshot.js:18 | The leftmost position where the month regex matches (a whole word, any case), or none when it matches nowhere. |
| Screenshot.ParseRaceDate | screenshot.js:15-27 | Parsed dates start in 2025, both days share one month, the end never precedes the start, and the end year is 2026 exactly when the end day, in 2025, would fall before the start. |
| Screenshot.ParseRaceDateAbsent | screenshot.js:16-19 | The parser returns null exactly for empty text, text with no digit, or text with no whole-word month name. |
| Screenshot.ParseRaceDateFields | screenshot.js:17-24 | The month comes from the first month match and gives Invalid Dates exactly when that match is not spelled as a table key; the start day is the first digit run and the end day the second, or the first again. |
| Screenshot.ParseDayRange | screenshot.js:15-27 | "D1 - D2 Mon" parses to D1 Mon 2025 to D2 Mon, in 2026 when D2 < D1. |
| Screenshot.ParseOtherCase | screenshot.js:18-21 | "D1 - D2 W", where W is a month name in a case the table lacks, gives Invalid Dates. |
| Screenshot.ParseCrossMonth | screenshot.js:18-25 | "D1 Mon1 - D2 Mon2" takes Mon1 for both days and rolls the end into 2026 when D2 < D1. |
| Screenshot.ExampleSameMonth | screenshot.js:15-27 | "28 - 30 Nov" is 28 to 30 November 2025. |
| Screenshot.ExampleUpperCase | screenshot.js:18-21 | "28 - 30 NOV" gives Invalid Dates. |
| Screenshot.ExampleRollover | screenshot.js:25 | "30 - 2 Dec" is 30 December 2025 to 2 December 2026. |
| Screenshot.ExampleCrossMonth | screenshot.js:18-25 | "30 Nov - 2 Dec" is 30 November 2025 to 2 November 2026. |
| Screenshot.BuiltCards | screenshot.js:164-173 | The cards are those of exactly the nodes whose date text parses, each built from its own node, in strictly increasing page order. |
| Screenshot.BuildCards | screenshot.js:164-173 | The card-building loop produces the pushed list. |
| Screenshot.PastUpcomingPartition | screenshot.js:180-181 | A card with dates is past or upcoming, never both; one ending today is upcoming; one with Invalid Dates is neither. |
| Screenshot.LastRace | screenshot.js:180-183 | The last race, when there is one, is one of the cards and is past; there is none exactly when no card is past. |
| Screenshot.NextRace | screenshot.js:181-184 | The next race, when there is one, is one of the cards and is upcoming; there is none exactly when no card is upcoming. |
| Screenshot.LastRaceIsLatestPast | screenshot.js:177-183 | The last race is the past card with the latest end, the earliest in page order on a tie, and is null exactly when no card is past. |
| Screenshot.NextRaceIsEarliestUpcoming | screenshot.js:177-184 | The next race is the upcoming card with the earliest start, the earliest in page order on a tie, and is null exactly when no card is upcoming. |
| Screenshot.LastEndsBeforeNext | screenshot.js:180-184 | When both exist, the last race ends before today, the next ends today or later, the last ends before the next, and the two differ. |
| Screenshot.MatchIgnoresSpacing | screenshot.js:197-198 | Two element texts with the same words match exactly the same title and date text, however white space separates the words. |
| Screenshot.Saved | screenshot.js:191-241 | `screenshotCard` returns true exactly when the primary scan or the fallback located an element and its capture succeeded. |
| Screenshot.ScreenshotCard | screenshot.js:191-241 | No card is skipped. Otherwise the first matching live handle is captured whenever one matches; failing that, the first re-scanned node that matches is captured through a fresh handle list. The element is "not located" exactly when neither scan matches or the re-scan fails. |
| Screenshot1.MonthOrJanuary | screenshot1.js:21-22 | `monthMap[w] ?? 0` is the table value for a key and 0 (January) otherwise, always below 12. |
| Screenshot1.DatesOfTokens | screenshot1.js:15-27 | Dates read from tokens are both in 2025, in one month below 12. |
| Screenshot1.ParseRaceDate | screenshot1.js:11-28 | Parsed dates are both in 2025, in one month below 12; nothing rolls the end over. |
| Screenshot1.ParseRaceDateAbsent | screenshot1.js:12-18 | The parser returns null exactly for empty text, or when no token is all digits, or no token is three or more letters. |
| Screenshot1.DatesOfTokensAbsent | screenshot1.js:15-18 | Reading tokens gives null exactly when no token is a number or no token is a word. |
| Screenshot1.ParseRaceDateFields | screenshot1.js:14-25 | The start day is the first numeric token, the end day the next numeric token or else the start day, and the month is read from the first three letters of the last word token. |
| Screenshot1.ParseDayRange | screenshot1.js:11-28 | "D1 - D2 W" parses to day D1 and day D2 of the month named by W's first three letters (January if unknown), in 2025, even when D2 < D1. |
| Screenshot1.ParseCrossMonth | screenshot1.js:16-25 | "D1 W1 - D2 W2" takes W2's month for both days. |
| Screenshot1.ExampleEndBeforeStart | screenshot1.js:24-27 | "30 - 2 Dec" is 30 December 2025 to 2 December 2025, an end before its start. |
| Screenshot1.ExampleUpperCase | screenshot1.js:20-22 | "28 - 30 NOV" is placed in January 2025. |
| Screenshot1.ExampleFullName | screenshot1.js:20-22 | "28 - 30 November" is 28 to 30 November 2025. |
| Screenshot1.ExampleCrossMonth | screenshot1.js:20-25 | "30 Nov - 2 Dec" is 30 December 2025 to 2 December 2025. |
| Screenshot1.CardAt | screenshot1.js:121-155 | Every node gives a card with its index, title, date text, parse (or null) and whether it carries a "NEXT RACE" badge. |
| Screenshot1.BuiltCards | screenshot1.js:120-156 | There is one card per node, in page order, card `i` built from node `i`. |
| Screenshot1.BuildCards | screenshot1.js:120-156 | The card-building loop produces the pushed list. |
| Screenshot1.LastRace | screenshot1.js:160-169 | The last race, when there is one, is one of the cards and is past; there is none exactly when no card is past. |
| Screenshot1.FirstFuture | screenshot1.js:165-170 | `future[0]`, when there is one, is one of the cards and starts at or after now; there is none exactly when no card does. |
| Screenshot1.NextRace | screenshot1.js:170 | The next race, when there is one, is a card with a "NEXT RACE" badge or one starting at or after now. When some card has the badge, the next race has it. There is none exactly when no card has the badge or starts at or after now. |
| Screenshot1.LastRaceIsLatestPast | screenshot1.js:160-169 | The last race is the card whose end midnight lies before now with the latest end, the earliest in page order on a tie, and is null exactly when no card is past. |
| Screenshot1.NextRaceByBadge | screenshot1.js:170 | When some card has a "NEXT RACE" badge, the next race is the first such card, whatever the dates. |
| Screenshot1.NextRaceByDate | screenshot1.js:165-170 | Without a badge, the next race is the card starting at or after now with the earliest start, the earliest on a tie, and is null exactly when no card starts at or after now. |
| Screenshot1.PastFutureCases | screenshot1.js:161-167 | A race that started before now and ends at or after now is neither past nor future; a card whose start does not follow its end is never both. |
| Screenshot1.ExampleLastIsNext | screenshot1.js:160-170 | A card parsed from "30 - 2 Dec" is, on 10 December at noon, both the last and the next race. |
| Screenshot1.ScreenshotCard | screenshot1.js:177-208 | No card is skipped. A card whose index has a live handle is captured at that index, or the run fails; a capture at an index happens only there. Otherwise the first anchor whose string value contains the unquoted title is captured, or the run fails; whenever such an anchor exists and captures, the fallback capture is taken. If no anchor contains the title, the fallback misses. |

## Left out

- Browser launch, navigation, waits, consent and overlay dismissal, image compositing, file names
  and logging: I/O around the core. The model receives the rendered card texts, the live handles
  and their outcomes as parameters.
- CSS selectors and cheerio queries: each `CardNode` field is given as the text the query returns.
- The current time is a parameter (`Instant`), not a clock read.
- JavaScript `Date` normalisation of out-of-range days (a day 0, 31 February, or a digit run in the
  thousands) is not modelled. Dates are raw (year, month, day) tuples and the days are not range
  checked, so "31 Feb" stays as written and is not moved to March.
- Time zones and daylight saving: a card date is local midnight, compared by calendar date and by
  milliseconds into the day.
- `Number` precision: digit runs are read as unbounded integers, so runs past 2^53 keep their exact
  value.
- Screenshot.ScreenshotCard and Screenshot1.ScreenshotCard: scrolling into view, the settle delays
  and the capture are merged into one success flag per element; errors are not distinguished from
  one another.
- Screenshot1.ScreenshotCard: a thrown screenshot error becomes the `Fatal` outcome. The rest of
  the run, including the second capture that this error skips, is not modelled.
- The XPath string value of an anchor is given as a parameter, not computed from the document.
- Run orchestration (capturing next, then last; exit codes) is not modelled.
- Neither script retries a capture, requires the title and the date text together, or tries the
  card's position last. In `screenshot.js` either the title or the date text suffices;
  `screenshot1.js` tries the card's index first, then the title, and an error aborts the run.
- `screenshot.js` matches the month regex ignoring case but looks the month up case-sensitively;
  the model keeps that mismatch as the `InvalidDates` outcome. Such a card is neither past nor
  upcoming, because an Invalid Date compares false.
