# tir — a verified model of the time.ir extraction core

tir is a crawler for the Iranian calendar site time.ir. It fetches the page,
parses it with lxml, and turns a few fragments into typed records:

- today's solar (Shamsi) and gregorian `Date`;
- the month grid as a list of `Day` cells, with disabled / today / holiday
  flags and three day numbers (solar, gregorian, lunar "qamari");
- the quote of the day.

It then prints these and sends desktop notifications: the quote, with a
display time estimated from its length, and a holiday warning for the next
two days.

This project models the part of tir that carries logic, in Dafny, and proves
properties of it:

- `search`: the depth-first, document-order element search. It is the only
  way the extractors find anything on the page.
- The translators of `tir/utils.py`:
  - Persian (U+06F0–U+06F9) and Arabic-Indic (U+0661–U+0669, with '.' for
    zero) digits become ASCII digits, padded to two places;
  - Farsi weekday and month names are resolved by the code points of their
    first letters;
  - human dates ("weekday - day month year") and numeral dates ("y/m/d" or
    "y-m-d") are taken apart;
  - `find_season` gives a month's season, under solar or gregorian
    boundaries.
- The extractors `find_dates`, `find_date`, `find_calendar`, `parse_day`,
  `find_quote` of `bin/crawler.py`.
- The three notification decisions of `bin/crawler.py`: the reading-time
  estimate, the guard that skips a notification with a missing argument,
  and the holiday message chosen from the two days after today.

Modules:

- `Markup`: the parsed page as an immutable element tree (`Node`) and the
  two ways `search` compares an attribute side (`Matcher`).
- `Failures`: the exceptions as a `Result` datatype.
- `Text`: the Python 3 `str` operations the code relies on.
- `Search`, `Seasons`, `Utils`, `Crawler`, `Notify`: the code.
- `Records`: the namedtuples.

How the model is cast:

- The parsed page is an input: a `Node` tree with ordered attribute pairs,
  children and an optional text. lxml's `.text` is `None` for an element
  without text, so it is an `Option`.
- Python's `str.isalpha` is Unicode-wide. It is a parameter
  `isLetter: char -> bool` of every member that needs it.
- Each exception the code raises or lets escape is an `Err`:
  - `TagNotFound` from `search`;
  - `ValueError` from the translators;
  - `IndexError` for a missing list element;
  - the `TypeError`/`AttributeError` of using a `None` text.
- Failures keep Python's evaluation order, so the first failing step decides
  the error.

Where the pieces of the code do not fit together, the model takes the
evident composition:

- `tir/utils.py` calls `find_season`, which is defined only in `tir/tir.py`.
- `bin/crawler.py` calls the numeral-date translator
  `transform_numeral_date`, but `tir/utils.py` defines it as
  `transform_numerical_date`.
- `bin/crawler.py` builds a `Date` with a `season_name` field that the
  namedtuple in `tir/tir.py` lacks. `Records.Date` has the field.

Three consequences of the code that are easy to misread:

- ASCII digits are not in the numeral table of `transform_number`, so they
  fail.
- A translated number is at least two digits long, and longer when its input
  is; years keep four.
- Month 8 (Aban) is in the third solar season ("03", Pa'eez).

Python 3's `isalpha` holds for Persian letters. So `transform_date` returns
a Farsi weekday written without a zero-width non-joiner unchanged. The
model shows this through the `isLetter` parameter and draws no conclusion
about which letters the page uses.

## Model

| member | source | states |
|---|---|---|
| Text.Find | tir/tir.py:71-77 | `find` gives -1 exactly when the needle occurs nowhere; otherwise it gives an occurrence with none before it |
| Text.ContainsIff | tir/tir.py:71-77 | the `find(...) != -1` test of `_has_attr` holds exactly when the needle occurs somewhere in the string |
| Text.Split | tir/utils.py:11 | `split(sep)` gives at least one piece, and no piece contains the separator |
| Text.JoinSplit | tir/utils.py:11 | joining the pieces of `split(sep)` with the separator gives back the string |
| Text.SplitWithoutSeparator | tir/utils.py:25 | a string without the separator splits into itself alone |
| Text.Words | tir/utils.py:34 | `split()` gives non-empty words without whitespace; a string that starts with a non-space starts its first word |
| Text.WordsSkipSpace | tir/utils.py:34 | whitespace before the first word adds no word |
| Text.WordsCons | tir/utils.py:34 | a whitespace-free word followed by whitespace is the first word, followed by the words of the rest: `split()` cuts at every run of whitespace |
| Text.ThreeWords | tir/utils.py:34 | three whitespace-free words joined by blanks split back into exactly those three words |
| Text.WordsOfWord | tir/utils.py:34 | a non-empty string without whitespace is a single word |
| Text.Strip | tir/utils.py:12 | `strip()` leaves a substring with only whitespace around it, and it neither starts nor ends with whitespace |
| Text.StripUntouched | tir/utils.py:25 | a string with no whitespace at either end is unchanged by `strip()` |
| Text.StripPadded | tir/utils.py:12 | whitespace around a core that has none at its ends is exactly what `strip()` removes |
| Text.DashPieces | tir/utils.py:11 | "a - b" with no '-' in a or b splits into "a " and " b" |
| Text.Replace | tir/utils.py:25 | `replace('/', '-')` keeps the length and changes exactly the '/' characters |
| Search.HasAttr | tir/tir.py:68-82 | `_has_attr` holds iff one attribute pair satisfies both matchers, name and value on the same pair |
| Search.SearchChildren | tir/tir.py:84-95 | `_search` over a list of siblings returns only an element that passes the test; `Search.SearchIsPreorderScan` pins down which |
| Search.FirstSelectedIsFirst | tir/tir.py:84-95 | the document-order scan finds nothing iff no element qualifies, else the earliest qualifying one |
| Search.SearchIsPreorderScan | tir/tir.py:84-95 | the recursive `_search` returns the first qualifying element of the pre-order list of descendants; a node that fails the test is descended into before its next sibling |
| Search.SearchNode | tir/tir.py:97-100 | `search` fails only with `TagNotFound(tag, attr, val)`, and a found element has the tag and, when an attribute is asked for, a matching pair |
| Search.PreorderSmaller | tir/tir.py:84-95 | every descendant in the pre-order list is smaller than the siblings it was reached from |
| Search.SearchFindsFirstDescendant | tir/tir.py:84-100 | `search` raises iff no descendant qualifies; else it returns the first qualifying one in document order, a strict descendant and never the root |
| Search.ValueIgnoredWithoutAttribute | tir/tir.py:86-89 | with no attribute, the value matcher has no effect on the result |
| Seasons.SeasonIndex | tir/tir.py:43-62 | an arithmetic reference for the season boundaries, always between 1 and 4 |
| Seasons.SeasonNumber | tir/tir.py:43-62 | the if/elif chain gives "0" followed by the reference index, for both calendars and every integer |
| Seasons.FindSeason | tir/tir.py:36-64 | the season number is "0" followed by the reference index (solar from months 1, 4, 7, 10; gregorian from 3, 6, 9, 12 wrapping round the year; every other integer in the fourth season); the name is from column 0 of the season table for "solar", column 1 otherwise |
| Seasons.SeasonNumberRange | tir/tir.py:43-63 | the season number is one of "01" to "04" |
| Seasons.SeasonExamples | tir/tir.py:43-63 | month 1 solar is Bahar "01", 12 solar Zemestan "04", 3 gregorian Spring "01", 12 and 2 gregorian Winter "04" |
| Utils.GlyphDigit | tir/utils.py:89-97 | every table glyph maps to an ASCII digit |
| Utils.NumeralTableIsDigitBlocks | tir/utils.py:89-97 | the 20 table keys are exactly the Persian block, the Arabic-Indic 1–9 and '.', each mapped to its digit |
| Utils.PersianAndArabicAgree | tir/utils.py:91-96 | a Persian and an Arabic-Indic glyph of the same value map to the same ASCII digit |
| Utils.GlyphIsNotSeparator | tir/utils.py:89-97 | no table glyph is whitespace, '/' or '-' |
| Utils.MapGlyphs | tir/utils.py:99-103 | the glyph loop succeeds with the char-wise translation, or fails naming the first glyph outside the table |
| Utils.MapGlyphsPrefixFails | tir/utils.py:99-102 | once a prefix has an unknown glyph, the whole input fails with the same error |
| Utils.ZeroFill | tir/utils.py:104 | `zfill(2)` pads with '0' on the left to length 2 and leaves longer strings alone |
| Utils.Numeral | tir/utils.py:85-104 | `transform_number` succeeds iff every char is a table glyph (ASCII digits fail); the result is ASCII digits of length max(2, n), '0'-padded, each glyph translated in place; else the first bad glyph is reported |
| Utils.TransformNumber | tir/utils.py:85-104 | the appending loop returns exactly `Numeral` of its input |
| Utils.TwoDigitRoundTrip | tir/utils.py:99-104 | a number below 100 written in Persian digits translates to two ASCII digits with that value |
| Utils.FindWeekday | tir/utils.py:54-57 | the weekday scan finds a name iff some entry has the code point, and the name is that entry's |
| Utils.TransformWeekday | tir/utils.py:43-58 | `transform_weekday` succeeds iff the token has at least 4 chars and its first code point is in the table; otherwise `UnknownWeekday(token)` |
| Utils.WeekdayTableDistinct | tir/utils.py:47-53 | the seven code points, and the seven names, are pairwise distinct |
| Utils.WeekdayByFirstLetter | tir/utils.py:54-57 | a token of 4 or more chars resolves to the entry of its first code point, whatever follows |
| Utils.FarsiWeekdays | tir/utils.py:45-57 | the seven Farsi weekday names resolve to Shanbeh … Jom'eh |
| Utils.FindMonth | tir/utils.py:79-82 | the month scan finds a name iff some entry accepts the code-point pair; an entry without a second code ignores the second char |
| Utils.TransformMonthAsWritten | tir/utils.py:60-83 | `transform_month` as written: tokens shorter than 3 chars fail; otherwise the same as the corrected `TransformMonth` |
| Utils.TransformMonth | tir/utils.py:60-83 | with the guard at 2 chars: succeeds iff some table entry accepts (first code with U+0622 read as U+0627, second code); otherwise `UnknownMonth(token)` |
| Utils.MonthEntriesDisjoint | tir/utils.py:64-82 | no code-point pair is accepted by two entries, so the scan order does not matter |
| Utils.MonthNamesDistinct | tir/utils.py:64-75 | the twelve month names are pairwise distinct |
| Utils.MonthByEntry | tir/utils.py:76-82 | a token resolves to the one entry that accepts its code points |
| Utils.MonthHatNormalised | tir/utils.py:77-78 | a month starting with 'آ' resolves as the same word starting with 'ا' |
| Utils.FarsiMonthsResolve | tir/utils.py:64-83 | each of the twelve Farsi month names resolves to its own row, in calendar order |
| Utils.DeyRejectedAsWritten | tir/utils.py:62 | the guard as written refuses "دی" (Dey), which the corrected guard resolves to "Dey" |
| Utils.GuardsDisagreeOnlyOnTwoChars | tir/utils.py:62-83 | the guard as written and the corrected guard give different results exactly on two-character tokens that the corrected guard accepts |
| Utils.TwoCharMonthsAsWritten | tir/utils.py:62-83 | "تی" and "اب" resolve to Tir and Aban under the corrected guard and are refused by the guard as written |
| Text.SplitAfterFirst | tir/utils.py:11 | splitting at a first separator gives the part before it followed by the pieces of the rest |
| Utils.TransformDateWithStringMonth | tir/utils.py:32-41 | succeeds iff there are at least 3 words and either the third is alphabetic or all of day, month and year translate; fewer words give `MissingField`; an alphabetic third word gives (t0, t2, t1) untouched; otherwise (number of t2, month of t1, number of t0); a failure is that of the first word that fails, in the order day, month, year |
| Utils.FarsiDateWords | tir/utils.py:32-41 | "d m y" with numeral day and year and a known month gives (year, month, day) translated |
| Utils.TransformDate | tir/utils.py:8-16 | succeeds iff the weekday is alphabetic or resolves, there is a second '-' piece, and that piece translates; the weekday is the stripped first '-' piece, unchanged if alphabetic, else through `transform_weekday`; the date comes from the stripped second piece; the failure is the weekday's, else `MissingField` for a missing second piece, else the date's |
| Utils.WeekdayDashDate | tir/utils.py:8-16 | "weekday - date" gives the kept or resolved weekday and the translation of the date part alone |
| Utils.HumanDate | tir/utils.py:8-41 | a well-formed "weekday - d month y" gives the weekday and (year, month, day) translated |
| Utils.TransformDateIgnoresLaterPieces | tir/utils.py:11-15 | pieces after the second '-' piece never change the result |
| Utils.TransformNumericalDate | tir/utils.py:18-30 | with the fields of the stripped input split on '-' after '/' became '-': succeeds iff there are at least three fields and the first three translate; the result is the three translations, later fields ignored, with the season `find_season` of the month's value, solar iff the input contains '/'; otherwise the first failure in Python's order (field 0, a missing field 1, field 1, a missing field 2, field 2); year, month and day are ASCII digits, month and day at least two |
| Utils.KindOfSeparator | tir/utils.py:21-24 | "y/m/d" is solar and "y-m-d" gregorian |
| Utils.ThreeFields | tir/utils.py:25 | "y/m/d" and "y-m-d" both split into the three fields y, m, d |
| Utils.NumericalDateFields | tir/utils.py:18-30 | for numeral fields y, m, d joined by '/' or '-', the result is their translations with the season of m under the separator's calendar |
| Crawler.TextOf | bin/crawler.py:97-98 | reading `.text` as a string fails with `MissingText` exactly when it is `None` |
| Crawler.DateFromTexts | bin/crawler.py:100-109 | weekday and month name come from `transform_date` of the human text; year, season, season name, month and day come from the numeral text; the result is a valid date; it succeeds iff both texts exist and both translate, and otherwise fails with the first failing step's error in the order the code runs them (missing human text, `transform_date`'s error, missing numeral text, `transform_numerical_date`'s error) |
| Crawler.FindDate | bin/crawler.py:95-109 | a found date is valid; a missing "today-" + kind row, "show date" span or "show numeral" span fails with its own `TagNotFound`, in that order; otherwise the date is `DateFromTexts` of the first such row's two spans |
| Crawler.HumanDayDiscarded | bin/crawler.py:100-109 | with the same numeral date, two dates that agree on weekday and month name are equal: the human date's day and year are discarded |
| Crawler.FindDates | bin/crawler.py:86-92 | both dates found are valid; a missing topWrapper, todayDate or row element fails with its own `TagNotFound`; otherwise the result is the shamsi then the gregorian `FindDate` of the same rows, or the first of their errors |
| Crawler.TodayClass | bin/crawler.py:128-133 | the today flag holds iff some class attribute contains "today" and not "disabled" |
| Crawler.NumberOf | bin/crawler.py:140-142 | a day number exists iff the element was found, has text, and the text translates; it is then at least two ASCII digits; otherwise the error is the search's `TagNotFound`, then a missing text, then `transform_number`'s error for the first bad glyph |
| Crawler.CellNumber | bin/crawler.py:140-142 | a cell's day number is at least two ASCII digits |
| Crawler.CellDay | bin/crawler.py:126-148 | succeeds iff the cell has a first child and its jalali, miladi and qamari numbers are all read; no children gives `MissingField`, otherwise the error of the first number that fails; disabled iff a class contains "disabled"; today iff a class contains "today" and not "disabled"; holiday iff the first child's class contains "holiday"; the numbers are those three |
| Crawler.DayOfCell | bin/crawler.py:123-125 | a `br` cell gives `None`; any other cell gives its `Day` or its error |
| Crawler.ScanClass | bin/crawler.py:136-139 | the holiday loop sets its flag iff some class attribute contains the word |
| Crawler.ReadNumber | bin/crawler.py:140-142 | the search-text-translate step returns exactly `CellNumber` |
| Crawler.ParseDay | bin/crawler.py:123-148 | the flag loops and the three lookups return exactly `DayOfCell` of the cell |
| Crawler.DisabledIsNotToday | bin/crawler.py:128-133 | with distinct attribute names, a class containing "disabled" rules out the today flag |
| Crawler.DayFlagsExclusive | bin/crawler.py:128-133 | a parsed day is never both disabled and today |
| Crawler.NonBreaks | bin/crawler.py:119 | no more cells are kept than there are children, and none of them is a `br` |
| Crawler.NonBreaksKeeps | bin/crawler.py:119 | a cell is kept iff it is a child and not a `br` |
| Crawler.NonBreaksOne | bin/crawler.py:119 | a single cell is kept iff it is not a `br` |
| Crawler.NonBreaksAppend | bin/crawler.py:119 | the filter distributes over concatenation, so the kept cells keep their order |
| Crawler.ParseCells | bin/crawler.py:119 | the comprehension gives at most one `Day` per child |
| Crawler.ParseCellsSucceeds | bin/crawler.py:119 | the comprehension gives a list iff every non-`br` child parses |
| Crawler.ParseCellsOnePerCell | bin/crawler.py:119 | one result per non-`br` child, in document order |
| Crawler.ParseCellsFirstError | bin/crawler.py:119 | a failing comprehension fails with the error of the first non-`br` child that fails |
| Crawler.FindCalendar | bin/crawler.py:112-120 | each of the six nested elements down to the dayList fails with its own `TagNotFound`, in order; otherwise the result is `ParseCells` of the dayList's children with `CellDay`; every day has its three numbers as at least two ASCII digits |
| Crawler.FindQuote | bin/crawler.py:151-156 | fails only with `TagNotFound`, each missing element with its own, in search order; otherwise author and text are the `.text` (possibly `None`) of the first `a` whose class contains "quoteAuthor" and the first `span` whose class contains "quoteText" inside the randomQuote block of the topWrapper block |
| Notify.WordTime | bin/crawler.py:379-387 | a word costs at least 200 + 50 per char, and exactly 200 only when it is empty |
| Notify.DetectTime | bin/crawler.py:371-389 | `None` for `None`; otherwise the three nested loops compute exactly `ReadingTime` |
| Notify.WordsTimeAtLeast | bin/crawler.py:378-387 | the words of a sentence cost at least 200 each |
| Notify.SentencesTimeAtLeast | bin/crawler.py:376-388 | each sentence costs at least 250 |
| Notify.ReadingTimeBounds | bin/crawler.py:371-389 | every text costs at least 250, and exactly 250 iff it is the empty string |
| Notify.Present | bin/crawler.py:393-395 | the argument values exist iff no argument is `None` |
| Notify.NotifyCommand | bin/crawler.py:392-396 | nothing is run iff some argument is `None`; otherwise the command line is the command followed by the arguments |
| Notify.FirstToday | bin/crawler.py:434-437 | the first day marked today, or none |
| Notify.NotToday | bin/crawler.py:434-437 | no kept day is marked today, and there are no more of them than days |
| Notify.NotTodayKeeps | bin/crawler.py:434-437 | a day is kept iff it is one of the days and not marked today |
| Notify.NotTodayOne | bin/crawler.py:434-437 | a single day is kept iff it is not marked today |
| Notify.NotTodayAppend | bin/crawler.py:434-437 | the filter distributes over concatenation, so the kept days keep their order |
| Notify.FindTwoNextDays | bin/crawler.py:430-443 | the loop with `break` returns the first two non-today days after the first today, or `None` where there are fewer |
| Notify.NoTodayNoNextDays | bin/crawler.py:430-443 | with no day marked today both next days are `None` |
| Notify.NextTwoDaysFollowToday | bin/crawler.py:430-443 | when the two cells after the first today are ordinary days, they are the two next days |
| Notify.HolidayText | bin/crawler.py:415-422 | each of the three messages is chosen exactly in its case (both, only tomorrow, only the day after), and `None` exactly when neither is a holiday |
| Notify.HolidayArguments | bin/crawler.py:425-428 | the arguments are "-t", "5000", "time.ir" and the message, which is present iff one of the two next days is a holiday |
| Notify.HolidayNotifySkipped | bin/crawler.py:412-428 | the holiday notification runs iff one of the two next days is a holiday, as `notify-send -t 5000 time.ir <message>` |

## Left out

- `Request` (tir/tir.py:103-120): the network fetch and its body-size assertion.
- `HTMLParser` (tir/tir.py:123-134): lxml parsing. The model takes the parsed tree as its input.
- `DrawCalendar`, `PrintTime`, `PrintDate` (bin/crawler.py:160-361): terminal output with colour codes.
- `Notify.notify`'s `subprocess.call`: `Notify.NotifyCommand` gives the command line that would run, and stops there.
- `NotifyQuote` (bin/crawler.py:399-407): it formats `quote.author` with `str.format`, which turns `None` into the text "None". Only its reading time, `Notify.DetectTime`, is modelled.
- `Caching`, option parsing, logging, `main` and `sys.exit`: file I/O, the wall clock and orchestration.
- The message text of `TagNotFound` (tir/exceptions.py): it depends on Python's `repr`. The error carries the tag and the matchers instead.
- Python `bool`/`int` mixing: `found_today += 1` turns the flag into a count. Only its truth value is used, so the model keeps a `bool`.
- The truth test `if day1:`: a `Day` namedtuple always tests true, so the model tests `Some?`.
- Utils.FarsiDateWords, Utils.HumanDate, Utils.TransformDateWithStringMonth, Utils.TransformDate, Crawler.DateFromTexts, Crawler.FindDate, Crawler.FindDates: they resolve the month through the corrected `Utils.TransformMonth` (see Findings). Tokens of one character, or of three or more, get the same result under both guards. Every two-character token that a table row accepts succeeds here where `transform_month` as written raises `ValueError`: "دی", and also "تی", "اب", "خر" and the like (`Utils.GuardsDisagreeOnlyOnTwoChars`).

## Findings

| source | as written | input that shows it | evidently intended | confidence | as-written member | corrected member |
|---|---|---|---|---|---|---|
| tir/utils.py:62 | `transform_month` refuses tokens shorter than 3 characters | "دی" (Dey, the tenth month; 2 characters) raises `ValueError` although its table row (1583, no second code) matches | refuse only tokens shorter than the 2 characters the lookup reads | not executed; high — the page spells Dey with two letters, so its spelling never reaches the table row for Dey; only a token of three or more characters starting with د does | Utils.TransformMonthAsWritten, Utils.DeyRejectedAsWritten | Utils.TransformMonth, Utils.FarsiMonthsResolve |
