# HYU-ERICA-Board contest engine, modelled in Dafny

HYU-ERICA-Board is a web board of contests and student programmes at
Hanyang University ERICA. Its logic is a small engine that classifies
contests by deadline, plus the pure helpers its pages build on that engine.
This project models that engine and those helpers as pure Dafny functions
over immutable datatypes, and proves what they promise.

- **Dates** (`contest_date.dfy`, module `ContestDate`).
  - A calendar date is `(year, month, day)` with a proleptic Gregorian day number (`DayNo`). ECMAScript time values use the same calendar (section 21.4.1 of ECMA-262).
  - Also modelled: `parseYmd`, `ymd`, `startOfToday` and `daysLeftTo`.
  - The JS `Date` constructor's normalisation of an out-of-range day is `MakeDate`.
- **Status** (`contest_status.dfy`, module `ContestStatus`).
  - The `RULES` thresholds.
  - `getContestStatus` sorts a contest into ONGOING, URGENT, CLOSED_RECENT or HIDDEN.
  - `splitContestsByStatus` groups contests by status and sorts each group stably.
- **Contest record** (`contests.dfy`, module `Contests`): the `Contest` record and the deadline sort keys every page shares.
- **Card badge** (`contest_card.dfy`, module `ContestCard`): the card's D-day label, its urgency flag and the badge colour.
- **Calendar page**
  - Sidebar filters (`calendar_filters.dfy`, module `CalendarFilters`): the field keyword rules, the Korean prize parser, the prize brackets and the team-recruitment detector.
  - Month view (`calendar_page.dfy`, module `CalendarPage`):
    - START and DEADLINE events placed on the days of the shown month, and their order within a day;
    - the event badge;
    - today's deadlines;
    - month navigation and the grid.
- **List page** (`contest_list_page.dfy`, module `ContestListPage`): the filter and sort pipeline and the reset button.
- **Landing page** (`home.dfy`, module `Home`): the three sections, the urgent carousel as a state machine, and the three-week preview.
- **Data source** (`contest_source.dfy`, module `ContestSource`): admin records mapped to public contests, with the mock list as the fallback.
- **Benefit pages** (`benefit_markdown.dfy`, module `BenefitMarkdown`): `slugify`, the heading regex of `extractToc`, the table of contents, and the initially active section.
- **Shared helpers**
  - `text.dfy` (module `Text`): white space, `trim`, ASCII lower-casing, `split`/`join`, `parseInt` and decimal printing.
  - `sequences.dfy` (module `Sequences`): `filter` and a stable sort keyed by integer sequences.
  - `wrappers.dfy` (module `Wrappers`): `Option`.

Some inputs are passed in as parameters:
- the clock, as `now`/`today`;
- the local-storage entry, together with what `JSON.parse` made of it;
- `new Date(s).toISOString()`, as the function `isoDateOf`.

## Model

| member | source | states |
|---|---|---|
| ContestDate.ParseYmd | src/utils/contestDate.ts:3-7 | a missing or empty string gives null; any date it returns comes from a string of the `YYYY-MM-DD` shape |
| ContestDate.Ymd | src/utils/contestDate.ts:14-19 | for four-digit years the text has the `YYYY-MM-DD` shape and its three fields read back as year, 1-based month and day |
| ContestDate.ParseYmdInverse | src/utils/contestDate.ts:3-19 | a string whose year does not start with 0 parses to date d exactly when it is `ymd(d)` of a four-digit-year date (both directions of the round trip) |
| ContestDate.YmdThenParse | src/utils/contestDate.ts:3-19 | `parseYmd(ymd(d))` gives d back for four-digit years |
| ContestDate.StartOfToday | src/utils/contestDate.ts:9-12 | the result is on the same date as the clock, at or before it and less than one day before it |
| ContestDate.DaysLeftTo | src/utils/contestDate.ts:27-34 | null exactly when the deadline does not parse; otherwise the day-number difference between deadline and base |
| ContestDate.DaysLeftToIgnoresTimeOfDay | src/utils/contestDate.ts:31 | two bases on the same date give the same count |
| ContestDate.DaysLeftToNextDay | src/utils/contestDate.ts:31-33 | moving the base one day later lowers the count by exactly one and keeps it defined or undefined |
| ContestDate.DaysLeftToCountsDown | src/utils/contestDate.ts:21-26 | n days before the deadline the count is n: D-7 gives 7, D-day 0, the day after -1 |
| ContestDate.NextDay | pages/Home.tsx:160-161 | the day `setDate(getDate() + 1)` moves to has the next day number, across month and year ends |
| ContestDate.PrevDay | pages/CalendarPage.tsx:136 | the day before a date, which day 0 of a month stands for, has the previous day number |
| ContestDate.AddDays | pages/Home.tsx:160-161 | `setDate(getDate() + n)` lands on the date whose day number is DayNo(d) + n, for n of either sign |
| ContestDate.DayNoOrdered | src/utils/contestDate.ts:33 | dates in calendar order have increasing day numbers |
| ContestDate.DayNoInjective | src/utils/contestDate.ts:33 | distinct valid dates have distinct day numbers |
| ContestDate.MakeDate | pages/CalendarPage.tsx:83-84 | `new Date(y, m0, dd)` normalises the month into the year and counts the day from the first of that month |
| ContestDate.Weekday | pages/CalendarPage.tsx:137 | `getDay()` is between 0 and 6; WeekdayNext and EpochWeekday pin it to the calendar |
| ContestDate.WeekdayNext | pages/CalendarPage.tsx:137 | from each day to the next the weekday advances by one, Saturday (6) wrapping to Sunday (0) |
| ContestDate.EpochWeekday | pages/CalendarPage.tsx:137 | 1970-01-01 is a Thursday (4), as `getDay()` reports |
| ContestDate.TimeOfOrder | src/utils/contestStatus.ts:44-46 | time values of midnights are ordered as the dates are, and differ by whole days of milliseconds |
| ContestStatus.Classify | src/utils/contestStatus.ts:14-29 | null gives HIDDEN; a count of at least 8 is ONGOING, 0..7 URGENT, -7..-1 CLOSED_RECENT and below -7 HIDDEN (each an if-and-only-if, so exactly one status per count) |
| ContestStatus.GetContestStatus | src/utils/contestStatus.ts:14-29 | the same four ranges stated on the deadline's and today's day numbers, and HIDDEN for an unparseable deadline |
| ContestStatus.StatusNeverGoesBack | src/utils/contestStatus.ts:14-29 | as the reference day advances, a contest only moves forward through ONGOING, URGENT, CLOSED_RECENT and HIDDEN |
| ContestStatus.StatusTimeline | src/utils/contestStatus.ts:8-12 | a deadline seven days ahead is URGENT today and tomorrow, CLOSED_RECENT nine days on and HIDDEN sixteen days on |
| ContestStatus.GroupsCoverShown | src/utils/contestStatus.ts:36-41 | the three status filters together are, as a multiset, the contests that are not HIDDEN |
| ContestStatus.Group | src/utils/contestStatus.ts:36-46 | one group holds exactly the contests of that status, as a multiset of the filtered input, sorted by its key |
| ContestStatus.SplitContestsByStatus | src/utils/contestStatus.ts:31-49 | each group holds exactly its status's contests; the groups together equal the non-HIDDEN inputs as a multiset; ongoing and urgent are in non-decreasing deadline order and closedRecent in non-increasing order |
| ContestStatus.SplitIsStable | src/utils/contestStatus.ts:44-46 | contests with equal sort keys keep their input order in every group |
| Contests.SoonestFirstOrder | pages/ContestListPage.tsx:54-58 | in a list sorted by the 9e15-sentinel key, undated contests come after all dated ones and dated ones are in deadline order |
| Sequences.Sort | pages/ContestListPage.tsx:90-95 | the result is sorted by the key and is a permutation of the input |
| Sequences.SortIsStable | src/utils/contestStatus.ts:44-46 | elements with equal keys keep their relative order |
| Sequences.SortOfSorted | pages/CalendarPage.tsx:158-165 | sorting an already sorted list leaves it unchanged |
| Sequences.Filter | pages/CalendarPage.tsx:114-130 | the result keeps exactly the elements passing the test, each as often as in the input |
| ContestCard.DiffDays | components/ContestCard.tsx:10-18 | the ceiling of the difference between two local midnights is the day-number difference; an unparseable deadline gives NaN |
| ContestCard.DDayLabel | components/ContestCard.tsx:18-22 | `D-NaN` exactly for NaN, 마감 exactly for a negative difference, `D-Day` exactly for 0, and for a positive difference `D-` followed by digits that read back as it |
| ContestCard.GetDDay | components/ContestCard.tsx:10-23 | `D-NaN` exactly when the deadline does not parse; otherwise 마감, `D-Day` or `D-n` as the deadline is before, on or n days after today |
| ContestCard.UrgencyOfCount | components/ContestCard.tsx:22-27 | the label `D-n` for positive n is urgent exactly when n is at most 7 |
| ContestCard.NotUrgentWord | components/ContestCard.tsx:21-27 | `D-Day` and `D-NaN` are not urgent, because `parseInt` of `Day` and `NaN` is NaN |
| ContestCard.UrgentLabel | components/ContestCard.tsx:20-27 | a label is urgent exactly for a difference of one to seven days |
| ContestCard.UrgentExactly | components/ContestCard.tsx:10-27 | a card is urgent exactly when its deadline parses and is one to seven days ahead |
| ContestCard.ColourByDays | components/ContestCard.tsx:36-38 | red exactly for 1..7 days ahead; slate exactly for a past deadline; blue for D-day, 8 or more days, or no date |
| ContestCard.Colour | components/ContestCard.tsx:36-38 | red exactly for an urgent label, slate exactly for 마감 (which is never urgent), blue for every other label |
| ContestCard.CardUrgencyVersusStatus | components/ContestCard.tsx:27 | the card and the classifier differ only on D-day: the classifier says URGENT and the card is not urgent |
| CalendarFilters.ParsePrizeKRW | pages/CalendarPage.tsx:40-50 | with white space removed, the leftmost `억` amount wins; the result is null exactly when no `억` or `만` amount matches at any position |
| CalendarFilters.PrizeIgnoresSpaces | pages/CalendarPage.tsx:42 | inserting white space anywhere does not change the amount |
| CalendarFilters.NoDigitNoPrize | pages/CalendarPage.tsx:44-49 | a summary without an ASCII digit has no amount |
| CalendarFilters.PrizeOfSpacedManwon | pages/CalendarPage.tsx:41-48 | "총 상금 500만원" gives 5000000 |
| CalendarFilters.PrizeOfOneEok | pages/CalendarPage.tsx:44-45 | "1억" gives 100000000 |
| CalendarFilters.PrizeOfFractionalEok | pages/CalendarPage.tsx:44-45 | "1.5억" gives 150000000 |
| CalendarFilters.PrizeOfGroupedManwon | pages/CalendarPage.tsx:47-48 | "1,000만원" gives 10000000, with the thousands comma removed |
| CalendarFilters.PrizeOfFreeEntry | pages/CalendarPage.tsx:49 | "참가비 무료" gives null |
| CalendarFilters.MatchPrizeRange | pages/CalendarPage.tsx:52-61 | ALL matches anything; without an amount nothing else matches; each 만원 bracket is the same half-open range in won |
| CalendarFilters.PrizeOfManOnly | pages/CalendarPage.tsx:47-49 | when no `억` amount matches, the result is the first `만` amount, and the one at the start when there is one |
| CalendarFilters.PrizeBracketsPartition | pages/CalendarPage.tsx:52-61 | ALL always matches; null matches no other bracket; a known amount is in exactly one of the four half-open brackets in 만원 |
| CalendarFilters.TeamPhraseAtIff | pages/CalendarPage.tsx:65 | the greedy scan finds `팀원\s*모집` at a position exactly when 팀원, white space only, then 모집 starts there |
| CalendarFilters.FieldKeywordMatches | pages/CalendarPage.tsx:15-22 | a text holding any keyword of a field's pattern, in any ASCII case, matches that field |
| CalendarFilters.IsTeamRecruiting | pages/CalendarPage.tsx:63-66 | true exactly when the title, summary and tags text contains 팀원, white space and 모집; or 리크루팅; or `recruit` in any ASCII case |
| CalendarFilters.FilteredContests | pages/CalendarPage.tsx:111-131 | the contests passing the field, prize and team tests, each as often as in the input |
| CalendarFilters.NoFiltersKeepsAll | pages/CalendarPage.tsx:116 | with no field ticked, ALL prizes and no team filter, the list is unchanged and in order |
| CalendarPage.EndDayOf | pages/CalendarPage.tsx:31-33 | the closing day is the parsed deadline, else the parsed end date |
| CalendarPage.ContestEvents | pages/CalendarPage.tsx:150-156 | a contest adds a START exactly when its start date parses and a DEADLINE exactly when its closing day does, at most two events |
| CalendarPage.AllEvents | pages/CalendarPage.tsx:150-156 | the events are exactly those of the filtered contests whose day parses |
| CalendarPage.DayEvents | pages/CalendarPage.tsx:143-165 | a day's list holds exactly the events on that day of the shown month, all STARTs before all DEADLINEs, and titles in order within a kind |
| CalendarPage.DayEventsStable | pages/CalendarPage.tsx:158-165 | events with the same kind and title keep their contests' order |
| CalendarPage.EventsByDate | pages/CalendarPage.tsx:140-168 | a day is a key exactly when some filtered contest starts or closes on it in the shown month, and its list holds exactly that day's events |
| CalendarPage.SameDayStartAndDeadline | pages/CalendarPage.tsx:154-162 | a contest that opens and closes on the same day shows both events there, START first |
| CalendarPage.MarchScenario | pages/CalendarPage.tsx:143-156 | a contest from 2024-03-05 to 2024-03-20 has exactly days 5 and 20 in March 2024, with a START and a DEADLINE, and nothing in April |
| CalendarPage.EventBadge | pages/CalendarPage.tsx:26-38 | blue 신청 시작 exactly for START; slate 신청 마감 exactly for a DEADLINE whose closing day is before today; red 마감일 otherwise, also when no day parses |
| CalendarPage.EventBadgeAsWritten | pages/CalendarPage.tsx:26-38 | the page's `eventBadge` throws exactly for a DEADLINE whose closing day parses, and otherwise gives the intended badge |
| CalendarPage.DeadlineBadgeThrows | pages/CalendarPage.tsx:35 | every DEADLINE event of a contest whose deadline parses throws as written, while the intended badge is slate or red by the day difference |
| CalendarPage.DeadlineBadgeThrowsExample | pages/CalendarPage.tsx:35 | a deadline of 2024-03-20 seen on 2024-03-10 throws as written, where a red 마감일 is intended |
| CalendarPage.BadgeAgreesWithStatus | pages/CalendarPage.tsx:33-36 | for a parsed deadline the badge is slate exactly when `daysLeftTo` is negative, which is when the status is CLOSED_RECENT or HIDDEN |
| CalendarPage.TodaysDeadlines | pages/CalendarPage.tsx:170-175 | the contests whose deadline string is `ymd(today)`, each as often as in the input, ordered by title |
| CalendarPage.TodaysDeadlinesByDate | pages/CalendarPage.tsx:170-175 | the string comparison agrees with parsing: a contest closes today exactly when its deadline parses to today |
| CalendarPage.NextMonth | pages/CalendarPage.tsx:84 | the first day of the following month, December wrapping into January of the next year |
| CalendarPage.PrevMonth | pages/CalendarPage.tsx:83 | the first day of the preceding month, January wrapping into December of the previous year |
| CalendarPage.MonthNavigationInverse | pages/CalendarPage.tsx:83-84 | previous after next, and next after previous, return to the first of the month |
| CalendarPage.DaysInShownMonth | pages/CalendarPage.tsx:136 | day 0 of the next month is the month's length, between 28 and 31; February has 29 exactly in Gregorian leap years |
| CalendarPage.FirstWeekday | pages/CalendarPage.tsx:137 | `firstDay` is between 0 and 6 and is the weekday of the first of the month |
| CalendarPage.MonthCells | pages/CalendarPage.tsx:177-185 | `firstDay` blanks, then days 1..daysInMonth, and each day's column is its weekday |
| ContestListPage.StatusPasses | pages/ContestListPage.tsx:63-71 | ALL keeps everything; OPEN keeps parsed deadlines 8 or more days ahead and URGENT those 0 to 7 days ahead |
| ContestListPage.Query | pages/ContestListPage.tsx:79 | the compared term has no white space at either end and no ASCII capital |
| ContestListPage.FilterStages | pages/ContestListPage.tsx:60-87 | the three stages keep exactly the contests passing status, category and search, each as often as in the input |
| ContestListPage.FilteredContests | pages/ContestListPage.tsx:60-98 | a permutation of the contests passing every filter; DEADLINE order puts undated contests last and the rest in deadline order; NEWEST is id-descending |
| ContestListPage.Reset | pages/ContestListPage.tsx:247-253 | the reset clears search, category and status so that every contest passes, and keeps the sort order |
| ContestListPage.ResetShowsAll | pages/ContestListPage.tsx:247-253 | after a reset the page lists a permutation of all loaded contests |
| ContestListPage.StatusFilterNarrows | pages/ContestListPage.tsx:63-71 | anything shown under OPEN or URGENT is also shown under ALL |
| ContestListPage.SearchTermNormalised | pages/ContestListPage.tsx:79 | a term padded with white space and differing only in ASCII case gives the same query, and so the same result |
| Home.ShownSections | pages/Home.tsx:134-137 | the sections are the status groups, cut to their first six for ongoing and recently closed, with the urgent group whole |
| Home.HomeSections | pages/Home.tsx:134-137 | the urgent section is the whole urgent group; the other two are the first min(6, n) contests of their groups |
| Home.OngoingShowsSoonest | pages/Home.tsx:239 | no ongoing contest left out of the six shown closes earlier than one that is shown |
| Home.SectionsShowOnlyVisible | pages/Home.tsx:134-137 | every card shown in a section is a loaded contest that is not HIDDEN |
| Home.NextSlide | pages/Home.tsx:147-151 | the index moves right by one exactly when the next button is enabled |
| Home.PrevSlide | pages/Home.tsx:153-157 | the index moves left by one or stays; from a valid state it moves exactly when the prev button is enabled |
| Home.UrgentCountIs | pages/Home.tsx:143-145 | a changed urgent count resets the index to 0; an unchanged one leaves the carousel as it is |
| Home.Step | pages/Home.tsx:140-157 | only a reload changes the urgent count, and no click or reload takes the index out of range |
| Home.Run | pages/Home.tsx:140-157 | clicks alone never change the urgent count |
| Home.RunKeepsCarouselOk | pages/Home.tsx:140-157 | after any clicks and reloads, 0 <= index <= max(0, urgent - 4), so the four-card window stays within the urgent list |
| Home.SinglePage | pages/Home.tsx:261-268 | with four or fewer urgent contests both buttons are disabled |
| Home.InPreviewDays | pages/Home.tsx:159-169 | the preview's time test is the deadline being 0..21 days from today, inclusive |
| Home.UpcomingEvents | pages/Home.tsx:164-175 | exactly the contests, from all groups, whose deadline is 0..21 days ahead, each as often as in the input, in deadline order |
| ContestSource.ToDateOnly | src/services/contestSource.ts:23-28 | no date for a missing or empty input; otherwise the UTC calendar date the engine gives, or none for an invalid date |
| ContestSource.IdText | src/services/contestSource.ts:51 | a string id is kept as it is; a missing id prints as "undefined" and a null one as "null" |
| ContestSource.CoerceCategory | src/services/contestSource.ts:30-37 | the four names map to their categories, and anything else gives 교내 공모전 |
| ContestSource.CoerceCategoryInverse | src/services/contestSource.ts:30-37 | coercion inverts the category name, and each other category is reached from its own name only |
| ContestSource.MapAdminToPublic | src/services/contestSource.ts:39-65 | the fields are as follows: deadline is the end date, else the start date, else today; end_date repeats it; start_date comes only from the start date; organizer, tags and target come from the targets; source_url and apply_url are the apply URL; title and summary have their defaults |
| ContestSource.MappedDeadlineParses | src/services/contestSource.ts:40 | when the date source yields parseable days, every mapped contest has a parseable deadline |
| ContestSource.OrganizerIsFirstTag | src/services/contestSource.ts:53-58 | with targets, the organizer is the first tag |
| ContestSource.MapItems | src/services/contestSource.ts:75 | a null element fails the whole mapping; otherwise element i maps record i |
| ContestSource.FetchContestsForUserWeb | src/services/contestSource.ts:67-80 | the mock list when storage is missing or empty, the JSON fails or is not an array, or the mapped list is empty; otherwise the element-wise mapping in order |
| ContestSource.FetchNeverEmpty | src/services/contestSource.ts:67-80 | with a non-empty mock list the pages never receive an empty list |
| BenefitMarkdown.KeepSlugChars | src/components/BenefitMarkdownPage.tsx:27 | only characters of `[\w가-힣\s-]` remain, all taken from the input |
| BenefitMarkdown.KeepSlugCharsAppend | src/components/BenefitMarkdownPage.tsx:27 | the removal works character by character over concatenation |
| BenefitMarkdown.CollapseSpaces | src/components/BenefitMarkdownPage.tsx:29 | the result has no white space, and its other characters come from the input |
| BenefitMarkdown.CollapseRun | src/components/BenefitMarkdownPage.tsx:29 | a maximal white-space run becomes exactly one `-` |
| BenefitMarkdown.Slugify | src/components/BenefitMarkdownPage.tsx:24-30 | a slug never contains white space |
| BenefitMarkdown.SlugLowerAscii | src/components/BenefitMarkdownPage.tsx:26 | apart from the Kelvin sign and the dotted capital I, the slug's lower-casing is ASCII lower-casing |
| BenefitMarkdown.NonAsciiCapitals | src/components/BenefitMarkdownPage.tsx:26-27 | the Kelvin sign slugs to `k` and the dotted capital I to `i`, as their full lower case gives |
| BenefitMarkdown.SlugifyChars | src/components/BenefitMarkdownPage.tsx:24-30 | every slug character is a lower-case word character, a Hangul syllable or `-` |
| BenefitMarkdown.SlugifyIdempotent | src/components/BenefitMarkdownPage.tsx:24-30 | slugifying a slug changes nothing |
| BenefitMarkdown.SlugIgnoresPunctuation | src/components/BenefitMarkdownPage.tsx:27 | a character whose lower case holds nothing of `[\w가-힣\s-]`, anywhere in the title, does not change the slug |
| BenefitMarkdown.SlugifyWords | src/components/BenefitMarkdownPage.tsx:28-29 | lower-case words separated by single spaces slug to the same words joined by `-` |
| BenefitMarkdown.HeadingSlug | src/components/BenefitMarkdownPage.tsx:24-30 | "지원 대상" slugs to "지원-대상" |
| BenefitMarkdown.HeadingText | src/components/BenefitMarkdownPage.tsx:36-39 | a heading text needs white space after the hashes; it is the trimmed rest of the line and holds no line terminator |
| BenefitMarkdown.HeadingTextIsRegexMatch | src/components/BenefitMarkdownPage.tsx:36-39 | `\s+(.+?)\s*$` matches exactly when the rest splits into white space, text without line terminators, and white space; the trimmed capture is then the text |
| BenefitMarkdown.TocLine | src/components/BenefitMarkdownPage.tsx:36-39 | a heading line has level 2 or 3 and a text without line terminators |
| BenefitMarkdown.TocLineIsRegexMatch | src/components/BenefitMarkdownPage.tsx:36-39 | a line yields a heading exactly when `^(#{2,3})\s+(.+?)\s*$` matches it; the level is the number of hashes and the text is the trimmed capture |
| BenefitMarkdown.FourHashesIsNoHeading | src/components/BenefitMarkdownPage.tsx:36 | a line starting with four hashes is no heading |
| BenefitMarkdown.TocLineOfHeading | src/components/BenefitMarkdownPage.tsx:36-41 | "## 지원 대상\r" gives a level-2 entry with text "지원 대상" and id "지원-대상" |
| BenefitMarkdown.TocOfLines | src/components/BenefitMarkdownPage.tsx:35-43 | at most one entry per line, each of level 2 or 3 with the slug of its text as id |
| BenefitMarkdown.TocOfLinesMembers | src/components/BenefitMarkdownPage.tsx:35-43 | an entry is in the table exactly when some line yields it |
| BenefitMarkdown.TocOfLinesAppend | src/components/BenefitMarkdownPage.tsx:35-43 | the entries of two runs of lines follow each other in line order |
| BenefitMarkdown.ExtractTocOfLines | src/components/BenefitMarkdownPage.tsx:32-44 | the markdown's table is that of its `\n`-separated lines |
| BenefitMarkdown.ExtractToc | src/components/BenefitMarkdownPage.tsx:32-44 | every entry has level 2 or 3 and the slug of its text as id; ExtractTocOfLines ties it to the lines |
| BenefitMarkdown.InitialActiveId | src/components/BenefitMarkdownPage.tsx:55 | `toc[0]?.id ?? ''`: the first entry's id, or empty for an empty table |
| BenefitMarkdown.InitialActiveIsFirstHeading | src/components/BenefitMarkdownPage.tsx:55 | the first active id is the slug of the first heading line, or "" when there is none |
| Text.Lower | pages/ContestListPage.tsx:79-84 | the same length, each character lower-cased if it is an ASCII capital and kept otherwise |
| Text.LowerTrim | pages/ContestListPage.tsx:79 | trimming and lower-casing can be done in either order |
| Text.Split | src/components/BenefitMarkdownPage.tsx:33 | at least one piece, and no piece holds the separator |
| Text.Trim | src/components/BenefitMarkdownPage.tsx:28 | the result neither starts nor ends with white space |
| Text.TrimSlice | src/components/BenefitMarkdownPage.tsx:28 | `trim` removes only white space: the result sits in the input between two all-space runs |
| Text.TrimPadded | src/components/BenefitMarkdownPage.tsx:28 | white space around a string does not change its trim |
| Text.SplitJoin | src/components/BenefitMarkdownPage.tsx:33 | splitting joined pieces that hold no separator gives the pieces back |
| Text.JoinSplit | src/components/BenefitMarkdownPage.tsx:33 | joining the pieces of a split with the separator gives the string back |
| Text.ParseIntOfNatToString | components/ContestCard.tsx:27 | `parseInt(String(n))` is n |
| Text.ParseIntNaN | components/ContestCard.tsx:27 | `parseInt` of a string whose first character is not white space, a sign or a digit is NaN |

## Findings

| source | as written | input that shows it | evidently intended | confidence | as-written member | corrected member |
|---|---|---|---|---|---|---|
| pages/CalendarPage.tsx:35 | `eventBadge` calls `daysUntil(end, today)`, which is neither defined nor imported, so it throws a ReferenceError for every DEADLINE event whose closing day parses, and the calendar grid (line 198) fails to render any month that shows one | a contest with deadline "2024-03-20", seen on 2024-03-10 | the whole days from today to the closing day, giving 신청 마감 once it has passed and 마감일 otherwise | not executed; high (no definition or import of `daysUntil` in the file) | CalendarPage.EventBadgeAsWritten | CalendarPage.EventBadge |

## Left out

- Time zones and daylight saving are not modelled. Every local day is exactly 24 hours long, so the `Math.floor` in `daysLeftTo` and the `Math.ceil` on the card both give whole day-number differences. A 23-hour day would break that.
- `DiffDays` reads `new Date(deadline)` as local midnight. An engine reads a date-only string as UTC midnight, and the card then moves it to local midnight. Away from UTC, that can shift the card's count by a day.
- `ParseYmd` accepts exactly `YYYY-MM-DD` naming a day that exists, with the shape checked before the date is built. Engines can also accept other shapes, and they differ on out-of-range days such as 2024-02-30. Expanded six-digit years are also left out.
- `Ymd` prints `String(year)` unpadded, as the code does. The round-trip lemmas therefore assume four-digit years.
- `MatchPrizeRange` compares `prize / 10000` as an exact rational, where the code divides doubles. For every amount below 2^53 won the double quotient falls on the same side of 100, 300 and 1000 as the exact one, and every amount above that is in the top bracket either way.
- `ParsePrizeKRW` computes exact integers, where the code computes doubles. In the 억 branch `EokValue` takes the exact decimal times 10^8, rounded half up, while `Math.round(parseFloat(x) * 1e8)` rounds twice in floating point. The two agree for at most eight fractional digits and an amount below 2^51 won. More fractional digits can move the result by one won, and that can cross a bracket edge: "0.009999995억" is exactly 999999.5 won, which the model rounds to 1000000 and the page, through the double 999999.4999999999, to 999999. In the 만 branch `ManAt` reads and multiplies exactly, while `parseInt(x) * 10000` loses precision once the amount passes 2^53 won: "12345678901234567만" gives 123456789012345670000 here and the double 123456789012345683968 on the page. Every amount that large is at least 1000만원, so the `MatchPrizeRange` brackets are unaffected by it.
- `ManAt` reads the number with `parseInt`. Its hexadecimal `0x` prefix cannot occur here, because the matched text is made of digits and commas.
- `localeCompare` (titles in Korean collation, and NEWEST on ids) is modelled as code-point order (`Codes`). That is a total order, while real collation may rank strings differently.
- `Lower` models `toLowerCase` in the list page's search as ASCII lower-casing. The search lower-cases titles, organizers and tags, and there non-ASCII capitals are not folded.
- The field and team detectors use the regex `i` flag, not `toLowerCase`. Their patterns are ASCII or Hangul, and a non-Unicode `i` flag never folds a non-ASCII character to an ASCII one, so ASCII lower-casing is exact for them.
- `Slugify` lower-cases the ASCII capitals, the Kelvin sign and the dotted capital I (`SlugLowerChar`). It leaves every other character as it is, where `toLowerCase` maps more letters. Those letters lie outside `[\w가-힣\s-]` both before and after lower-casing, so the slug drops them either way.
- `IsSpace` is the ECMAScript `\s` set. `IsWordChar` is `[A-Za-z0-9_]`.
- `ToDateOnly` takes `new Date(s).toISOString().split("T")[0]` as a parameter `isoDateOf`, with today's ISO date as `todayIso`. This is because they depend on the engine's date parser and the UTC clock.
- `FetchContestsForUserWeb` gets `localStorage` and `JSON.parse` as a `Stored` value. Other ways a malformed element can make the mapping throw are left out: only `null` elements are modelled. The async loading, the `mounted` flags and the error and loading state of every page are also left out.
- `EventBadge` is the intended badge. The page as written throws at the call of `daysUntil`, which pages/CalendarPage.tsx neither defines nor imports. That behaviour is `EventBadgeAsWritten`; see Findings. `DaysUntil` is taken to be the day-number difference that `daysLeftTo` computes.
- `MakeDate` does not model the Date constructor's mapping of years 0 to 99 to 1900 to 1999 (section 21.4.2.1 of ECMA-262). `NextMonth`, `PrevMonth`, `DaysInShownMonth`, `FirstWeekday` and `MonthCells` inherit this. For example, `new Date(99, 10, 1)` is 1999-11-01, and `PrevMonth` from 0099-12 gives 0099-11-01. The calendar starts from the clock's month, so these years are reached only after thousands of clicks back. `StartOfToday` and `DaysLeftTo` rebuild dates from the clock's own year and never meet them.
- `MapAdminToPublic` sees `targets` as a list of strings. A `null` inside the stored array is left out: on the page it makes `targets[0] ?? …` fall back to the default organizer, and it prints as an empty piece in the joined target text. Values of the wrong JSON type are also left out (a number id, or `targets` that is not an array, which the page replaces by `[]`).
- Rendering is left out: JSX, CSS, routing, the modal, the scroll-follow sidebar of the landing page, and the IntersectionObserver scroll-spy and back-to-top of the benefit page. The `isToday` cell highlight of the calendar grid is also left out.
- `setActiveId` after scrolling is left out; only the initial active id is modelled.
- The mock contest list (data/mockContests.ts) is not part of this model. It is generated from the wall clock, so `FetchContestsForUserWeb` takes the mock list as a parameter.
- src/utils/contestStatus.ts imports `daysLeftTo` and `parseYmd` from `./date`, which is not part of this model. The definitions in src/utils/contestDate.ts are taken as that module.
