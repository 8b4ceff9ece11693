/**
 * The month view of pages/CalendarPage.tsx: which events land on which day
 * of the shown month and in what order, the badge each event carries, the
 * contests closing today, and the month arithmetic behind the grid.
 */
module CalendarPage {
  import opened Wrappers
  import opened Text
  import opened Sequences
  import opened ContestDate
  import opened Contests
  import opened ContestStatus

  // ----- events -------------------------------------------------------------

  datatype EventKind = Start | Deadline

  datatype CalendarEvent = CalendarEvent(kind: EventKind, contest: Contest)

  /** The day a START event lands on: the parsed start date. */
  function StartDayOf(c: Contest): Option<ValidDate> {
    ParseYmd(c.startDate)
  }

  /** The day a DEADLINE event lands on: the parsed deadline, else the parsed end date. */
  function EndDayOf(c: Contest): (r: Option<ValidDate>)
    ensures DeadlineOf(c).Some? ==> r == DeadlineOf(c)
    ensures DeadlineOf(c).None? ==> r == ParseYmd(c.endDate)
  {
    match DeadlineOf(c)
    case Some(d) => Some(d)
    case None => ParseYmd(c.endDate)
  }

  function EventDay(e: CalendarEvent): Option<ValidDate> {
    if e.kind == Start then StartDayOf(e.contest) else EndDayOf(e.contest)
  }

  /** The events one contest adds, in the order they are pushed: START, then DEADLINE. */
  function ContestEvents(c: Contest): (r: seq<CalendarEvent>)
    ensures forall e :: e in r <==> e.contest == c && EventDay(e).Some?
    ensures |r| <= 2
  {
    (if StartDayOf(c).Some? then [CalendarEvent(Start, c)] else [])
    + (if EndDayOf(c).Some? then [CalendarEvent(Deadline, c)] else [])
  }

  /** Every event of the filtered contests, in contest order. */
  function AllEvents(contests: seq<Contest>): (r: seq<CalendarEvent>)
    ensures forall e :: e in r <==> e.contest in contests && EventDay(e).Some?
  {
    if |contests| == 0 then []
    else ContestEvents(contests[0]) + AllEvents(contests[1..])
  }

  /** `add`'s test: the event's date is day `day` of month `m0` (0-based) of year `y`. */
  predicate OnDay(y: int, m0: int, day: int, e: CalendarEvent) {
    EventDay(e).Some? && EventDay(e).value == Date(y, m0 + 1, day)
  }

  function AtDay(y: int, m0: int, day: int): CalendarEvent -> bool {
    e => OnDay(y, m0, day, e)
  }

  function Rank(k: EventKind): int {
    if k == Start then 0 else 1
  }

  /** The comparator of the day lists: START before DEADLINE, then title. */
  function EventKey(e: CalendarEvent): seq<int> {
    [Rank(e.kind)] + Codes(e.contest.title)
  }

  lemma EventKeyOrder(a: CalendarEvent, b: CalendarEvent)
    requires LexLe(EventKey(a), EventKey(b))
    ensures Rank(a.kind) <= Rank(b.kind)
    ensures a.kind == b.kind ==> LexLe(Codes(a.contest.title), Codes(b.contest.title))
  {
    assert EventKey(a)[1..] == Codes(a.contest.title);
    assert EventKey(b)[1..] == Codes(b.contest.title);
  }

  /**
   * `eventsByDate[day]`: the events on that day, pushed in contest order and
   * then stably sorted by kind and title.
   */
  function DayEvents(contests: seq<Contest>, y: int, m0: int, day: int): (r: seq<CalendarEvent>)
    ensures forall e :: e in r <==> e.contest in contests && OnDay(y, m0, day, e)
    ensures forall i, j :: 0 <= i < j < |r| ==>
      && Rank(r[i].kind) <= Rank(r[j].kind)
      && (r[i].kind == r[j].kind ==> LexLe(Codes(r[i].contest.title), Codes(r[j].contest.title)))
  {
    var pushed := Filter(AllEvents(contests), AtDay(y, m0, day));
    var r := Sort(pushed, EventKey, Ascending);
    SortKeepsMembers(pushed, EventKey, Ascending);
    SortedEventsOrdered(r);
    r
  }

  lemma SortedEventsOrdered(r: seq<CalendarEvent>)
    requires SortedBy(r, EventKey, Ascending)
    ensures forall i, j :: 0 <= i < j < |r| ==>
      && Rank(r[i].kind) <= Rank(r[j].kind)
      && (r[i].kind == r[j].kind ==> LexLe(Codes(r[i].contest.title), Codes(r[j].contest.title)))
  {
    forall i, j | 0 <= i < j < |r|
      ensures Rank(r[i].kind) <= Rank(r[j].kind)
      ensures r[i].kind == r[j].kind ==> LexLe(Codes(r[i].contest.title), Codes(r[j].contest.title))
    {
      EventKeyOrder(r[i], r[j]);
    }
  }

  /** Events with equal kind and title keep the order their contests had. */
  lemma DayEventsStable(contests: seq<Contest>, y: int, m0: int, day: int, k: seq<int>)
    ensures WithKey(DayEvents(contests, y, m0, day), EventKey, k)
         == WithKey(Filter(AllEvents(contests), AtDay(y, m0, day)), EventKey, k)
  {
    SortIsStable(Filter(AllEvents(contests), AtDay(y, m0, day)), EventKey, Ascending, k);
  }

  /**
   * `eventsByDate` for the month `m0` (0-based) of year `y`: a day is a key
   * exactly when some filtered contest starts or closes on it, and its list
   * is that day's events.
   */
  function EventsByDate(contests: seq<Contest>, y: int, m0: int): (r: map<int, seq<CalendarEvent>>)
    ensures forall day :: day in r <==> exists e :: e in AllEvents(contests) && OnDay(y, m0, day, e)
    ensures forall day, e :: day in r ==> (e in r[day] <==> e.contest in contests && OnDay(y, m0, day, e))
  {
    var r := DayLists(contests, y, m0);
    forall day ensures day in r <==> exists e :: e in AllEvents(contests) && OnDay(y, m0, day, e) {
      DayHasEvents(contests, y, m0, day);
    }
    r
  }

  /** The map from each day of the month that has events to its list. */
  function DayLists(contests: seq<Contest>, y: int, m0: int): (r: map<int, seq<CalendarEvent>>)
    ensures forall day :: day in r <==> 1 <= day <= 31 && |DayEvents(contests, y, m0, day)| > 0
    ensures forall day :: day in r ==> r[day] == DayEvents(contests, y, m0, day)
  {
    map day | 1 <= day <= 31 && |DayEvents(contests, y, m0, day)| > 0 :: DayEvents(contests, y, m0, day)
  }

  lemma DayHasEvents(contests: seq<Contest>, y: int, m0: int, day: int)
    ensures (1 <= day <= 31 && |DayEvents(contests, y, m0, day)| > 0)
        <==> exists e :: e in AllEvents(contests) && OnDay(y, m0, day, e)
  {
    DayListNonEmpty(contests, y, m0, day);
    if e :| e in AllEvents(contests) && OnDay(y, m0, day, e) {
      OnDayInMonth(y, m0, day, e);
    }
  }

  lemma DayListNonEmpty(contests: seq<Contest>, y: int, m0: int, day: int)
    ensures |DayEvents(contests, y, m0, day)| > 0
        <==> exists e :: e in AllEvents(contests) && OnDay(y, m0, day, e)
  {
    var r := DayEvents(contests, y, m0, day);
    if e :| e in AllEvents(contests) && OnDay(y, m0, day, e) {
      assert e in r;
    }
    if |r| > 0 {
      assert r[0] in r;
    }
  }

  /** An event's day is a day of the month, so the keys lie in 1..31. */
  lemma OnDayInMonth(y: int, m0: int, day: int, e: CalendarEvent)
    requires OnDay(y, m0, day, e)
    ensures 1 <= day <= 31
  {
  }

  /** A contest that opens and closes on the same day shows both events there, START first. */
  lemma SameDayStartAndDeadline(c: Contest, y: int, m0: int, day: int)
    requires OnDay(y, m0, day, CalendarEvent(Start, c))
    requires OnDay(y, m0, day, CalendarEvent(Deadline, c))
    ensures DayEvents([c], y, m0, day) == [CalendarEvent(Start, c), CalendarEvent(Deadline, c)]
  {
    var a, b := CalendarEvent(Start, c), CalendarEvent(Deadline, c);
    BothEvents(c);
    var p := AtDay(y, m0, day);
    assert p(a) && p(b);
    BothKept(a, b, p);
    assert SortedBy([a, b], EventKey, Ascending) by {
      assert EventKey(a)[0] == 0 && EventKey(b)[0] == 1;
    }
    SortOfSorted([a, b], EventKey, Ascending);
  }

  /** A contest whose two dates parse adds its START and then its DEADLINE. */
  lemma BothEvents(c: Contest)
    requires StartDayOf(c).Some? && EndDayOf(c).Some?
    ensures AllEvents([c]) == [CalendarEvent(Start, c), CalendarEvent(Deadline, c)]
  {
    assert [c][1..] == [];
  }

  lemma BothKept(a: CalendarEvent, b: CalendarEvent, p: CalendarEvent -> bool)
    requires p(a) && p(b)
    ensures Filter([a, b], p) == [a, b]
  {
    assert [a, b][1..] == [b] && [b][1..] == [];
  }

  /**
   * A contest opening on 2024-03-05 and closing on 2024-03-20 puts a START on
   * day 5 and a DEADLINE on day 20 of March 2024, and nothing in April.
   */
  lemma MarchScenario(c: Contest)
    requires StartDayOf(c) == Some(Date(2024, 3, 5))
    requires DeadlineOf(c) == Some(Date(2024, 3, 20))
    ensures EventsByDate([c], 2024, 2).Keys == {5, 20}
    ensures EventsByDate([c], 2024, 2)[5] == [CalendarEvent(Start, c)]
    ensures EventsByDate([c], 2024, 2)[20] == [CalendarEvent(Deadline, c)]
    ensures EventsByDate([c], 2024, 3) == map[]
  {
    ScenarioDays(c);
    assert DayLists([c], 2024, 2) == EventsByDate([c], 2024, 2);
    ScenarioKeys(c);
    ScenarioApril(c);
  }

  lemma ScenarioDays(c: Contest)
    requires StartDayOf(c) == Some(Date(2024, 3, 5))
    requires DeadlineOf(c) == Some(Date(2024, 3, 20))
    ensures DayEvents([c], 2024, 2, 5) == [CalendarEvent(Start, c)]
    ensures DayEvents([c], 2024, 2, 20) == [CalendarEvent(Deadline, c)]
  {
    var s := CalendarEvent(Start, c);
    var d := CalendarEvent(Deadline, c);
    BothEvents(c);
    SingleEventDay(s, d, AtDay(2024, 2, 5));
    SortOfSorted([s], EventKey, Ascending);
    SingleEventDay(d, s, AtDay(2024, 2, 20));
    SortOfSorted([d], EventKey, Ascending);
  }

  lemma ScenarioKeys(c: Contest)
    requires StartDayOf(c) == Some(Date(2024, 3, 5))
    requires DeadlineOf(c) == Some(Date(2024, 3, 20))
    ensures EventsByDate([c], 2024, 2).Keys == {5, 20}
  {
    var s := CalendarEvent(Start, c);
    var d := CalendarEvent(Deadline, c);
    var r := EventsByDate([c], 2024, 2);
    forall day ensures day in r <==> day == 5 || day == 20 {
      SingleContestKeys(c, 2024, 2, day);
      ScenarioOnDay(c, day);
    }
    assert r.Keys == {5, 20};
  }

  lemma ScenarioOnDay(c: Contest, day: int)
    requires StartDayOf(c) == Some(Date(2024, 3, 5))
    requires DeadlineOf(c) == Some(Date(2024, 3, 20))
    ensures OnDay(2024, 2, day, CalendarEvent(Start, c)) <==> day == 5
    ensures OnDay(2024, 2, day, CalendarEvent(Deadline, c)) <==> day == 20
  {
  }

  /** For one contest with both dates, a day is a key exactly when it starts or closes then. */
  lemma SingleContestKeys(c: Contest, y: int, m0: int, day: int)
    requires StartDayOf(c).Some? && DeadlineOf(c).Some?
    ensures day in EventsByDate([c], y, m0) <==>
      OnDay(y, m0, day, CalendarEvent(Start, c)) || OnDay(y, m0, day, CalendarEvent(Deadline, c))
  {
    BothEvents(c);
    var evs := AllEvents([c]);
    assert forall e :: e in evs <==> e == CalendarEvent(Start, c) || e == CalendarEvent(Deadline, c);
  }

  lemma ScenarioApril(c: Contest)
    requires StartDayOf(c) == Some(Date(2024, 3, 5))
    requires DeadlineOf(c) == Some(Date(2024, 3, 20))
    ensures EventsByDate([c], 2024, 3) == map[]
  {
    var s := CalendarEvent(Start, c);
    var d := CalendarEvent(Deadline, c);
    BothEvents(c);
    var april := EventsByDate([c], 2024, 3);
    forall day ensures day !in april {
      assert !OnDay(2024, 3, day, s) && !OnDay(2024, 3, day, d);
    }
  }

  lemma SingleEventDay(a: CalendarEvent, b: CalendarEvent, p: CalendarEvent -> bool)
    requires p(a) && !p(b)
    ensures Filter([a, b], p) == [a] && Filter([b, a], p) == [a]
  {
    assert [a, b][1..] == [b] && [b][1..] == [];
    assert [b, a][1..] == [a] && [a][1..] == [];
  }

  // ----- badges -------------------------------------------------------------

  datatype Tone = Blue | Slate | Red

  datatype Badge = Badge(text: string, tone: Tone)

  /**
   * `daysUntil(end, today)`, which pages/CalendarPage.tsx calls without
   * defining: taken to be the whole days from today's date to `end`.
   */
  function DaysUntil(end: ValidDate, today: ValidDate): int {
    DayNo(end) - DayNo(today)
  }

  /**
   * `eventBadge(e, today)`: 신청 시작 (blue) for a START; for a DEADLINE,
   * 신청 마감 (slate) once the closing day has passed and 마감일 (red)
   * otherwise, also when no closing day parses.
   */
  function EventBadge(e: CalendarEvent, today: ValidDate): (r: Badge)
    ensures r.tone == Blue <==> e.kind == Start
    ensures r.tone == Slate <==>
      e.kind == Deadline && EndDayOf(e.contest).Some? && DayNo(EndDayOf(e.contest).value) < DayNo(today)
    ensures r.text == (match r.tone case Blue => "신청 시작" case Slate => "신청 마감" case Red => "마감일")
  {
    if e.kind == Start then Badge("신청 시작", Blue)
    else
      var end := EndDayOf(e.contest);
      if end.None? then Badge("마감일", Red)
      else if DaysUntil(end.value, today) < 0 then
        assert e.kind == Deadline;
        Badge("신청 마감", Slate)
      else Badge("마감일", Red)
  }

  /**
   * `eventBadge` as the page has it: `daysUntil` is neither defined in
   * pages/CalendarPage.tsx nor imported, so reaching the call throws a
   * ReferenceError, written `None` here. The START branch and the branch for
   * an unparseable closing day return before the call.
   */
  function EventBadgeAsWritten(e: CalendarEvent, today: ValidDate): (r: Option<Badge>)
    ensures r.None? <==> e.kind == Deadline && EndDayOf(e.contest).Some?
    ensures r.Some? ==> r.value == EventBadge(e, today)
  {
    if e.kind == Start then Some(Badge("신청 시작", Blue))
    else if EndDayOf(e.contest).None? then Some(Badge("마감일", Red))
    else
      assert e.kind == Deadline;
      None
  }

  /**
   * Every DEADLINE event the calendar shows has a closing day that parses, so
   * the page as written throws on every one of them, while the intended
   * badge is 신청 마감 or 마감일 by the day difference.
   */
  lemma DeadlineBadgeThrows(c: Contest, today: ValidDate)
    requires DeadlineOf(c).Some?
    ensures EventBadgeAsWritten(CalendarEvent(Deadline, c), today).None?
    ensures EventBadge(CalendarEvent(Deadline, c), today).tone
         == if DayNo(DeadlineOf(c).value) < DayNo(today) then Slate else Red
  {
  }

  /** A contest closing on 2024-03-20 shows a red 마감일 on 2024-03-10, and the page as written throws instead. */
  lemma DeadlineBadgeThrowsExample(c: Contest)
    requires c.deadline == "2024-03-20"
    ensures EventBadgeAsWritten(CalendarEvent(Deadline, c), Date(2024, 3, 10)).None?
    ensures EventBadge(CalendarEvent(Deadline, c), Date(2024, 3, 10)) == Badge("마감일", Red)
  {
    ExampleDeadlineParses();
    DayNoOrdered(Date(2024, 3, 10), Date(2024, 3, 20));
    DeadlineBadgeThrows(c, Date(2024, 3, 10));
  }

  lemma ExampleDeadlineParses()
    ensures ParseYmd(Some("2024-03-20")) == Some(Date(2024, 3, 20))
  {
    YmdThenParse(Date(2024, 3, 20));
    assert Ymd(Date(2024, 3, 20)) == "2024-03-20";
  }

  /**
   * For a contest whose deadline parses, the DEADLINE badge turns slate
   * exactly when `daysLeftTo` has gone negative, which is when the contest's
   * status is 마감 or hidden.
   */
  lemma BadgeAgreesWithStatus(c: Contest, now: LocalTime)
    requires DeadlineOf(c).Some?
    ensures EventBadge(CalendarEvent(Deadline, c), now.date).tone == Slate
        <==> DaysLeftTo(Some(c.deadline), now).value < 0
    ensures EventBadge(CalendarEvent(Deadline, c), now.date).tone == Slate
        <==> GetContestStatus(c, now) in {ClosedRecent, Hidden}
  {
  }

  // ----- today's deadlines ----------------------------------------------------

  function TitleKey(c: Contest): seq<int> {
    Codes(c.title)
  }

  /** `todaysDeadlines`: contests whose deadline string is `ymd(today)`, ordered by title. */
  function TodaysDeadlines(filtered: seq<Contest>, today: ValidDate): (r: seq<Contest>)
    ensures forall c :: multiset(r)[c] == if c.deadline == Ymd(today) then multiset(filtered)[c] else 0
    ensures forall i, j :: 0 <= i < j < |r| ==> LexLe(Codes(r[i].title), Codes(r[j].title))
  {
    Sort(Filter(filtered, (c: Contest) => c.deadline == Ymd(today)), TitleKey, Ascending)
  }

  /**
   * The string test agrees with parsing: for four-digit years and deadlines
   * whose year does not begin with '0', a contest closes today exactly when
   * its deadline parses to today's date.
   */
  lemma TodaysDeadlinesByDate(filtered: seq<Contest>, today: ValidDate, c: Contest)
    requires 1000 <= today.year <= 9999
    requires |c.deadline| > 0 && c.deadline[0] != '0'
    ensures c in TodaysDeadlines(filtered, today) <==> c in filtered && DeadlineOf(c) == Some(today)
  {
    ParseYmdInverse(c.deadline, today);
    var r := TodaysDeadlines(filtered, today);
    assert c in r <==> multiset(r)[c] > 0;
  }

  // ----- the month grid -------------------------------------------------------

  /** `handleNextMonth`: the first day of the following month. */
  function NextMonth(current: ValidDate): (r: ValidDate)
    ensures r.day == 1
    ensures current.month < 12 ==> r.year == current.year && r.month == current.month + 1
    ensures current.month == 12 ==> r.year == current.year + 1 && r.month == 1
  {
    var r := MakeDate(current.year, current.month - 1 + 1, 1);
    var first := Date(current.year + (current.month - 1 + 1) / 12, (current.month - 1 + 1) % 12 + 1, 1);
    DayNoInjective(r, first);
    r
  }

  /** `handlePrevMonth`: the first day of the preceding month. */
  function PrevMonth(current: ValidDate): (r: ValidDate)
    ensures r.day == 1
    ensures current.month > 1 ==> r.year == current.year && r.month == current.month - 1
    ensures current.month == 1 ==> r.year == current.year - 1 && r.month == 12
  {
    var r := MakeDate(current.year, current.month - 1 - 1, 1);
    var first := Date(current.year + (current.month - 1 - 1) / 12, (current.month - 1 - 1) % 12 + 1, 1);
    DayNoInjective(r, first);
    r
  }

  /** Going forward and back (or back and forward) returns to the first of the month. */
  lemma MonthNavigationInverse(current: ValidDate)
    ensures PrevMonth(NextMonth(current)) == Date(current.year, current.month, 1)
    ensures NextMonth(PrevMonth(current)) == Date(current.year, current.month, 1)
  {
  }

  /** `daysInMonth`: the day of `new Date(y, m0 + 1, 0)`, the last day of month `m0`. */
  function DaysInShownMonth(y: int, m0: int): (r: int)
    requires 0 <= m0 < 12
    ensures r == DaysInMonth(y, m0 + 1)
    ensures 28 <= r <= 31
    ensures m0 == 1 ==> (r == 29 <==> IsLeapYear(y))
  {
    var made := MakeDate(y, m0 + 1, 0);
    LastDayOfMonth(y, m0);
    DayNoInjective(made, Date(y, m0 + 1, DaysInMonth(y, m0 + 1)));
    made.day
  }

  /** The last day of a month is the day before the first of the next. */
  lemma LastDayOfMonth(y: int, m0: int)
    requires 0 <= m0 < 12
    ensures DayNo(Date(y, m0 + 1, DaysInMonth(y, m0 + 1)))
         == DayNo(Date(y + (m0 + 1) / 12, (m0 + 1) % 12 + 1, 1)) - 1
  {
    if m0 + 1 < 12 {
      DaysBeforeMonthStep(y, m0 + 1);
    } else {
      DaysBeforeYearStep(y);
      DaysBeforeMonthBounds(y, 12);
    }
  }

  /** `firstDay`: the weekday (0 = Sunday) of the first of month `m0`. */
  function FirstWeekday(y: int, m0: int): (r: int)
    requires 0 <= m0 < 12
    ensures 0 <= r < 7
    ensures r == Weekday(Date(y, m0 + 1, 1))
  {
    var made := MakeDate(y, m0, 1);
    DayNoInjective(made, Date(y, m0 + 1, 1));
    Weekday(made)
  }

  /** The grid cells: `firstDay` blanks, then the days 1 to `daysInMonth`. */
  function MonthCells(y: int, m0: int): (r: seq<Option<int>>)
    requires 0 <= m0 < 12
    ensures |r| == FirstWeekday(y, m0) + DaysInMonth(y, m0 + 1)
    ensures forall i :: 0 <= i < FirstWeekday(y, m0) ==> r[i].None?
    ensures forall day :: 1 <= day <= DaysInMonth(y, m0 + 1) ==>
      && r[FirstWeekday(y, m0) + day - 1] == Some(day)
      && (FirstWeekday(y, m0) + day - 1) % 7 == Weekday(DayOf(y, m0, day))
  {
    var blanks := FirstWeekday(y, m0);
    var n := DaysInShownMonth(y, m0);
    var r := seq(blanks, _ => None) + seq(n, i => Some(i + 1));
    assert forall day :: 1 <= day <= n ==> r[blanks + day - 1] == Some(day);
    CellWeekdays(y, m0);
    r
  }

  /** Day `day` of month `m0` (0-based) of year `y`. */
  function DayOf(y: int, m0: int, day: int): ValidDate
    requires 0 <= m0 < 12 && 1 <= day <= DaysInMonth(y, m0 + 1)
  {
    Date(y, m0 + 1, day)
  }

  /** Day `day` sits in column `(firstDay + day - 1) % 7`, which is its weekday. */
  lemma CellWeekdays(y: int, m0: int)
    requires 0 <= m0 < 12
    ensures forall day :: 1 <= day <= DaysInMonth(y, m0 + 1) ==>
      (FirstWeekday(y, m0) + day - 1) % 7 == Weekday(DayOf(y, m0, day))
  {
    forall day | 1 <= day <= DaysInMonth(y, m0 + 1)
      ensures (FirstWeekday(y, m0) + day - 1) % 7 == Weekday(DayOf(y, m0, day))
    {
      assert DayNo(Date(y, m0 + 1, day)) == DayNo(Date(y, m0 + 1, 1)) + day - 1;
      ModShift(DayNo(Date(y, m0 + 1, 1)) + 6, day - 1);
    }
  }

  lemma ModShift(a: int, k: int)
    ensures (a % 7 + k) % 7 == (a + k) % 7
  {
    var q := a / 7;
    assert a == 7 * q + a % 7;
    assert a + k == 7 * q + (a % 7 + k);
  }
}
