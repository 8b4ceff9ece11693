/**
 * The landing page of pages/Home.tsx: the three status sections, the
 * carousel over the urgent contests, and the three-week preview of
 * upcoming deadlines.
 */
module Home {
  import opened Wrappers
  import opened Sequences
  import opened ContestDate
  import opened Contests
  import opened ContestStatus

  // ----- sections -------------------------------------------------------------

  /** How many cards the ongoing and recently-closed sections show. */
  const SectionLimit: nat := 6

  function Take<T>(s: seq<T>, n: nat): (r: seq<T>)
    ensures |r| == if |s| < n then |s| else n
    ensures r == s[..|r|]
  {
    if |s| < n then s else s[..n]
  }

  datatype Sections = Sections(ongoing: seq<Contest>, urgent: seq<Contest>, closedRecent: seq<Contest>)

  /**
   * The sections as rendered: the first six ongoing contests, every urgent
   * one (the carousel pages through them), the first six recently closed.
   */
  function HomeSections(contests: seq<Contest>, now: LocalTime): (r: Sections)
    ensures var g := SplitContestsByStatus(contests, now);
      && r.urgent == g.urgent
      && |r.ongoing| == (if |g.ongoing| < SectionLimit then |g.ongoing| else SectionLimit)
      && r.ongoing == g.ongoing[..|r.ongoing|]
      && |r.closedRecent| == (if |g.closedRecent| < SectionLimit then |g.closedRecent| else SectionLimit)
      && r.closedRecent == g.closedRecent[..|r.closedRecent|]
  {
    ShownSections(SplitContestsByStatus(contests, now))
  }

  /** What each section shows of the status groups. */
  function ShownSections(g: Groups): (r: Sections)
    ensures |r.ongoing| <= SectionLimit && |r.closedRecent| <= SectionLimit
    ensures |r.ongoing| <= |g.ongoing| && |r.closedRecent| <= |g.closedRecent|
    ensures r.ongoing == g.ongoing[..|r.ongoing|]
    ensures r.closedRecent == g.closedRecent[..|r.closedRecent|]
    ensures r.urgent == g.urgent
    ensures |r.ongoing| < SectionLimit ==> r.ongoing == g.ongoing
    ensures |r.closedRecent| < SectionLimit ==> r.closedRecent == g.closedRecent
  {
    Sections(Take(g.ongoing, SectionLimit), g.urgent, Take(g.closedRecent, SectionLimit))
  }

  /** The ongoing section shows the soonest-closing ongoing contests: none left out closes earlier. */
  lemma OngoingShowsSoonest(contests: seq<Contest>, now: LocalTime, shown: Contest, hidden: nat)
    requires shown in HomeSections(contests, now).ongoing
    requires |HomeSections(contests, now).ongoing| <= hidden < |SplitContestsByStatus(contests, now).ongoing|
    ensures DeadlineNotAfter(shown, SplitContestsByStatus(contests, now).ongoing[hidden])
  {
    var g := SplitContestsByStatus(contests, now);
    var r := ShownSections(g);
    PrefixBeforeRest(g.ongoing, |r.ongoing|, shown, hidden);
  }

  /** In a list ordered by deadline, a member of a prefix closes no later than anything after it. */
  lemma PrefixBeforeRest(s: seq<Contest>, n: nat, shown: Contest, hidden: nat)
    requires forall i, j :: 0 <= i < j < |s| ==> DeadlineNotAfter(s[i], s[j])
    requires n <= hidden < |s| && shown in s[..n]
    ensures DeadlineNotAfter(shown, s[hidden])
  {
    var i :| 0 <= i < n && s[..n][i] == shown;
    assert s[i] == shown;
  }

  /** Every contest the landing page shows in a section is one that is not hidden. */
  lemma SectionsShowOnlyVisible(contests: seq<Contest>, now: LocalTime, c: Contest)
    requires var r := HomeSections(contests, now); c in r.ongoing || c in r.urgent || c in r.closedRecent
    ensures c in contests && GetContestStatus(c, now) != Hidden
  {
    var g := SplitContestsByStatus(contests, now);
    var r := HomeSections(contests, now);
    if c in r.ongoing {
      PrefixMember(g.ongoing, |r.ongoing|, c);
    } else if c in r.closedRecent {
      PrefixMember(g.closedRecent, |r.closedRecent|, c);
    }
  }

  lemma PrefixMember<T>(s: seq<T>, n: nat, x: T)
    requires n <= |s| && x in s[..n]
    ensures x in s
  {
    var i :| 0 <= i < n && s[..n][i] == x;
    assert s[i] == x;
  }

  // ----- the urgent carousel ----------------------------------------------------

  const ItemsPerPage: int := 4

  /** The carousel's index together with the urgent count it was last reset for. */
  datatype Carousel = Carousel(index: int, urgentCount: nat)

  const InitialCarousel: Carousel := Carousel(0, 0)

  function Max(a: int, b: int): int {
    if a < b then b else a
  }

  /** The index stays between the first page and the last full page. */
  predicate CarouselOk(s: Carousel) {
    0 <= s.index <= Max(0, s.urgentCount - ItemsPerPage)
  }

  /** The disabled state of the left button. */
  predicate PrevDisabled(s: Carousel) {
    s.index == 0
  }

  /** The disabled state of the right button. */
  predicate NextDisabled(s: Carousel) {
    s.index >= s.urgentCount - ItemsPerPage
  }

  /** `nextSlide`: one step right while another full page remains. */
  function NextSlide(s: Carousel): (r: Carousel)
    ensures r.urgentCount == s.urgentCount
    ensures r.index == s.index || r.index == s.index + 1
    ensures r.index == s.index + 1 <==> !NextDisabled(s)
  {
    if s.index + 1 <= s.urgentCount - ItemsPerPage then s.(index := s.index + 1) else s
  }

  /** `prevSlide`: one step left unless at the start. */
  function PrevSlide(s: Carousel): (r: Carousel)
    ensures r.urgentCount == s.urgentCount
    ensures r.index == s.index || r.index == s.index - 1
    ensures CarouselOk(s) ==> (r.index == s.index - 1 <==> !PrevDisabled(s))
  {
    if s.index > 0 then s.(index := s.index - 1) else s
  }

  /** The effect on `urgent.length`: a new count sends the carousel back to the start. */
  function UrgentCountIs(s: Carousel, count: nat): (r: Carousel)
    ensures r.urgentCount == count
    ensures count != s.urgentCount ==> r.index == 0
    ensures count == s.urgentCount ==> r == s
  {
    if count != s.urgentCount then Carousel(0, count) else s
  }

  datatype CarouselEvent = Next | Prev | Count(n: nat)

  /** One click or reload; only a reload changes the urgent count, and no event leaves the valid range. */
  function Step(s: Carousel, e: CarouselEvent): (r: Carousel)
    ensures r.urgentCount == (if e.Count? then e.n else s.urgentCount)
    ensures CarouselOk(s) ==> CarouselOk(r)
  {
    match e
    case Next => NextSlide(s)
    case Prev => PrevSlide(s)
    case Count(n) => UrgentCountIs(s, n)
  }

  /** A run of events; clicks alone never change the urgent count. */
  function Run(s: Carousel, events: seq<CarouselEvent>): (r: Carousel)
    ensures (forall i :: 0 <= i < |events| ==> !events[i].Count?) ==> r.urgentCount == s.urgentCount
    decreases |events|
  {
    if |events| == 0 then s else Run(Step(s, events[0]), events[1..])
  }

  /** Each step keeps the index in range. */
  lemma StepKeepsCarouselOk(s: Carousel, e: CarouselEvent)
    requires CarouselOk(s)
    ensures CarouselOk(Step(s, e))
  {
  }

  /**
   * From the initial state, any sequence of clicks and reloads leaves the
   * index in range: the window of four cards never starts before the first
   * urgent contest nor runs past the last one when there are at least four.
   */
  lemma {:induction false} RunKeepsCarouselOk(s: Carousel, events: seq<CarouselEvent>)
    requires CarouselOk(s)
    ensures CarouselOk(Run(s, events))
    ensures var t := Run(s, events); t.urgentCount >= ItemsPerPage ==> t.index + ItemsPerPage <= t.urgentCount
    decreases |events|
  {
    if |events| > 0 {
      StepKeepsCarouselOk(s, events[0]);
      RunKeepsCarouselOk(Step(s, events[0]), events[1..]);
    }
  }

  /** With four or fewer urgent contests there is a single page and both buttons are disabled. */
  lemma SinglePage(s: Carousel)
    requires CarouselOk(s) && s.urgentCount <= ItemsPerPage
    ensures PrevDisabled(s) && NextDisabled(s)
  {
  }

  // ----- upcoming deadlines -------------------------------------------------------

  /** How many days ahead the calendar preview looks. */
  const PreviewDays: int := 21

  /** The preview's test: the deadline parses and falls between today's midnight and the midnight 21 days on. */
  predicate InPreview(c: Contest, now: LocalTime) {
    var today := StartOfToday(now);
    var later := DateTime(AddDays(today.date, PreviewDays), 0);
    DeadlineOf(c).Some?
    && TimeOf(DeadlineOf(c).value) >= TimeValue(today)
    && TimeOf(DeadlineOf(c).value) <= TimeValue(later)
  }

  /** In days: a deadline is in the preview when it is between 0 and 21 days ahead of today. */
  lemma InPreviewDays(c: Contest, now: LocalTime)
    ensures InPreview(c, now) <==>
      DeadlineOf(c).Some? && 0 <= DayNo(DeadlineOf(c).value) - DayNo(now.date) <= PreviewDays
  {
    if DeadlineOf(c).Some? {
      TimeOfOrder(now.date, DeadlineOf(c).value);
      TimeOfOrder(DeadlineOf(c).value, AddDays(now.date, PreviewDays));
    }
  }

  /**
   * `upcomingEvents`: the contests closing within three weeks, soonest
   * first, each as often as in the input.
   */
  function UpcomingEvents(contests: seq<Contest>, now: LocalTime): (r: seq<Contest>)
    ensures forall c :: c in r <==>
      c in contests && DeadlineOf(c).Some? && 0 <= DayNo(DeadlineOf(c).value) - DayNo(now.date) <= PreviewDays
    ensures forall c :: multiset(r)[c] == if InPreview(c, now) then multiset(contests)[c] else 0
    ensures forall i, j :: 0 <= i < j < |r| ==> DeadlineNotAfter(r[i], r[j])
  {
    var kept := Filter(contests, c => InPreview(c, now));
    var r := Sort(kept, TimeOrZeroKey, Ascending);
    SortKeepsMembers(kept, TimeOrZeroKey, Ascending);
    forall c ensures c in r <==>
      c in contests && DeadlineOf(c).Some? && 0 <= DayNo(DeadlineOf(c).value) - DayNo(now.date) <= PreviewDays
    {
      InPreviewDays(c, now);
    }
    TimeOrZeroOrder(r);
    r
  }

  lemma TimeOrZeroOrder(s: seq<Contest>)
    requires SortedBy(s, TimeOrZeroKey, Ascending)
    requires forall c :: c in s ==> DeadlineOf(c).Some?
    ensures forall i, j :: 0 <= i < j < |s| ==> DeadlineNotAfter(s[i], s[j])
  {
    forall i, j | 0 <= i < j < |s| ensures DeadlineNotAfter(s[i], s[j]) {
      assert InOrder(TimeOrZeroKey, Ascending, s[i], s[j]);
      assert s[i] in s && s[j] in s;
      TimeOfOrder(DeadlineOf(s[i]).value, DeadlineOf(s[j]).value);
    }
  }

  /** Every previewed contest is still open: its status is 진행중 or 마감임박. */
  lemma UpcomingAreOpen(contests: seq<Contest>, now: LocalTime, c: Contest)
    requires c in UpcomingEvents(contests, now)
    ensures GetContestStatus(c, now) == Ongoing || GetContestStatus(c, now) == Urgent
  {
  }
}
