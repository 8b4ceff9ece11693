/**
 * The status classifier of src/utils/contestStatus.ts: a contest's deadline,
 * seen from a reference time, puts it in one of four lifecycle groups.
 */
module ContestStatus {
  import opened Wrappers
  import opened ContestDate
  import opened Contests
  import opened Sequences

  datatype Status = Ongoing | Urgent | ClosedRecent | Hidden

  /** `RULES`. */
  const UrgentMaxDays: int := 7
  const ClosedVisibleDays: int := 7
  const OngoingMinDays: int := 8

  /** The decision of `getContestStatus` on the day count `daysLeftTo` returned. */
  function Classify(daysLeft: Option<int>): (r: Status)
    ensures daysLeft.None? ==> r == Hidden
    ensures daysLeft.Some? ==>
      var n := daysLeft.value;
      && (r == Ongoing <==> n >= 8)
      && (r == Urgent <==> 0 <= n <= 7)
      && (r == ClosedRecent <==> -7 <= n <= -1)
      && (r == Hidden <==> n < -7)
  {
    match daysLeft
    case None => Hidden
    case Some(dl) =>
      if dl >= OngoingMinDays then Ongoing
      else if dl >= 0 && dl <= UrgentMaxDays then Urgent
      else if dl < 0 && dl >= -ClosedVisibleDays then ClosedRecent
      else Hidden
  }

  /** `getContestStatus(contest, now)`, stated on the calendar days of the deadline and of `now`. */
  function GetContestStatus(c: Contest, now: LocalTime): (r: Status)
    ensures DeadlineOf(c).None? ==> r == Hidden
    ensures DeadlineOf(c).Some? ==>
      var n := DayNo(DeadlineOf(c).value) - DayNo(now.date);
      && (r == Ongoing <==> n >= 8)
      && (r == Urgent <==> 0 <= n <= 7)
      && (r == ClosedRecent <==> -7 <= n <= -1)
      && (r == Hidden <==> n < -7)
  {
    Classify(DaysLeftTo(Some(c.deadline), now))
  }

  /** The order in which a contest moves through the groups as time passes. */
  function Stage(s: Status): nat {
    match s
    case Ongoing => 0
    case Urgent => 1
    case ClosedRecent => 2
    case Hidden => 3
  }

  /** As the reference day advances, a contest only moves forward through the groups. */
  lemma StatusNeverGoesBack(c: Contest, earlier: LocalTime, later: LocalTime)
    requires DayNo(earlier.date) <= DayNo(later.date)
    ensures Stage(GetContestStatus(c, earlier)) <= Stage(GetContestStatus(c, later))
  {
  }

  /**
   * The life of a contest whose deadline is seven days ahead: urgent, still
   * urgent a day later, recently closed eight days after that, hidden seven
   * days after that.
   */
  lemma StatusTimeline(c: Contest, today: LocalTime)
    requires DeadlineOf(c) == Some(AddDays(today.date, 7))
    ensures GetContestStatus(c, today) == Urgent
    ensures GetContestStatus(c, DateTime(AddDays(today.date, 1), 0)) == Urgent
    ensures GetContestStatus(c, DateTime(AddDays(today.date, 9), 0)) == ClosedRecent
    ensures GetContestStatus(c, DateTime(AddDays(today.date, 16), 0)) == Hidden
  {
  }

  function HasStatus(now: LocalTime, st: Status): Contest -> bool {
    c => GetContestStatus(c, now) == st
  }

  function IsShown(now: LocalTime): Contest -> bool {
    c => GetContestStatus(c, now) != Hidden
  }

  lemma GroupsCoverShown(contests: seq<Contest>, now: LocalTime)
    ensures multiset(Filter(contests, HasStatus(now, Ongoing)))
          + multiset(Filter(contests, HasStatus(now, Urgent)))
          + multiset(Filter(contests, HasStatus(now, ClosedRecent)))
         == multiset(Filter(contests, IsShown(now)))
  {
    var a := multiset(Filter(contests, HasStatus(now, Ongoing)));
    var b := multiset(Filter(contests, HasStatus(now, Urgent)));
    var c := multiset(Filter(contests, HasStatus(now, ClosedRecent)));
    var all := multiset(Filter(contests, IsShown(now)));
    forall x ensures (a + b + c)[x] == all[x] {
      var st := GetContestStatus(x, now);
      assert HasStatus(now, Ongoing)(x) <==> st == Ongoing;
      assert HasStatus(now, Urgent)(x) <==> st == Urgent;
      assert HasStatus(now, ClosedRecent)(x) <==> st == ClosedRecent;
      assert IsShown(now)(x) <==> st != Hidden;
    }
  }

  datatype Groups = Groups(ongoing: seq<Contest>, urgent: seq<Contest>, closedRecent: seq<Contest>)

  /**
   * `splitContestsByStatus(contests, now)`: ongoing and urgent contests,
   * soonest deadline first; recently closed ones, latest deadline first;
   * hidden ones dropped.
   */
  function SplitContestsByStatus(contests: seq<Contest>, now: LocalTime): (g: Groups)
    ensures forall c :: c in g.ongoing <==> c in contests && GetContestStatus(c, now) == Ongoing
    ensures forall c :: c in g.urgent <==> c in contests && GetContestStatus(c, now) == Urgent
    ensures forall c :: c in g.closedRecent <==> c in contests && GetContestStatus(c, now) == ClosedRecent
    ensures multiset(g.ongoing) + multiset(g.urgent) + multiset(g.closedRecent)
         == multiset(Filter(contests, IsShown(now)))
    ensures forall i, j :: 0 <= i < j < |g.ongoing| ==> DeadlineNotAfter(g.ongoing[i], g.ongoing[j])
    ensures forall i, j :: 0 <= i < j < |g.urgent| ==> DeadlineNotAfter(g.urgent[i], g.urgent[j])
    ensures forall i, j :: 0 <= i < j < |g.closedRecent| ==> DeadlineNotAfter(g.closedRecent[j], g.closedRecent[i])
  {
    var g := Groups(
      Group(contests, now, Ongoing, SoonestFirstKey, Ascending),
      Group(contests, now, Urgent, SoonestFirstKey, Ascending),
      Group(contests, now, ClosedRecent, TimeOrZeroKey, Descending));
    SoonestFirstSorted(g.ongoing);
    SoonestFirstSorted(g.urgent);
    LatestFirstSorted(g.closedRecent);
    GroupsCoverShown(contests, now);
    g
  }

  /** The contests with status `st`, sorted by `key` in direction `dir`. */
  function Group(contests: seq<Contest>, now: LocalTime, st: Status, key: Contest -> seq<int>, dir: Direction): (s: seq<Contest>)
    ensures forall c :: c in s <==> c in contests && GetContestStatus(c, now) == st
    ensures st != Hidden ==> forall c :: c in s ==> DeadlineOf(c).Some?
    ensures multiset(s) == multiset(Filter(contests, HasStatus(now, st)))
    ensures SortedBy(s, key, dir)
  {
    var f := Filter(contests, HasStatus(now, st));
    Sort(f, key, dir)
  }

  lemma SoonestFirstSorted(s: seq<Contest>)
    requires SortedBy(s, SoonestFirstKey, Ascending)
    requires forall c :: c in s ==> DeadlineOf(c).Some?
    ensures forall i, j :: 0 <= i < j < |s| ==> DeadlineNotAfter(s[i], s[j])
  {
    forall i, j | 0 <= i < j < |s| ensures DeadlineNotAfter(s[i], s[j]) {
      assert InOrder(SoonestFirstKey, Ascending, s[i], s[j]);
      assert s[i] in s && s[j] in s;
      var a, b := DeadlineOf(s[i]).value, DeadlineOf(s[j]).value;
      assert LexLe([0, TimeOf(a)], [0, TimeOf(b)]);
      assert [0, TimeOf(a)][1..] == [TimeOf(a)] && [0, TimeOf(b)][1..] == [TimeOf(b)];
      assert LexLe([TimeOf(a)], [TimeOf(b)]);
      TimeOfOrder(a, b);
    }
  }

  lemma LatestFirstSorted(s: seq<Contest>)
    requires SortedBy(s, TimeOrZeroKey, Descending)
    requires forall c :: c in s ==> DeadlineOf(c).Some?
    ensures forall i, j :: 0 <= i < j < |s| ==> DeadlineNotAfter(s[j], s[i])
  {
    forall i, j | 0 <= i < j < |s| ensures DeadlineNotAfter(s[j], s[i]) {
      assert InOrder(TimeOrZeroKey, Descending, s[i], s[j]);
      assert s[i] in s && s[j] in s;
    }
  }

  /** Contests of one group with the same deadline keep their input order (the sort is stable). */
  lemma SplitIsStable(contests: seq<Contest>, now: LocalTime, k: seq<int>)
    ensures var g := SplitContestsByStatus(contests, now);
      && WithKey(g.ongoing, SoonestFirstKey, k) == WithKey(Filter(contests, HasStatus(now, Ongoing)), SoonestFirstKey, k)
      && WithKey(g.urgent, SoonestFirstKey, k) == WithKey(Filter(contests, HasStatus(now, Urgent)), SoonestFirstKey, k)
      && WithKey(g.closedRecent, TimeOrZeroKey, k) == WithKey(Filter(contests, HasStatus(now, ClosedRecent)), TimeOrZeroKey, k)
  {
    SortIsStable(Filter(contests, HasStatus(now, Ongoing)), SoonestFirstKey, Ascending, k);
    SortIsStable(Filter(contests, HasStatus(now, Urgent)), SoonestFirstKey, Ascending, k);
    SortIsStable(Filter(contests, HasStatus(now, ClosedRecent)), TimeOrZeroKey, Descending, k);
  }
}
