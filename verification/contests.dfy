/** The contest record of types.ts and the deadline helpers every page shares. */
module Contests {
  import opened Wrappers
  import opened ContestDate
  import opened Sequences

  /** The four categories: 교내 공모전, 서포터즈, IC-PBL, 대외활동. */
  datatype Category = CampusContest | Supporters | IcPbl | ExternalActivity

  function CategoryName(c: Category): string {
    match c
    case CampusContest => "교내 공모전"
    case Supporters => "서포터즈"
    case IcPbl => "IC-PBL"
    case ExternalActivity => "대외활동"
  }

  datatype Contest = Contest(
    id: string,
    title: string,
    organizer: string,
    category: Category,
    startDate: Option<string>,
    endDate: Option<string>,
    deadline: string,
    tags: seq<string>,
    target: string,
    summary: string,
    sourceUrl: string,
    applyUrl: string,
    imageUrl: Option<string>)

  /** `parseYmd(c.deadline)`. */
  function DeadlineOf(c: Contest): Option<ValidDate> {
    ParseYmd(Some(c.deadline))
  }

  /** Both deadlines parse and `a`'s is not later than `b`'s. */
  predicate DeadlineNotAfter(a: Contest, b: Contest) {
    DeadlineOf(a).Some? && DeadlineOf(b).Some?
    && DayNo(DeadlineOf(a).value) <= DayNo(DeadlineOf(b).value)
  }

  /**
   * Sort key for "soonest deadline first": the deadline's time value, and
   * `9e15` (beyond every time value) when it does not parse. The sentinel is
   * the key `[1]`, which follows every `[0, t]`.
   */
  function SoonestFirstKey(c: Contest): seq<int> {
    match DeadlineOf(c)
    case Some(d) => [0, TimeOf(d)]
    case None => [1]
  }

  /** `parseYmd(c.deadline)?.getTime() ?? 0`: the deadline's time value, or 0 when it does not parse. */
  function TimeOrZeroKey(c: Contest): seq<int> {
    match DeadlineOf(c)
    case Some(d) => [TimeOf(d)]
    case None => [0]
  }

  /**
   * Sorted by `safeDeadlineMs`: contests whose deadline does not parse come
   * after all others, and the rest are in deadline order.
   */
  lemma SoonestFirstOrder(s: seq<Contest>)
    requires SortedBy(s, SoonestFirstKey, Ascending)
    ensures forall i, j :: 0 <= i < j < |s| ==>
      && (DeadlineOf(s[i]).None? ==> DeadlineOf(s[j]).None?)
      && (DeadlineOf(s[i]).Some? && DeadlineOf(s[j]).Some? ==> DeadlineNotAfter(s[i], s[j]))
  {
    forall i, j | 0 <= i < j < |s|
      ensures DeadlineOf(s[i]).None? ==> DeadlineOf(s[j]).None?
      ensures DeadlineOf(s[i]).Some? && DeadlineOf(s[j]).Some? ==> DeadlineNotAfter(s[i], s[j])
    {
      assert LexLe(SoonestFirstKey(s[i]), SoonestFirstKey(s[j]));
      if DeadlineOf(s[i]).Some? && DeadlineOf(s[j]).Some? {
        var a, b := DeadlineOf(s[i]).value, DeadlineOf(s[j]).value;
        assert [0, TimeOf(a)][1..] == [TimeOf(a)] && [0, TimeOf(b)][1..] == [TimeOf(b)];
        assert LexLe([TimeOf(a)], [TimeOf(b)]);
        TimeOfOrder(a, b);
      }
    }
  }
}
