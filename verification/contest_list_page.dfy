/**
 * The list page of pages/ContestListPage.tsx: a status filter, a category
 * filter, a free-text search and a choice of order, applied in that
 * sequence to the loaded contests; and the "reset filters" button.
 */
module ContestListPage {
  import opened Wrappers
  import opened Text
  import opened Sequences
  import opened ContestDate
  import opened Contests
  import opened ContestStatus

  /** ALL, OPEN (진행중 only) and URGENT (마감임박 only). */
  datatype StatusFilter = AllStatuses | Open | UrgentOnly

  datatype SortOrder = ByDeadline | Newest

  /** The page's filter state; a category of `None` is ALL. */
  datatype ListState = ListState(searchTerm: string, category: Option<Category>, status: StatusFilter, order: SortOrder)

  const InitialState: ListState := ListState("", None, AllStatuses, ByDeadline)

  /**
   * The status filter, stated on the days left: OPEN keeps deadlines eight or
   * more days ahead, URGENT those zero to seven days ahead.
   */
  function StatusPasses(f: StatusFilter, c: Contest, now: LocalTime): (r: bool)
    ensures f == AllStatuses ==> r
    ensures f != AllStatuses ==> (r ==> DeadlineOf(c).Some?)
    ensures f == Open && DeadlineOf(c).Some? ==> (r <==> DayNo(DeadlineOf(c).value) - DayNo(now.date) >= 8)
    ensures f == UrgentOnly && DeadlineOf(c).Some? ==> (r <==> 0 <= DayNo(DeadlineOf(c).value) - DayNo(now.date) <= 7)
  {
    match f
    case AllStatuses => true
    case Open => GetContestStatus(c, now) == Ongoing
    case UrgentOnly => GetContestStatus(c, now) == Urgent
  }

  predicate CategoryPasses(category: Option<Category>, c: Contest) {
    category.None? || c.category == category.value
  }

  /** The search term as compared: trimmed, then lower-cased. */
  function Query(searchTerm: string): (r: string)
    ensures |r| > 0 ==> !IsSpace(r[0]) && !IsSpace(r[|r| - 1])
    ensures NoUpper(r)
  {
    LowerTrim(searchTerm);
    Lower(Trim(searchTerm))
  }

  /** An empty query keeps everything; otherwise it must occur in the title, organizer or joined tags. */
  predicate SearchPasses(q: string, c: Contest) {
    || q == ""
    || Includes(Lower(c.title), q)
    || Includes(Lower(c.organizer), q)
    || Includes(Lower(Join(c.tags, " ")), q)
  }

  predicate Passes(st: ListState, c: Contest, now: LocalTime) {
    StatusPasses(st.status, c, now) && CategoryPasses(st.category, c) && SearchPasses(Query(st.searchTerm), c)
  }

  /** Sort key for NEWEST: the id, compared in descending code-point order. */
  function IdKey(c: Contest): seq<int> {
    Codes(c.id)
  }

  /** The three filters, each applied only when it is not ALL or empty. */
  function FilterStages(contests: seq<Contest>, st: ListState, now: LocalTime): (r: seq<Contest>)
    ensures forall c :: multiset(r)[c] == if Passes(st, c, now) then multiset(contests)[c] else 0
  {
    var byStatus :=
      if st.status != AllStatuses then Filter(contests, c => StatusPasses(st.status, c, now)) else contests;
    var byCategory :=
      if st.category.Some? then Filter(byStatus, c => CategoryPasses(st.category, c)) else byStatus;
    var q := Query(st.searchTerm);
    if q != "" then Filter(byCategory, c => SearchPasses(q, c)) else byCategory
  }

  /**
   * `filteredContests`: the contests passing every filter, each as often as
   * in the input, ordered soonest deadline first (undated ones last) or by
   * id descending.
   */
  function FilteredContests(contests: seq<Contest>, st: ListState, now: LocalTime): (r: seq<Contest>)
    ensures forall c :: c in r <==> c in contests && Passes(st, c, now)
    ensures forall c :: multiset(r)[c] == if Passes(st, c, now) then multiset(contests)[c] else 0
    ensures st.order == ByDeadline ==> forall i, j :: 0 <= i < j < |r| ==>
      && (DeadlineOf(r[i]).None? ==> DeadlineOf(r[j]).None?)
      && (DeadlineOf(r[i]).Some? && DeadlineOf(r[j]).Some? ==> DeadlineNotAfter(r[i], r[j]))
    ensures st.order == Newest ==> forall i, j :: 0 <= i < j < |r| ==> LexLe(Codes(r[j].id), Codes(r[i].id))
  {
    var kept := FilterStages(contests, st, now);
    if st.order == ByDeadline then
      var r := Sort(kept, SoonestFirstKey, Ascending);
      SoonestFirstOrder(r);
      SortKeepsMembers(kept, SoonestFirstKey, Ascending);
      MembersOfCounts(kept, contests, st, now);
      r
    else
      var r := Sort(kept, IdKey, Descending);
      SortKeepsMembers(kept, IdKey, Descending);
      MembersOfCounts(kept, contests, st, now);
      r
  }

  lemma MembersOfCounts(kept: seq<Contest>, contests: seq<Contest>, st: ListState, now: LocalTime)
    requires forall c :: multiset(kept)[c] == if Passes(st, c, now) then multiset(contests)[c] else 0
    ensures forall c :: c in kept <==> c in contests && Passes(st, c, now)
  {
    forall c ensures c in kept <==> c in contests && Passes(st, c, now) {
      assert c in kept <==> multiset(kept)[c] > 0;
      assert c in contests <==> multiset(contests)[c] > 0;
    }
  }

  /** The "필터 초기화" button: clears the search, category and status, keeps the order. */
  function Reset(st: ListState): (r: ListState)
    ensures r.order == st.order
    ensures forall c: Contest, now: LocalTime :: Passes(r, c, now)
  {
    assert Query("") == "";
    ListState("", None, AllStatuses, st.order)
  }

  /** After a reset the page lists every loaded contest again, as a permutation of them. */
  lemma ResetShowsAll(contests: seq<Contest>, st: ListState, now: LocalTime)
    ensures multiset(FilteredContests(contests, Reset(st), now)) == multiset(contests)
  {
    var r := FilteredContests(contests, Reset(st), now);
    forall c ensures multiset(r)[c] == multiset(contests)[c] {
      assert Passes(Reset(st), c, now);
    }
  }

  /** Narrowing: a contest shown under a stricter status filter is also shown under ALL. */
  lemma StatusFilterNarrows(contests: seq<Contest>, st: ListState, now: LocalTime, c: Contest)
    requires c in FilteredContests(contests, st, now)
    ensures c in FilteredContests(contests, st.(status := AllStatuses), now)
  {
  }

  /**
   * Searching is insensitive to surrounding white space and to ASCII case in
   * the term: a term padded with white space and differing only in ASCII case
   * gives the same query, and so the same result.
   */
  lemma SearchTermNormalised(term: string, variant: string, before: string, after: string, c: Contest)
    requires AllSpace(before) && AllSpace(after)
    requires Lower(variant) == Lower(term)
    ensures Query(before + variant + after) == Query(term)
    ensures SearchPasses(Query(before + variant + after), c) == SearchPasses(Query(term), c)
  {
    TrimPadded(before, variant, after);
    LowerTrim(variant);
    LowerTrim(term);
  }
}
