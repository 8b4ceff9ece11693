/**
 * The data source of src/services/contestSource.ts: contests the admin tool
 * stored in the browser's local storage, mapped to the public contest
 * record, with the bundled mock list as the fallback.
 *
 * Date parsing and `toISOString` are left abstract: `isoDateOf` is what
 * `new Date(s).toISOString().split("T")[0]` yields for a string `s` (None
 * for an invalid date), and `todayIso` is that of the current instant.
 */
module ContestSource {
  import opened Wrappers
  import opened Text
  import opened ContestDate
  import opened Contests

  /** A stored `id`: absent, JSON null, or a string. */
  datatype StoredId = NoId | NullId | TextId(text: string)

  /**
   * An element the admin tool stored. Apart from the id, a missing field and
   * a null are both `None`: every other field is read through `??`, or its
   * value is passed on, and neither tells the two apart.
   */
  datatype AdminStoredContest = AdminStoredContest(
    id: StoredId,
    title: Option<string>,
    description: Option<string>,
    imageUrl: Option<string>,
    applyUrl: Option<string>,
    category: Option<string>,
    targets: Option<seq<string>>,
    startDate: Option<string>,
    endDate: Option<string>)

  /** `toDateOnly(input)`: nothing for a missing or empty input, else the UTC calendar date. */
  function ToDateOnly(input: Option<string>, isoDateOf: string -> Option<string>): (r: Option<string>)
    ensures input.None? || input == Some("") ==> r.None?
    ensures input.Some? && input != Some("") ==> r == isoDateOf(input.value)
  {
    if input.None? || input.value == "" then None else isoDateOf(input.value)
  }

  /** `coerceCategory(input)`: one of the four category names, else 교내 공모전. */
  function CoerceCategory(input: Option<string>): (r: Category)
    ensures forall k :: input == Some(CategoryName(k)) ==> r == k
    ensures r != CampusContest ==> input == Some(CategoryName(r))
  {
    if input == Some("서포터즈") then Supporters
    else if input == Some("IC-PBL") then IcPbl
    else if input == Some("교내 공모전") then CampusContest
    else if input == Some("대외활동") then ExternalActivity
    else CampusContest
  }

  /** The category names are distinct, so coercion inverts `CategoryName`. */
  lemma CoerceCategoryInverse(k: Category, input: Option<string>)
    ensures CoerceCategory(Some(CategoryName(k))) == k
    ensures k != CampusContest ==> (CoerceCategory(input) == k <==> input == Some(CategoryName(k)))
  {
  }

  const DefaultTitle: string := "(제목 없음)"
  const DefaultOrganizer: string := "한양대 ERICA"
  const AllTargets: string := "전체"
  const TagLimit: nat := 5

  /** `String(c.id)`: a string id is kept as it is; a missing id prints as "undefined" and a null one as "null". */
  function IdText(id: StoredId): (r: string)
    ensures id.TextId? ==> r == id.text
    ensures id == NoId ==> r == "undefined"
    ensures id == NullId ==> r == "null"
  {
    match id
    case NoId => "undefined"
    case NullId => "null"
    case TextId(t) => t
  }

  /**
   * `mapAdminToPublic(c)`: the closing date is the end date, else the start
   * date, else today, and `end_date` repeats it; the targets supply the
   * organizer (the first), the tags (the first five) and the target text;
   * the apply URL doubles as the source URL.
   */
  function MapAdminToPublic(c: AdminStoredContest, isoDateOf: string -> Option<string>, todayIso: string): (r: Contest)
    ensures r.endDate == Some(r.deadline)
    ensures ToDateOnly(c.endDate, isoDateOf).Some? ==> r.deadline == ToDateOnly(c.endDate, isoDateOf).value
    ensures ToDateOnly(c.endDate, isoDateOf).None? && ToDateOnly(c.startDate, isoDateOf).Some? ==>
      r.deadline == ToDateOnly(c.startDate, isoDateOf).value
    ensures ToDateOnly(c.endDate, isoDateOf).None? && ToDateOnly(c.startDate, isoDateOf).None? ==>
      r.deadline == todayIso
    ensures r.startDate == ToDateOnly(c.startDate, isoDateOf)
    ensures var ts := c.targets.GetOr([]);
      && |r.tags| == (if |ts| < TagLimit then |ts| else TagLimit)
      && r.tags == ts[..|r.tags|]
      && r.organizer == (if |ts| > 0 then ts[0] else DefaultOrganizer)
      && r.target == (if |ts| > 0 then Join(ts, ", ") else AllTargets)
    ensures r.applyUrl == c.applyUrl.GetOr("") && r.sourceUrl == r.applyUrl
    ensures r.title == c.title.GetOr(DefaultTitle) && r.summary == c.description.GetOr("")
    ensures r.category == CoerceCategory(c.category) && r.imageUrl == c.imageUrl && r.id == IdText(c.id)
  {
    var deadline :=
      match ToDateOnly(c.endDate, isoDateOf)
      case Some(e) => e
      case None =>
        match ToDateOnly(c.startDate, isoDateOf)
        case Some(s) => s
        case None => todayIso;
    var targets := c.targets.GetOr([]);
    var apply := c.applyUrl.GetOr("");
    Contest(
      IdText(c.id),
      c.title.GetOr(DefaultTitle),
      if |targets| > 0 then targets[0] else DefaultOrganizer,
      CoerceCategory(c.category),
      ToDateOnly(c.startDate, isoDateOf),
      Some(deadline),
      deadline,
      if |targets| < TagLimit then targets else targets[..TagLimit],
      if |targets| > 0 then Join(targets, ", ") else AllTargets,
      c.description.GetOr(""),
      apply,
      apply,
      c.imageUrl)
  }

  /**
   * When every date the parser produces is a `YYYY-MM-DD` that parses, the
   * mapped contest's deadline parses too, so an admin record never lacks a
   * usable deadline.
   */
  lemma MappedDeadlineParses(c: AdminStoredContest, isoDateOf: string -> Option<string>, todayIso: string)
    requires forall s :: isoDateOf(s).Some? ==> ParseYmd(isoDateOf(s)).Some?
    requires ParseYmd(Some(todayIso)).Some?
    ensures DeadlineOf(MapAdminToPublic(c, isoDateOf, todayIso)).Some?
  {
    var r := MapAdminToPublic(c, isoDateOf, todayIso);
    if c.endDate.Some? && c.endDate.value != "" && isoDateOf(c.endDate.value).Some? {
      assert ParseYmd(isoDateOf(c.endDate.value)).Some?;
    } else if c.startDate.Some? && c.startDate.value != "" && isoDateOf(c.startDate.value).Some? {
      assert ParseYmd(isoDateOf(c.startDate.value)).Some?;
    }
  }

  /** The organizer is the first tag whenever there are targets. */
  lemma OrganizerIsFirstTag(c: AdminStoredContest, isoDateOf: string -> Option<string>, todayIso: string)
    requires c.targets.Some? && |c.targets.value| > 0
    ensures var r := MapAdminToPublic(c, isoDateOf, todayIso); |r.tags| > 0 && r.organizer == r.tags[0]
  {
  }

  // ----- loading -----------------------------------------------------------------

  /** A stored array element: `null` makes the mapping throw; anything else reads as a record. */
  datatype JsonItem = JsonNull | JsonObject(record: AdminStoredContest)

  /** What `JSON.parse` made of the stored text. */
  datatype Parsed = ParseError | NotAnArray | JsonArray(items: seq<JsonItem>)

  /** The local-storage entry: absent, or its text with what parsing it gives. */
  datatype Stored = Missing | Present(raw: string, parsed: Parsed)

  /** The conditions under which the mock list is served instead. */
  predicate UsesMock(stored: Stored) {
    || stored.Missing?
    || stored.raw == ""
    || !stored.parsed.JsonArray?
    || |stored.parsed.items| == 0
    || exists i :: 0 <= i < |stored.parsed.items| && stored.parsed.items[i].JsonNull?
  }

  function MapItems(items: seq<JsonItem>, isoDateOf: string -> Option<string>, todayIso: string): (r: Option<seq<Contest>>)
    ensures r.None? <==> exists i :: 0 <= i < |items| && items[i].JsonNull?
    ensures r.Some? ==> |r.value| == |items|
    ensures r.Some? ==> forall i :: 0 <= i < |items| ==> r.value[i] == MapAdminToPublic(items[i].record, isoDateOf, todayIso)
  {
    if |items| == 0 then Some([])
    else if items[0].JsonNull? then None
    else
      match MapItems(items[1..], isoDateOf, todayIso)
      case None => None
      case Some(rest) => Some([MapAdminToPublic(items[0].record, isoDateOf, todayIso)] + rest)
  }

  /**
   * `fetchContestsForUserWeb()`: the stored admin contests, mapped one by one
   * in order; the mock list when nothing usable is stored.
   */
  function FetchContestsForUserWeb(stored: Stored, mock: seq<Contest>, isoDateOf: string -> Option<string>, todayIso: string): (r: seq<Contest>)
    ensures UsesMock(stored) ==> r == mock
    ensures !UsesMock(stored) ==> |r| == |stored.parsed.items|
    ensures !UsesMock(stored) ==>
      forall i :: 0 <= i < |r| ==> r[i] == MapAdminToPublic(stored.parsed.items[i].record, isoDateOf, todayIso)
  {
    if stored.Missing? || stored.raw == "" then mock
    else match stored.parsed
      case ParseError => mock
      case NotAnArray => mock
      case JsonArray(items) =>
        match MapItems(items, isoDateOf, todayIso)
        case None => mock
        case Some(mapped) => if |mapped| > 0 then mapped else mock
  }

  /** The pages never receive an empty list while the mock list is non-empty. */
  lemma FetchNeverEmpty(stored: Stored, mock: seq<Contest>, isoDateOf: string -> Option<string>, todayIso: string)
    requires |mock| > 0
    ensures |FetchContestsForUserWeb(stored, mock, isoDateOf, todayIso)| > 0
  {
  }
}
