/**
 * The sidebar filters of pages/CalendarPage.tsx: interest fields matched by
 * keyword, a prize amount read from the summary, prize brackets, and a
 * team-recruitment detector.
 *
 * The regular expressions are written out as predicates over strings. Their
 * `i` flag is modelled by ASCII lower-casing, which is exact here: every
 * pattern character is ASCII or Hangul, and a non-ASCII character never
 * case-folds to an ASCII one under a non-Unicode `i` flag.
 */
module CalendarFilters {
  import opened Wrappers
  import opened Text
  import opened Contests
  import opened Sequences

  // ----- interest fields ----------------------------------------------------

  /** 창업, IT/SW, 디자인, 마케팅, 공학, 인문/사회. */
  datatype FieldKey = Startup | ItSoftware | Design | Marketing | Engineering | Humanities

  /** `FIELD_RULES`: the alternatives of each field's pattern. */
  function FieldKeywords(f: FieldKey): seq<string> {
    match f
    case Startup => ["창업", "스타트업", "사업화", "BM", "아이디어"]
    case ItSoftware => ["IT", "SW", "소프트웨어", "개발", "코딩", "해커톤", "AI", "데이터", "앱", "웹", "알고리즘"]
    case Design => ["디자인", "포스터", "로고", "UX", "UI", "영상", "콘텐츠"]
    case Marketing => ["마케팅", "홍보", "브랜딩", "SNS", "캠페인"]
    case Engineering => ["공학", "제조", "로봇", "기계", "전기", "전자", "화학", "반도체"]
    case Humanities => ["인문", "사회", "글쓰기", "에세이", "독서", "정책", "문화", "역사"]
  }

  /** `FIELD_RULES[f].test(text)`: some keyword occurs, ignoring ASCII case. */
  predicate FieldMatches(f: FieldKey, text: string) {
    exists k :: 0 <= k < |FieldKeywords(f)| && Includes(Lower(text), Lower(FieldKeywords(f)[k]))
  }

  /** A text holding one of a field's keywords, in any ASCII case, matches that field. */
  lemma FieldKeywordMatches(f: FieldKey, k: nat, word: string, before: string, after: string)
    requires k < |FieldKeywords(f)|
    requires Lower(word) == Lower(FieldKeywords(f)[k])
    ensures FieldMatches(f, before + word + after)
  {
    var kw := Lower(FieldKeywords(f)[k]);
    LowerAppend(before + word, after);
    LowerAppend(before, word);
    var t := Lower(before + word + after);
    assert t == Lower(before) + kw + Lower(after);
    assert t[|before|..|before| + |kw|] == kw;
    assert OccursAt(t, kw, |before|);
  }

  /** The text the field rules and the team detector read: title, summary and tags, space-separated. */
  function SearchText(c: Contest): string {
    c.title + " " + c.summary + " " + Join(c.tags, " ")
  }

  // ----- prize amount -------------------------------------------------------

  function Pow10(k: nat): (r: nat)
    ensures r >= 1
  {
    if k == 0 then 1 else 10 * Pow10(k - 1)
  }

  /** The position just past the run of digits that starts at `p`. */
  function DigitRunEnd(s: string, p: nat): (e: nat)
    requires p <= |s|
    ensures p <= e <= |s| && AllDigits(s[p..e])
    ensures e < |s| ==> !IsDigit(s[e])
    decreases |s| - p
  {
    if p < |s| && IsDigit(s[p]) then
      var e := DigitRunEnd(s, p + 1);
      assert s[p..e] == [s[p]] + s[p + 1..e];
      e
    else p
  }

  /**
   * `Math.round(parseFloat("<whole>.<frac>") * 100000000)` computed exactly:
   * the decimal times 10^8, rounded half up.
   */
  function EokValue(whole: string, frac: string): int
    requires AllDigits(whole) && AllDigits(frac)
  {
    var scale := Pow10(|frac|);
    var numerator := (DigitsValue(whole) * scale + DigitsValue(frac)) * 100000000;
    (2 * numerator + scale) / (2 * scale)
  }

  /** The amount `/(\d+(?:\.\d+)?)억/` yields when its match starts at `p`, if it does. */
  function EokAt(s: string, p: nat): Option<int> {
    if p >= |s| || !IsDigit(s[p]) then None
    else
      var i := DigitRunEnd(s, p);
      if i < |s| && s[i] == '억' then Some(EokValue(s[p..i], ""))
      else if i + 1 < |s| && s[i] == '.' && IsDigit(s[i + 1]) then
        var j := DigitRunEnd(s, i + 1);
        if j < |s| && s[j] == '억' then Some(EokValue(s[p..i], s[i + 1..j])) else None
      else None
  }

  /** The position just past the `,ddd` groups that start at `q`. */
  function GroupsEnd(s: string, q: nat): (e: nat)
    requires q <= |s|
    ensures q <= e <= |s|
    decreases |s| - q
  {
    if q + 4 <= |s| && s[q] == ',' && IsDigit(s[q + 1]) && IsDigit(s[q + 2]) && IsDigit(s[q + 3])
    then GroupsEnd(s, q + 4)
    else q
  }

  function RemoveCommas(s: string): string {
    if |s| == 0 then ""
    else (if s[0] == ',' then "" else [s[0]]) + RemoveCommas(s[1..])
  }

  /**
   * The amount `/(\d{1,3}(?:,\d{3})*|\d+)(?:만원|만)/` yields when its match
   * starts at `p`: the first alternative (up to three digits, then
   * comma-separated thousands) is tried before the second (a plain run of
   * digits); the commas are removed and the number is `parseInt`ed.
   */
  function ManAt(s: string, p: nat): Option<int> {
    if p >= |s| || !IsDigit(s[p]) then None
    else
      var e := DigitRunEnd(s, p);
      var q := GroupsEnd(s, e);
      if e - p <= 3 && q < |s| && s[q] == '만' then
        match ParseInt(RemoveCommas(s[p..q]))
        case Some(v) => Some(v * 10000)
        case None => None
      else if e < |s| && s[e] == '만' then
        match ParseInt(s[p..e])
        case Some(v) => Some(v * 10000)
        case None => None
      else None
  }

  /** `s.match(re)` for a pattern whose match at each position `at` computes: the leftmost match. */
  function FindEok(s: string, p: nat): (r: Option<int>)
    ensures r.None? <==> forall q :: p <= q < |s| ==> EokAt(s, q).None?
    ensures r.Some? ==>
      exists q :: p <= q < |s| && r == EokAt(s, q) && (forall q' :: p <= q' < q ==> EokAt(s, q').None?)
    decreases |s| - p
  {
    if p >= |s| then None
    else if EokAt(s, p).Some? then EokAt(s, p)
    else FindEok(s, p + 1)
  }

  function FindMan(s: string, p: nat): (r: Option<int>)
    ensures r.None? <==> forall q :: p <= q < |s| ==> ManAt(s, q).None?
    ensures r.Some? ==>
      exists q :: p <= q < |s| && r == ManAt(s, q) && (forall q' :: p <= q' < q ==> ManAt(s, q').None?)
    decreases |s| - p
  {
    if p >= |s| then None
    else if ManAt(s, p).Some? then ManAt(s, p)
    else FindMan(s, p + 1)
  }

  /**
   * `parsePrizeKRW(summary)`: white space removed, the leftmost `<n>억` wins,
   * else the leftmost `<n>만` / `<n>만원`, else null.
   */
  function ParsePrizeKRW(summary: string): (r: Option<int>)
    ensures var s := RemoveSpaces(summary);
      && (FindEok(s, 0).Some? ==> r == FindEok(s, 0))
      && (r.None? <==> (forall q :: 0 <= q < |s| ==> EokAt(s, q).None? && ManAt(s, q).None?))
  {
    var s := RemoveSpaces(summary);
    var eok := FindEok(s, 0);
    if eok.Some? then eok else FindMan(s, 0)
  }

  /** White space anywhere in the summary does not change the amount. */
  lemma PrizeIgnoresSpaces(a: string, b: string, space: string)
    requires AllSpace(space)
    ensures ParsePrizeKRW(a + space + b) == ParsePrizeKRW(a + b)
  {
    assert RemoveSpaces(a + space + b) == RemoveSpaces(a + b) by {
      RemoveSpacesAppend(a + space, b);
      RemoveSpacesAppend(a, space);
      RemoveSpacesAppend(a, b);
      AllSpaceRemoved(space);
      assert RemoveSpaces(a) + [] == RemoveSpaces(a);
    }
  }

  lemma {:induction false} AllSpaceRemoved(s: string)
    requires AllSpace(s)
    ensures RemoveSpaces(s) == []
  {
    if |s| > 0 {
      AllSpaceRemoved(s[1..]);
    }
  }

  /** Without an ASCII digit there is no amount. */
  lemma NoDigitNoPrize(summary: string)
    requires forall i :: 0 <= i < |summary| ==> !IsDigit(summary[i])
    ensures ParsePrizeKRW(summary) == None
  {
    var s := RemoveSpaces(summary);
    NoDigitKept(summary);
    forall q | 0 <= q < |s| ensures EokAt(s, q).None? && ManAt(s, q).None? {
    }
  }

  lemma {:induction false} NoDigitKept(s: string)
    requires forall i :: 0 <= i < |s| ==> !IsDigit(s[i])
    ensures forall i :: 0 <= i < |RemoveSpaces(s)| ==> !IsDigit(RemoveSpaces(s)[i])
  {
    if |s| > 0 {
      NoDigitKept(s[1..]);
    }
  }

  // Worked examples: 500만원 after white space is removed, one and a half
  // 억, a comma-grouped amount, and a summary without any amount.

  lemma PrizeOfSpacedManwon()
    ensures ParsePrizeKRW("총 상금 500만원") == Some(5000000)
  {
    SpacedSummaryCompacts();
    var s := "총상금500만원";
    CompactSummaryNoEok();
    CompactSummaryManAt();
    assert ManAt(s, 0) == None && ManAt(s, 1) == None && ManAt(s, 2) == None;
    assert FindMan(s, 0) == Some(5000000);
    PrizeOfManOnly("총 상금 500만원", s);
  }

  lemma CompactSummaryNoEok()
    ensures FindEok("총상금500만원", 0) == None
  {
    var s := "총상금500만원";
    assert DigitRunEnd(s, 6) == 6;
    assert DigitRunEnd(s, 5) == 6;
    assert DigitRunEnd(s, 4) == 6;
    assert DigitRunEnd(s, 3) == 6;
    assert EokAt(s, 3) == None;
    assert EokAt(s, 4) == None;
    assert EokAt(s, 5) == None;
  }

  lemma CompactSummaryManAt()
    ensures ManAt("총상금500만원", 3) == Some(5000000)
  {
    var s := "총상금500만원";
    assert DigitRunEnd(s, 6) == 6;
    assert DigitRunEnd(s, 5) == 6;
    assert DigitRunEnd(s, 4) == 6;
    assert DigitRunEnd(s, 3) == 6;
    assert GroupsEnd(s, 6) == 6;
    assert s[3..6] == "500";
    assert RemoveCommas("500") == "500";
    ParseFiveHundred();
  }

  lemma ParseFiveHundred()
    ensures ParseInt("500") == Some(500)
  {
    assert NatToString(5) == "5";
    assert NatToString(50) == "50";
    assert NatToString(500) == "500";
    ParseIntOfNatToString(500);
  }

  lemma ParseThousand()
    ensures ParseInt("1000") == Some(1000)
  {
    assert NatToString(1) == "1";
    assert NatToString(10) == "10";
    assert NatToString(100) == "100";
    assert NatToString(1000) == "1000";
    ParseIntOfNatToString(1000);
  }

  lemma SpacedSummaryCompacts()
    ensures RemoveSpaces("총 상금 500만원") == "총상금500만원"
  {
    assert "총 상금 500만원" == "총" + " " + "상금" + " " + "500만원";
    SpacedSummaryPieces();
    assert "총" + "상금" + "500만원" == "총상금500만원";
  }

  lemma SpacedSummaryPieces()
    ensures RemoveSpaces("총" + " " + "상금" + " " + "500만원") == "총" + "상금" + "500만원"
  {
    var a, b, c := "총", "상금", "500만원";
    RemoveSpacesNoSpace(a);
    RemoveSpacesNoSpace(b);
    RemoveSpacesNoSpace(c);
    SpaceDropped(a, b);
    SpaceDropped(a + " " + b, c);
  }

  /** One blank between two pieces disappears. */
  lemma SpaceDropped(a: string, b: string)
    ensures RemoveSpaces(a + " " + b) == RemoveSpaces(a) + RemoveSpaces(b)
  {
    RemoveSpacesAppend(a + " ", b);
    RemoveSpacesAppend(a, " ");
    assert RemoveSpaces(" ") == "";
    assert RemoveSpaces(a) + "" == RemoveSpaces(a);
  }

  lemma PrizeOfOneEok()
    ensures ParsePrizeKRW("1억") == Some(100000000)
  {
    var s := "1억";
    RemoveSpacesNoSpace(s);
    assert DigitRunEnd(s, 1) == 1;
    assert DigitRunEnd(s, 0) == 1;
    assert DigitsValue(s[0..1]) == 1;
    assert EokAt(s, 0) == Some(100000000);
  }

  lemma PrizeOfFractionalEok()
    ensures ParsePrizeKRW("1.5억") == Some(150000000)
  {
    var s := "1.5억";
    RemoveSpacesNoSpace(s);
    assert DigitRunEnd(s, 1) == 1;
    assert DigitRunEnd(s, 0) == 1;
    assert DigitRunEnd(s, 3) == 3;
    assert DigitRunEnd(s, 2) == 3;
    assert DigitsValue(s[0..1]) == 1;
    assert DigitsValue(s[2..3]) == 5;
    assert EokAt(s, 0) == Some(150000000);
  }

  lemma PrizeOfGroupedManwon()
    ensures ParsePrizeKRW("1,000만원") == Some(10000000)
  {
    var s := "1,000만원";
    RemoveSpacesNoSpace(s);
    GroupedManwonNoEok();
    GroupedManwonAt();
    PrizeOfManOnly(s, s);
  }

  /** With no `억` amount, the prize is the leftmost `만` amount. */
  lemma PrizeOfManOnly(summary: string, s: string)
    requires RemoveSpaces(summary) == s && FindEok(s, 0) == None
    ensures ParsePrizeKRW(summary) == FindMan(s, 0)
    ensures ManAt(s, 0).Some? ==> ParsePrizeKRW(summary) == ManAt(s, 0)
  {
  }

  lemma GroupedManwonNoEok()
    ensures FindEok("1,000만원", 0) == None
  {
    var s := "1,000만원";
    assert DigitRunEnd(s, 1) == 1;
    assert DigitRunEnd(s, 0) == 1;
    assert DigitRunEnd(s, 5) == 5;
    assert DigitRunEnd(s, 4) == 5;
    assert DigitRunEnd(s, 3) == 5;
    assert DigitRunEnd(s, 2) == 5;
    assert EokAt(s, 0) == None;
    assert EokAt(s, 1) == None;
    assert EokAt(s, 2) == None;
    assert EokAt(s, 3) == None;
    assert EokAt(s, 4) == None;
    assert EokAt(s, 5) == None;
    assert EokAt(s, 6) == None;
  }

  lemma GroupedManwonAt()
    ensures ManAt("1,000만원", 0) == Some(10000000)
  {
    var s := "1,000만원";
    assert DigitRunEnd(s, 1) == 1;
    assert DigitRunEnd(s, 0) == 1;
    assert GroupsEnd(s, 5) == 5;
    assert GroupsEnd(s, 1) == 5;
    assert s[0..5] == "1,000";
    assert RemoveCommas("1,000") == "1000";
    ParseThousand();
  }

  lemma PrizeOfFreeEntry()
    ensures ParsePrizeKRW("참가비 무료") == None
  {
    NoDigitNoPrize("참가비 무료");
  }

  // ----- prize brackets -----------------------------------------------------

  /** ALL, under 100만원, 100~300만원, 300~1000만원, 1000만원 and over. */
  datatype PrizeRange = AnyPrize | Under100 | From100To300 | From300To1000 | Over1000

  /**
   * `matchPrizeRange(prize, range)`, comparing `prize / 10000` (in 만원)
   * exactly: the brackets in 만원 are the same half-open ranges in won.
   */
  function MatchPrizeRange(prize: Option<int>, range: PrizeRange): (r: bool)
    ensures range == AnyPrize ==> r
    ensures range != AnyPrize && prize.None? ==> !r
    ensures prize.Some? && range == Under100 ==> (r <==> prize.value < 1000000)
    ensures prize.Some? && range == From100To300 ==> (r <==> 1000000 <= prize.value < 3000000)
    ensures prize.Some? && range == From300To1000 ==> (r <==> 3000000 <= prize.value < 10000000)
    ensures prize.Some? && range == Over1000 ==> (r <==> 10000000 <= prize.value)
  {
    if range == AnyPrize then true
    else if prize.None? then false
    else
      var man: real := prize.value as real / 10000.0;
      match range
      case Under100 => man < 100.0
      case From100To300 => man >= 100.0 && man < 300.0
      case From300To1000 => man >= 300.0 && man < 1000.0
      case _ => man >= 1000.0
  }

  /**
   * ALL matches everything; an unknown amount matches nothing else; a known
   * amount falls in exactly one of the four brackets, which are half-open in
   * 만원.
   */
  lemma PrizeBracketsPartition(prize: Option<int>)
    ensures MatchPrizeRange(prize, AnyPrize)
    ensures prize.None? ==> forall r :: r != AnyPrize ==> !MatchPrizeRange(prize, r)
    ensures prize.Some? ==>
      var x := prize.value;
      && (MatchPrizeRange(prize, Under100) <==> x < 1000000)
      && (MatchPrizeRange(prize, From100To300) <==> 1000000 <= x < 3000000)
      && (MatchPrizeRange(prize, From300To1000) <==> 3000000 <= x < 10000000)
      && (MatchPrizeRange(prize, Over1000) <==> 10000000 <= x)
  {
  }

  // ----- team recruitment ---------------------------------------------------

  /** The position just past the run of `\s` characters that starts at `p`. */
  function SpaceRunEnd(s: string, p: nat): (e: nat)
    requires p <= |s|
    ensures p <= e <= |s| && AllSpace(s[p..e])
    ensures e < |s| ==> !IsSpace(s[e])
    decreases |s| - p
  {
    if p < |s| && IsSpace(s[p]) then
      var e := SpaceRunEnd(s, p + 1);
      assert s[p..e] == [s[p]] + s[p + 1..e];
      e
    else p
  }

  /** `팀원\s*모집` matches at `i`: 팀원, then the longest run of white space, then 모집. */
  predicate TeamPhraseAt(t: string, i: nat) {
    && i + 2 <= |t| && t[i..i + 2] == "팀원"
    && var j := SpaceRunEnd(t, i + 2);
       j + 2 <= |t| && t[j..j + 2] == "모집"
  }

  /** 팀원 at `i`, only white space between, 모집 at `j`. */
  ghost predicate TeamPhrase(t: string, i: int, j: int) {
    0 <= i && i + 2 <= j && j + 2 <= |t|
    && t[i..i + 2] == "팀원" && AllSpace(t[i + 2..j]) && t[j..j + 2] == "모집"
  }

  /** The greedy scan finds the phrase exactly where the pattern can match. */
  lemma TeamPhraseAtIff(t: string, i: nat)
    ensures TeamPhraseAt(t, i) <==> exists j :: TeamPhrase(t, i, j)
  {
    if TeamPhraseAt(t, i) {
      assert TeamPhrase(t, i, SpaceRunEnd(t, i + 2));
    }
    if j :| TeamPhrase(t, i, j) {
      assert t[j] == t[j..j + 2][0];
      SpaceRunEndAt(t, i + 2, j);
    }
  }

  /** The scan stops at the first character that is not white space. */
  lemma {:induction false} SpaceRunEndAt(s: string, p: nat, j: nat)
    requires p <= j < |s| && AllSpace(s[p..j]) && !IsSpace(s[j])
    ensures SpaceRunEnd(s, p) == j
    decreases j - p
  {
    if p < j {
      assert IsSpace(s[p..j][0]);
      assert s[p + 1..j] == s[p..j][1..];
      SpaceRunEndAt(s, p + 1, j);
    }
  }

  /**
   * `isTeamRecruiting(c)`: `/팀원모집|팀원\s*모집|리크루팅|recruit/i` finds a
   * match in the title, summary and tags. The first alternative is a case of
   * the second.
   */
  function IsTeamRecruiting(c: Contest): (r: bool)
    ensures r <==>
      var t := SearchText(c);
      || (exists i, j :: TeamPhrase(t, i, j))
      || Contains(t, "리크루팅")
      || Contains(Lower(t), "recruit")
  {
    var t := SearchText(c);
    HasTeamPhraseIff(t);
    HasTeamPhrase(t) || Includes(t, "리크루팅") || Includes(Lower(t), "recruit")
  }

  predicate HasTeamPhrase(t: string) {
    exists i :: 0 <= i <= |t| && TeamPhraseAt(t, i)
  }

  lemma HasTeamPhraseIff(t: string)
    ensures HasTeamPhrase(t) <==> exists i, j :: TeamPhrase(t, i, j)
  {
    if i :| 0 <= i <= |t| && TeamPhraseAt(t, i) {
      TeamPhraseAtIff(t, i);
    }
    if i, j :| TeamPhrase(t, i, j) {
      TeamPhraseAtIff(t, i);
    }
  }

  // ----- the filtered list ----------------------------------------------------

  datatype Filters = Filters(fields: set<FieldKey>, prize: PrizeRange, teamOnly: bool)

  /** The three sidebar tests a contest must pass. */
  predicate PassesFilters(f: Filters, c: Contest) {
    && (f.fields == {} || exists k :: k in f.fields && FieldMatches(k, SearchText(c)))
    && MatchPrizeRange(ParsePrizeKRW(c.summary), f.prize)
    && (!f.teamOnly || IsTeamRecruiting(c))
  }

  /** `filteredContests`: the contests passing the sidebar filters, in their original order. */
  function FilteredContests(contests: seq<Contest>, f: Filters): (r: seq<Contest>)
    ensures forall c :: c in r <==> c in contests && PassesFilters(f, c)
    ensures forall c :: multiset(r)[c] == if PassesFilters(f, c) then multiset(contests)[c] else 0
  {
    Filter(contests, c => PassesFilters(f, c))
  }

  /** With nothing ticked and the prize set to ALL, every contest is kept, in order. */
  lemma NoFiltersKeepsAll(contests: seq<Contest>)
    ensures FilteredContests(contests, Filters({}, AnyPrize, false)) == contests
  {
    var f := Filters({}, AnyPrize, false);
    assert forall c :: PassesFilters(f, c);
    FilterAll(contests, c => PassesFilters(f, c));
  }
}
