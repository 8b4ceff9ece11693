/**
 * The D-day badge of components/ContestCard.tsx: a label computed from the
 * whole days left before the deadline, an urgency flag read back from that
 * label, and the badge colour.
 */
module ContestCard {
  import opened Wrappers
  import opened Text
  import opened ContestDate
  import opened Contests
  import ContestStatus

  /**
   * `getDDay`'s day difference: both instants are set to local midnight and
   * the millisecond difference is divided by one day and rounded up
   * (`Math.ceil`). None stands for NaN, which an unparseable deadline gives.
   */
  function DiffDays(deadline: string, now: LocalTime): (r: Option<int>)
    ensures r.None? <==> ParseYmd(Some(deadline)).None?
    ensures r.Some? ==> r.value == DayNo(ParseYmd(Some(deadline)).value) - DayNo(now.date)
  {
    match ParseYmd(Some(deadline))
    case None => None
    case Some(end) =>
      var diffTime := TimeOf(end) - TimeOf(now.date);
      Some(-((-diffTime) / MsPerDay))
  }

  /**
   * The label for a day difference; NaN fails both comparisons and prints as
   * `D-NaN`. The four kinds of label are told apart, and the count after
   * `D-` reads back as the difference.
   */
  function DDayLabel(diff: Option<int>): (r: string)
    ensures r == "D-NaN" <==> diff.None?
    ensures r == "마감" <==> diff.Some? && diff.value < 0
    ensures r == "D-Day" <==> diff == Some(0)
    ensures diff.Some? && diff.value > 0 ==> StartsWith(r, "D-") && ParseInt(r[2..]) == diff
  {
    match diff
    case None => "D-NaN"
    case Some(n) =>
      if n < 0 then "마감"
      else if n == 0 then "D-Day"
      else
        CountLabel(n);
        "D-" + NatToString(n)
  }

  /** A count label differs from the three word labels, and its digits read back as the count. */
  lemma CountLabel(n: nat)
    requires n > 0
    ensures var r := "D-" + NatToString(n);
      && r != "D-NaN" && r != "마감" && r != "D-Day"
      && StartsWith(r, "D-") && ParseInt(r[2..]) == Some(n)
  {
    var digits := NatToString(n);
    var r := "D-" + digits;
    ParseIntOfNatToString(n);
    assert r[2..] == digits;
    assert IsDigit(r[2]);
    assert r[..2] == "D-";
  }

  /**
   * `getDDay(deadline)` with the clock reading `now`: `D-NaN` for a deadline
   * that does not parse, otherwise 마감, `D-Day` or `D-n` by the whole days
   * from today to the deadline.
   */
  function GetDDay(deadline: string, now: LocalTime): (r: string)
    ensures r == "D-NaN" <==> ParseYmd(Some(deadline)).None?
    ensures ParseYmd(Some(deadline)).Some? ==>
      var n := DayNo(ParseYmd(Some(deadline)).value) - DayNo(now.date);
      && (r == "마감" <==> n < 0)
      && (r == "D-Day" <==> n == 0)
      && (n > 0 ==> StartsWith(r, "D-") && ParseInt(r[2..]) == Some(n))
  {
    DDayLabel(DiffDays(deadline, now))
  }

  /** `isUrgent`: the label starts with `D-` and `parseInt(dday.split('-')[1]) <= 7`. */
  function IsUrgent(dday: string): bool {
    && StartsWith(dday, "D-")
    && var pieces := Split(dday, '-');
       |pieces| > 1
       && match ParseInt(pieces[1])
          case Some(n) => n <= 7
          case None => false
  }

  datatype BadgeColour = Red | Slate | Blue

  /** Red when urgent, else slate for `마감`, else blue. */
  function Colour(dday: string): (r: BadgeColour)
    ensures r == Red <==> IsUrgent(dday)
    ensures r == Slate <==> dday == "마감"
    ensures r == Blue <==> !IsUrgent(dday) && dday != "마감"
  {
    ClosedNotUrgent();
    if IsUrgent(dday) then Red else if dday == "마감" then Slate else Blue
  }

  lemma SplitDDay(rest: string)
    requires '-' !in rest
    ensures Split("D-" + rest, '-') == ["D", rest]
  {
    var s := "D-" + rest;
    assert FirstIndex(s, '-') == 1;
    assert s[..1] == "D" && s[2..] == rest;
    assert Split(rest, '-') == [rest];
  }

  lemma UrgencyOfCount(n: nat)
    requires n > 0
    ensures IsUrgent("D-" + NatToString(n)) <==> n <= 7
  {
    var digits := NatToString(n);
    assert '-' !in digits by {
      assert forall i :: 0 <= i < |digits| ==> IsDigit(digits[i]);
    }
    SplitDDay(digits);
    ParseIntOfNatToString(n);
  }

  /** `D-Day` and `D-NaN` are not urgent, because `parseInt` of `Day` and of `NaN` is NaN. */
  lemma NotUrgentWord(word: string)
    requires word == "Day" || word == "NaN"
    ensures !IsUrgent("D-" + word)
  {
    SplitDDay(word);
    ParseIntNaN(word);
  }

  /**
   * The card is urgent exactly from D-7 to D-1: the D-day label reads back as
   * NaN, and so does an unparseable deadline.
   */
  lemma UrgentExactly(deadline: string, now: LocalTime)
    ensures IsUrgent(GetDDay(deadline, now)) <==>
      DiffDays(deadline, now).Some? && 1 <= DiffDays(deadline, now).value <= 7
  {
    UrgentLabel(DiffDays(deadline, now));
  }

  /** The label is urgent exactly for a difference of one to seven days. */
  lemma UrgentLabel(diff: Option<int>)
    ensures IsUrgent(DDayLabel(diff)) <==> diff.Some? && 1 <= diff.value <= 7
  {
    if diff.None? {
      NotUrgentWord("NaN");
    } else if diff.value == 0 {
      NotUrgentWord("Day");
    } else if diff.value > 0 {
      UrgencyOfCount(diff.value);
    } else {
      ClosedNotUrgent();
    }
  }

  lemma ClosedNotUrgent()
    ensures !IsUrgent("마감")
  {
    assert "마감"[..2] != "D-" by {
      assert "마감"[..2][0] != 'D';
    }
  }

  /** The badge colour, stated on the day difference. */
  lemma ColourByDays(deadline: string, now: LocalTime)
    ensures var diff := DiffDays(deadline, now);
      && (Colour(GetDDay(deadline, now)) == Red <==> diff.Some? && 1 <= diff.value <= 7)
      && (Colour(GetDDay(deadline, now)) == Slate <==> diff.Some? && diff.value < 0)
      && (Colour(GetDDay(deadline, now)) == Blue <==> diff.None? || diff.value == 0 || diff.value >= 8)
  {
    UrgentExactly(deadline, now);
    var diff := DiffDays(deadline, now);
    if diff.Some? && diff.value > 0 {
      assert GetDDay(deadline, now)[..2] == "D-";
    }
  }

  /**
   * The card and the classifier agree on urgency except on the deadline day
   * itself, which the classifier calls urgent and the card does not.
   */
  lemma CardUrgencyVersusStatus(c: Contest, now: LocalTime)
    ensures IsUrgent(GetDDay(c.deadline, now)) <==>
      ContestStatus.GetContestStatus(c, now) == ContestStatus.Urgent
      && DayNo(DeadlineOf(c).value) != DayNo(now.date)
  {
    UrgentExactly(c.deadline, now);
  }
}
