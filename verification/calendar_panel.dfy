/** The calendar side panel: a selected day in the past lists the
    companies checked off that day under "Completed"; today or a later
    day lists the ones still open under "To Do". Instants are local-time
    milliseconds; a local day is 24 hours. */
module CalendarPanel {
  import opened Wrappers
  import opened Text
  import opened Dates
  import opened ChecklistTypes

  const MsPerDay: int := 86_400_000

  /** `setHours(0, 0, 0, 0)`: local midnight at the start of the day. */
  function StartOfDay(t: int): (r: int)
    ensures r <= t < r + MsPerDay
    ensures r % MsPerDay == 0
  {
    t - t % MsPerDay
  }

  /** The local day an instant falls on. */
  function DayOf(t: int): int {
    t / MsPerDay
  }

  /** Midnight is the day's number of whole days. */
  lemma StartOfDayIsDayStart(t: int)
    ensures StartOfDay(t) == DayOf(t) * MsPerDay
    ensures DayOf(StartOfDay(t)) == DayOf(t)
  {
  }

  /** `onSelect`: the picked date is moved to its midnight before it
      becomes the selected day; doing so twice changes nothing more. */
  lemma SelectNormalises(t: int)
    ensures StartOfDay(StartOfDay(t)) == StartOfDay(t)
    ensures DayOf(StartOfDay(t)) == DayOf(t)
  {
    StartOfDayIsDayStart(t);
  }

  /** `isBefore(selectedDate, today)` with `today` at midnight. */
  predicate IsPast(selected: int, now: int) {
    selected < StartOfDay(now)
  }

  /** A day is past exactly when it is an earlier local day than now's;
      any instant of today, or later, is not past. */
  lemma {:induction false} IsPastIsEarlierDay(selected: int, now: int)
    ensures IsPast(selected, now) <==> DayOf(selected) < DayOf(now)
  {
    var d, e := DayOf(selected), DayOf(now);
    StartOfDayIsDayStart(now);
    assert DayOf(selected) * MsPerDay <= selected < (DayOf(selected) + 1) * MsPerDay;
    if d < e {
      MulMonotone(d + 1, e, MsPerDay);
    } else {
      MulMonotone(e, d, MsPerDay);
    }
  }

  /** The rows shown for a day: the ticked ones for a past day, the
      unticked ones otherwise. */
  function Shown(isPast: bool): ChecklistItem -> bool {
    (it: ChecklistItem) => it.completed == isPast
  }

  function DayItems(items: seq<ChecklistItem>, isPast: bool): (r: seq<ChecklistItem>)
    ensures forall i | 0 <= i < |r| :: r[i].completed == isPast
  {
    Filter(items, Shown(isPast))
  }

  /** A row is shown exactly when it is in the day's list and its tick
      matches the kind of day, in list order; the "Completed" and "To Do"
      views of one list split it without loss or overlap. */
  lemma DayItemsSplitList(items: seq<ChecklistItem>, it: ChecklistItem)
    ensures it in DayItems(items, true) <==> it in items && it.completed
    ensures it in DayItems(items, false) <==> it in items && !it.completed
    ensures IsSubsequence(DayItems(items, true), items)
    ensures IsSubsequence(DayItems(items, false), items)
    ensures multiset(DayItems(items, true)) + multiset(DayItems(items, false)) == multiset(items)
  {
    FilterMember(items, Shown(true), it);
    FilterMember(items, Shown(false), it);
    FilterOrdered(items, Shown(true));
    FilterOrdered(items, Shown(false));
    forall x
      ensures (multiset(DayItems(items, true)) + multiset(DayItems(items, false)))[x] == multiset(items)[x]
    {
      FilterCount(items, Shown(true), x);
      FilterCount(items, Shown(false), x);
    }
  }

  /** The panel heading. */
  function Heading(isPast: bool): (r: string)
    ensures r == "Completed" <==> isPast
    ensures r == "To Do" <==> !isPast
  {
    if isPast then "Completed" else "To Do"
  }

  /** The calendar's range: from the first of last month to the first of
      the month of the latest due date, or of this month when nothing is
      due. */
  function FirstOfPreviousMonth(today: Civil): (r: Civil)
    requires ValidCivil(today)
    ensures r.day == 1 && 1 <= r.month <= 12 && CivilLt(r, today)
    ensures r.year * 12 + r.month == today.year * 12 + today.month - 1
  {
    if today.month == 1 then Civil(today.year - 1, 12, 1) else Civil(today.year, today.month - 1, 1)
  }

  function RangeEnd(today: Civil, maxNextVisitOn: Option<Civil>): (r: Civil)
    requires ValidCivil(today)
    requires maxNextVisitOn.Some? ==> ValidCivil(maxNextVisitOn.value)
    ensures ValidCivil(r) && r.day == 1
    ensures !CivilLt(maxNextVisitOn.GetOr(today), r)
    ensures maxNextVisitOn.None? ==> r.year == today.year && r.month == today.month
    ensures maxNextVisitOn.Some? ==> r.year == maxNextVisitOn.value.year && r.month == maxNextVisitOn.value.month
  {
    var m := maxNextVisitOn.GetOr(today);
    Civil(m.year, m.month, 1)
  }
}
