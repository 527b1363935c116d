/** The "Check Today" panel: the day's checklist split into the items due
    on the selected day and the overdue ones, by comparing `yyyy-MM-dd`
    texts with JavaScript's string order. */
module TodayChecklist {
  import opened Text
  import opened Sorting
  import opened Dates
  import opened ChecklistTypes

  /** `toYmd`: the selected day as `format(d, "yyyy-MM-dd")` writes it. */
  function ToYmd(d: Civil): (r: string)
    requires ValidCivil(d)
    ensures |r| == 10
    ensures forall e | ValidCivil(e) :: StrLt(r, Ymd(e)) <==> DayNumber(d) < DayNumber(e)
    ensures forall e | ValidCivil(e) :: r == Ymd(e) <==> d == e
  {
    forall e | ValidCivil(e)
      ensures StrLt(Ymd(d), Ymd(e)) <==> DayNumber(d) < DayNumber(e)
      ensures Ymd(d) == Ymd(e) <==> d == e
    {
      YmdOrderIsDayOrder(d, e);
      YmdOrderIsCalendarOrder(d, e);
    }
    Ymd(d)
  }

  /** Due before the selected day. */
  function Overdue(selected: string): ChecklistItem -> bool {
    (it: ChecklistItem) => StrLt(it.nextVisitOn, selected)
  }

  /** Due on the selected day. */
  function DueOn(selected: string): ChecklistItem -> bool {
    (it: ChecklistItem) => it.nextVisitOn == selected
  }

  datatype Groups = Groups(today: seq<ChecklistItem>, overdue: seq<ChecklistItem>)

  /** `groupItems`: one pass over the items; an item due before the
      selected day goes to `overdue`, else one due on it goes to `today`,
      and later items are skipped. */
  method GroupItems(items: seq<ChecklistItem>, selected: string) returns (g: Groups)
    ensures g.overdue == Filter(items, Overdue(selected))
    ensures g.today == Filter(items, DueOn(selected))
  {
    var today: seq<ChecklistItem> := [];
    var overdue: seq<ChecklistItem> := [];
    for i := 0 to |items|
      invariant overdue == Filter(items[..i], Overdue(selected))
      invariant today == Filter(items[..i], DueOn(selected))
    {
      var it := items[i];
      FilterAppend(items[..i], [it], Overdue(selected));
      FilterAppend(items[..i], [it], DueOn(selected));
      assert items[..i + 1] == items[..i] + [it];
      if StrLt(it.nextVisitOn, selected) {
        StrLtIffLeAndNotEqual(selected, selected);
        overdue := overdue + [it];
      } else if it.nextVisitOn == selected {
        today := today + [it];
      }
    }
    assert items[..|items|] == items;
    g := Groups(today, overdue);
  }

  /** An item is in exactly the group its date says: overdue when its date
      text is below the selected one, today when it is the selected one,
      neither when it is above; the two groups share no item, and each
      keeps the input order. */
  lemma GroupMembership(items: seq<ChecklistItem>, selected: string, it: ChecklistItem)
    ensures it in Filter(items, Overdue(selected)) <==> it in items && StrLt(it.nextVisitOn, selected)
    ensures it in Filter(items, DueOn(selected)) <==> it in items && it.nextVisitOn == selected
    ensures !(it in Filter(items, Overdue(selected)) && it in Filter(items, DueOn(selected)))
    ensures IsSubsequence(Filter(items, Overdue(selected)), items)
    ensures IsSubsequence(Filter(items, DueOn(selected)), items)
  {
    FilterMember(items, Overdue(selected), it);
    FilterMember(items, DueOn(selected), it);
    StrLtIffLeAndNotEqual(selected, selected);
    FilterOrdered(items, Overdue(selected));
    FilterOrdered(items, DueOn(selected));
  }

  /** On real dates the string comparison is the calendar's: an item is
      overdue exactly when its day comes before the selected day, due
      today exactly when it is the selected day, and skipped when later. */
  lemma GroupingFollowsCalendar(items: seq<ChecklistItem>, day: Civil, it: ChecklistItem, due: Civil)
    requires ValidCivil(day) && ValidCivil(due) && it in items && it.nextVisitOn == Ymd(due)
    ensures it in Filter(items, Overdue(ToYmd(day))) <==> DayNumber(due) < DayNumber(day)
    ensures it in Filter(items, DueOn(ToYmd(day))) <==> due == day
    ensures DayNumber(day) < DayNumber(due) ==>
      it !in Filter(items, Overdue(ToYmd(day))) && it !in Filter(items, DueOn(ToYmd(day)))
  {
    GroupMembership(items, ToYmd(day), it);
    YmdOrderIsDayOrder(due, day);
    YmdOrderIsCalendarOrder(due, day);
  }

  /** The toggle request a checkbox sends: the item's id and the opposite
      of its current flag. */
  datatype ToggleVars = ToggleVars(companyId: string, completed: bool)

  function ToggleRequest(it: ChecklistItem): (r: ToggleVars)
    ensures r.companyId == it.companyId && r.completed != it.completed
  {
    ToggleVars(it.companyId, !it.completed)
  }
}
