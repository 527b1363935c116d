/** The companies filter dialog: two `MM/dd/yyyy` date fields and a
    comma-separated tag list, turned into the table's filters. */
module FilterDialog {
  import opened Wrappers
  import opened Text
  import opened CompanyForm
  import opened CompaniesTable

  /** The form as typed; every field is optional. */
  datatype FilterForm = FilterForm(lastVisitedOn: Option<string>, nextVisitOn: Option<string>, tagsText: Option<string>)

  /** This dialog's `tagsFromText` lower-cases every piece. */
  function FilterTags(text: Option<string>): (r: seq<string>)
    ensures forall i | 0 <= i < |r| :: r[i] != [] && IsLower(r[i])
  {
    FilterTagsLower(text);
    TagsFromText(text, Lower)
  }

  lemma FilterTagsLower(text: Option<string>)
    ensures forall i | 0 <= i < |TagsFromText(text, Lower)| :: IsLower(TagsFromText(text, Lower)[i])
  {
    var r := TagsFromText(text, Lower);
    if text.Some? && text.value != [] {
      forall i | 0 <= i < |r|
        ensures IsLower(r[i])
      {
        TagsFromTextMember(text.value, Lower, r[i]);
        var j :| 0 <= j < |Split(text.value, ',')| && Lower(JsTrim(Split(text.value, ',')[j])) == r[i];
        LowerIsLower(JsTrim(Split(text.value, ',')[j]));
      }
    }
  }

  /** The form the dialog opens with: the current filters written back,
      the tags joined with ", ". */
  function Defaults(value: Filters, write: DateWriter): (r: FilterForm)
    ensures r.tagsText == Some(JoinTags(value.tagsAny))
    ensures !Truthy(value.lastVisitedOnYmd) ==> r.lastVisitedOn == Some([])
    ensures !Truthy(value.nextVisitOnYmd) ==> r.nextVisitOn == Some([])
  {
    FilterForm(
      Some(if Truthy(value.lastVisitedOnYmd) then write(value.lastVisitedOnYmd.value) else []),
      Some(if Truthy(value.nextVisitOnYmd) then write(value.nextVisitOnYmd.value) else []),
      Some(JoinTags(value.tagsAny)))
  }

  /** What pressing Apply does: shows an error under a date field and
      stays open, or applies the filters and closes. */
  datatype Outcome = Rejected(error: FieldError) | Applied(filters: Filters)

  function Submit(values: FilterForm, parse: DateParser): (r: Outcome)
    ensures r.Rejected? <==> BadDate(values.lastVisitedOn, parse) || BadDate(values.nextVisitOn, parse)
    ensures r.Rejected? ==> r.error.message == DateFormatMessage
    ensures r.Rejected? ==>
      r.error.field == (if BadDate(values.lastVisitedOn, parse) then "lastVisitedOn" else "nextVisitOn")
    ensures r.Applied? ==>
      && (r.filters.lastVisitedOnYmd.None? <==> JsTrim(values.lastVisitedOn.GetOr([])) == [])
      && (r.filters.nextVisitOnYmd.None? <==> JsTrim(values.nextVisitOn.GetOr([])) == [])
      && r.filters.tagsAny == FilterTags(values.tagsText)
  {
    var last := DateField("lastVisitedOn", values.lastVisitedOn, parse);
    var next := DateField("nextVisitOn", values.nextVisitOn, parse);
    if last.Failure? then Rejected(last.error)
    else if next.Failure? then Rejected(next.error)
    else Applied(Filters(last.value, next.value, FilterTags(values.tagsText)))
  }

  /** Opening the dialog and applying it untouched gives back the filters
      it was opened with, when each date survives being written and read
      back and the tags are lower-case, trimmed, comma-free texts. */
  lemma ReapplyKeepsFilters(value: Filters, write: DateWriter, parse: DateParser)
    requires Truthy(value.lastVisitedOnYmd) ==>
      JsTrim(write(value.lastVisitedOnYmd.value)) != [] && parse(JsTrim(write(value.lastVisitedOnYmd.value))) == value.lastVisitedOnYmd
    requires Truthy(value.nextVisitOnYmd) ==>
      JsTrim(write(value.nextVisitOnYmd.value)) != [] && parse(JsTrim(write(value.nextVisitOnYmd.value))) == value.nextVisitOnYmd
    requires forall i | 0 <= i < |value.tagsAny| ::
      value.tagsAny[i] != [] && JsTrimmed(value.tagsAny[i]) && ',' !in value.tagsAny[i] && IsLower(value.tagsAny[i])
    ensures Submit(Defaults(value, write), parse) ==
      Applied(Filters(GivenDate(value.lastVisitedOnYmd), GivenDate(value.nextVisitOnYmd), value.tagsAny))
  {
    forall i | 0 <= i < |value.tagsAny|
      ensures Lower(value.tagsAny[i]) == value.tagsAny[i]
    {
      LowerOfLower(value.tagsAny[i]);
    }
    TagsFromJoinedText(value.tagsAny, Lower);
    var f := Defaults(value, write);
    DateRoundTrip("lastVisitedOn", value.lastVisitedOnYmd, write, parse);
    DateRoundTrip("nextVisitOn", value.nextVisitOnYmd, write, parse);
    assert FilterTags(f.tagsText) == value.tagsAny;
  }
}
