/** The add-company dialog: the form's schema, the date check, and the
    create request it sends. */
module AddCompanyDialog {
  import opened Wrappers
  import opened Text
  import opened CompanyForm

  /** The form as typed; the revisit interval is the number input's value. */
  datatype AddForm = AddForm(
    companyName: string,
    careersUrl: string,
    lastVisitedOn: Option<string>,
    revisitAfterDays: real,
    tagsText: Option<string>)

  /** The request body of the create call. */
  datatype CreateRequest = CreateRequest(
    companyName: string,
    careersUrl: string,
    lastVisitedOn: Option<string>,
    revisitAfterDays: int,
    tags: seq<string>)

  /** What pressing Add does: errors under fields, or the create call. */
  datatype Outcome = Invalid(errors: seq<FieldError>) | Create(request: CreateRequest)

  /** The bound the input's `max`, its hint and its message advertise. */
  const MaxRevisitAfterDays := 20

  /** The bound the schema's `max(10, "Max 20")` enforces. */
  const SchemaMaxAsWritten := 10

  const DefaultRevisitAfterDays := 7

  /** The form the dialog opens with, seeded with the name typed into the
      search box when there is one. */
  function Defaults(initialName: Option<string>): (r: AddForm)
    ensures r.companyName == initialName.GetOr([])
    ensures RevisitError(r.revisitAfterDays, SchemaMaxAsWritten).None?
    ensures TagsFromText(r.tagsText, Same) == []
    ensures forall parse: DateParser :: !BadDate(r.lastVisitedOn, parse)
  {
    AddForm(initialName.GetOr([]), [], Some([]), DefaultRevisitAfterDays as real, Some([]))
  }

  /** This dialog's `tagsFromText` keeps the pieces' case. */
  function Same(s: string): string {
    s
  }

  function CreateTags(text: Option<string>): (r: seq<string>)
    ensures forall i | 0 <= i < |r| :: r[i] != [] && JsTrimmed(r[i])
  {
    CreateTagsTrimmed(text);
    TagsFromText(text, Same)
  }

  lemma CreateTagsTrimmed(text: Option<string>)
    ensures forall i | 0 <= i < |TagsFromText(text, Same)| :: JsTrimmed(TagsFromText(text, Same)[i])
  {
    var r := TagsFromText(text, Same);
    if text.Some? && text.value != [] {
      forall i | 0 <= i < |r|
        ensures JsTrimmed(r[i])
      {
        TagsFromTextMember(text.value, Same, r[i]);
        var j :| 0 <= j < |Split(text.value, ',')| && Same(JsTrim(Split(text.value, ',')[j])) == r[i];
        JsTrimIsTrimmed(Split(text.value, ',')[j]);
      }
    }
  }

  /** The schema's verdict, one message per failing field. */
  function SchemaErrors(v: AddForm, isUrl: string -> bool, maxRevisit: int): (r: seq<FieldError>)
    ensures r == [] <==>
      && 1 <= |v.companyName| <= MaxNameLength
      && isUrl(v.careersUrl)
      && v.revisitAfterDays == v.revisitAfterDays.Floor as real
      && 1 <= v.revisitAfterDays.Floor <= maxRevisit
  {
    Listed(NameError(v.companyName)) + Listed(UrlError(v.careersUrl, isUrl)) + Listed(RevisitError(v.revisitAfterDays, maxRevisit))
  }

  /** `onSubmit` behind the schema, for a given revisit bound: the schema,
      then the date, then the request with trimmed name and URL. */
  function SubmitWith(v: AddForm, isUrl: string -> bool, parse: DateParser, maxRevisit: int): (r: Outcome)
    ensures r.Create? <==> SchemaErrors(v, isUrl, maxRevisit) == [] && !BadDate(v.lastVisitedOn, parse)
    ensures r.Invalid? ==> r.errors != []
    ensures r.Create? ==>
      && 1 <= r.request.revisitAfterDays <= maxRevisit
      && r.request.revisitAfterDays as real == v.revisitAfterDays
      && r.request.companyName == JsTrim(v.companyName)
      && r.request.careersUrl == JsTrim(v.careersUrl)
      && (r.request.lastVisitedOn.None? <==> JsTrim(v.lastVisitedOn.GetOr([])) == [])
      && r.request.tags == CreateTags(v.tagsText)
  {
    var errors := SchemaErrors(v, isUrl, maxRevisit);
    if errors != [] then Invalid(errors)
    else
      match DateField("lastVisitedOn", v.lastVisitedOn, parse)
      case Failure(e) => Invalid([e])
      case Success(ymd) =>
        Create(CreateRequest(JsTrim(v.companyName), JsTrim(v.careersUrl), ymd,
          v.revisitAfterDays.Floor, CreateTags(v.tagsText)))
  }

  /** The dialog as written: the schema stops at 10. */
  function SubmitAsWritten(v: AddForm, isUrl: string -> bool, parse: DateParser): (r: Outcome)
    ensures r.Create? ==> r.request.revisitAfterDays <= SchemaMaxAsWritten
  {
    SubmitWith(v, isUrl, parse, SchemaMaxAsWritten)
  }

  /** The dialog as its input, hint and message describe it. */
  function Submit(v: AddForm, isUrl: string -> bool, parse: DateParser): (r: Outcome)
    ensures r.Create? ==> 1 <= r.request.revisitAfterDays <= MaxRevisitAfterDays
  {
    SubmitWith(v, isUrl, parse, MaxRevisitAfterDays)
  }

  /** The two differ exactly on intervals 11 to 20: there the dialog as
      written refuses the form with the message "Max 20", which names a
      bound the value is within, and the described dialog sends it. */
  lemma AdvertisedIntervalRefused(v: AddForm, isUrl: string -> bool, parse: DateParser)
    requires 1 <= |v.companyName| <= MaxNameLength && isUrl(v.careersUrl) && !BadDate(v.lastVisitedOn, parse)
    requires v.revisitAfterDays == v.revisitAfterDays.Floor as real
    ensures SubmitAsWritten(v, isUrl, parse).Create? != Submit(v, isUrl, parse).Create? <==>
      SchemaMaxAsWritten < v.revisitAfterDays.Floor <= MaxRevisitAfterDays
    ensures SchemaMaxAsWritten < v.revisitAfterDays.Floor <= MaxRevisitAfterDays ==>
      SubmitAsWritten(v, isUrl, parse) == Invalid([FieldError("revisitAfterDays", "Max 20")])
  {
    var d := v.revisitAfterDays.Floor;
    if SchemaMaxAsWritten < d <= MaxRevisitAfterDays {
      assert RevisitError(v.revisitAfterDays, SchemaMaxAsWritten) == Some(FieldError("revisitAfterDays", "Max 20"));
      assert SchemaErrors(v, isUrl, SchemaMaxAsWritten) == [FieldError("revisitAfterDays", "Max 20")];
    }
  }

  /** A form a user would send: a 15-day interval, refused as written
      with a message it satisfies, sent by the described dialog. */
  lemma FifteenDaysRefused()
    ensures SubmitAsWritten(AddForm("Acme", "https://acme.example", None, 15.0, None), (s: string) => true, (s: string) => None)
      == Invalid([FieldError("revisitAfterDays", "Max 20")])
    ensures Submit(AddForm("Acme", "https://acme.example", None, 15.0, None), (s: string) => true, (s: string) => None).Create?
  {
    var v := AddForm("Acme", "https://acme.example", None, 15.0, None);
    assert !BadDate(None, (s: string) => None);
    assert v.revisitAfterDays.Floor == 15;
    AdvertisedIntervalRefused(v, (s: string) => true, (s: string) => None);
  }
}
