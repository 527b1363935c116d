/** The update-company dialog: its own reading of the tag list, the form
    it opens with for the selected company, its schema, and the update
    request it sends. */
module UpdateCompanyDialog {
  import opened Wrappers
  import opened Text
  import opened CompanyForm
  import opened TagMultiSelect
  import opened TagOptions
  import opened CompaniesTable

  // ---------------------------------------------------------------------
  // Tag options
  // ---------------------------------------------------------------------

  /** A tag as this dialog reads it: the server's field names, or the
      picker's, any of them missing. */
  datatype LooseTag = LooseTag(tagKey: Option<string>, key: Option<string>, tagName: Option<string>, name: Option<string>)

  /** One option: `String(tagKey ?? key ?? "").trim()` for the key and
      `String(tagName ?? name ?? tagKey ?? key ?? "").trim()` for the
      label. */
  function DialogOption(t: LooseTag): (r: TagOption)
    ensures JsTrimmed(r.key) && JsTrimmed(r.labelText)
  {
    var key := t.tagKey.GetOr(t.key.GetOr([]));
    var name := t.tagName.GetOr(t.name.GetOr(key));
    JsTrimIsTrimmed(key);
    JsTrimIsTrimmed(name);
    TagOption(JsTrim(key), JsTrim(name))
  }

  function DialogOptionsOf(tags: seq<LooseTag>): (r: seq<TagOption>)
    ensures |r| == |tags| && forall i | 0 <= i < |tags| :: r[i] == DialogOption(tags[i])
  {
    seq(|tags|, i requires 0 <= i < |tags| => DialogOption(tags[i]))
  }

  /** `tagOptions`: options with an empty key or label are dropped. */
  function DialogOptions(data: Option<seq<LooseTag>>): (r: seq<TagOption>)
    ensures |r| <= |data.GetOr([])|
    ensures forall i | 0 <= i < |r| :: Complete(r[i])
  {
    var all := DialogOptionsOf(data.GetOr([]));
    FilterSound(all, Complete);
    Filter(all, Complete)
  }

  /** The server's tag, read through this dialog's field names. */
  function Loosen(t: TagDto): LooseTag {
    LooseTag(t.tagKey, None, t.tagName, None)
  }

  /** For tags that carry a name, this dialog offers exactly what the
      picker's shared hook offers, in the same order. */
  lemma NamedTagsAgree(tags: seq<TagDto>)
    requires forall i | 0 <= i < |tags| :: tags[i].tagName.Some?
    ensures DialogOptions(Some(seq(|tags|, i requires 0 <= i < |tags| => Loosen(tags[i])))) == UseTagOptions(Some(tags))
  {
    var loose := seq(|tags|, i requires 0 <= i < |tags| => Loosen(tags[i]));
    forall i | 0 <= i < |tags|
      ensures DialogOption(loose[i]) == OptionOf(tags[i])
    {
      JsTrimEmpty();
    }
    assert DialogOptionsOf(loose) == OptionsOf(tags);
  }

  /** A tag without a name is offered here under its key, where the shared
      hook drops it. */
  lemma NamelessTagLabelledByKey(t: TagDto)
    requires t.tagName.None? && t.tagKey.Some? && JsTrim(t.tagKey.value) != []
    ensures DialogOption(Loosen(t)) == TagOption(JsTrim(t.tagKey.value), JsTrim(t.tagKey.value))
    ensures Complete(DialogOption(Loosen(t))) && !Complete(OptionOf(t))
  {
  }

  // ---------------------------------------------------------------------
  // Opening the dialog
  // ---------------------------------------------------------------------

  function HasKey(k: string): TagOption -> bool {
    (o: TagOption) => o.key == k
  }

  /** A saved tag key shown as a chip: the first option with that key, or
      the key standing for its own label. */
  function Preselect(k: string, options: seq<TagOption>): (r: TagOption)
    ensures r.key == k
    ensures r in options || r == TagOption(k, k)
    ensures (forall i | 0 <= i < |options| :: options[i].key != k) ==> r == TagOption(k, k)
    ensures (exists i | 0 <= i < |options| :: options[i].key == k) ==> r in options
  {
    var i := FirstIndex(options, HasKey(k));
    if i >= 0 then options[i] else TagOption(k, k)
  }

  /** The chips the dialog opens with: one per non-empty saved key, in
      order. */
  function SelectedTags(keys: seq<string>, options: seq<TagOption>): (r: seq<TagOption>)
    ensures Keys(r) == Filter(keys, NonEmpty)
    ensures forall i | 0 <= i < |r| :: r[i] in options || r[i] == TagOption(r[i].key, r[i].key)
  {
    var ks := Filter(keys, NonEmpty);
    var r := seq(|ks|, i requires 0 <= i < |ks| => Preselect(ks[i], options));
    assert Keys(r) == ks;
    r
  }

  /** With complete options every chip has a key and a label. */
  lemma SelectedTagsComplete(keys: seq<string>, options: seq<TagOption>)
    requires forall i | 0 <= i < |options| :: Complete(options[i])
    ensures forall i | 0 <= i < |SelectedTags(keys, options)| :: Complete(SelectedTags(keys, options)[i])
  {
    var ks := Filter(keys, NonEmpty);
    var r := SelectedTags(keys, options);
    FilterSound(keys, NonEmpty);
    forall i | 0 <= i < |r|
      ensures Complete(r[i])
    {
      assert Keys(r)[i] == ks[i];
    }
  }

  /** The form as typed; the chips are the picker's value. */
  datatype UpdateForm = UpdateForm(
    companyName: string,
    careersUrl: string,
    lastVisitedOn: Option<string>,
    revisitAfterDays: real,
    tags: seq<TagOption>)

  const DefaultRevisitAfterDays := 7

  /** The form the dialog opens with. The row's `tags` here are the keys
      of the company's saved tags. */
  function Defaults(company: Option<CompanyRow>, options: seq<TagOption>, write: DateWriter): (r: UpdateForm)
    ensures company.None? ==> r.companyName == [] && r.tags == [] && r.revisitAfterDays == DefaultRevisitAfterDays as real
    ensures company.Some? ==> Keys(r.tags) == Filter(company.value.tags, NonEmpty)
  {
    match company
    case None => UpdateForm([], [], Some([]), DefaultRevisitAfterDays as real, [])
    case Some(c) =>
      UpdateForm(c.companyName, c.careersUrl,
        Some(if Truthy(c.lastVisitedOn) then write(c.lastVisitedOn.value) else []),
        c.revisitAfterDays as real, SelectedTags(c.tags, options))
  }

  // ---------------------------------------------------------------------
  // Submitting
  // ---------------------------------------------------------------------

  const MaxRevisitAfterDays := 20

  /** `z.array(z.object({ key: min(1), label: min(1) }))`. */
  function TagsError(tags: seq<TagOption>): (r: Option<FieldError>)
    ensures r.None? <==> forall i | 0 <= i < |tags| :: Complete(tags[i])
  {
    if forall i | 0 <= i < |tags| :: Complete(tags[i]) then None
    else Some(FieldError("tags", "String must contain at least 1 character(s)"))
  }

  function SchemaErrors(v: UpdateForm, isUrl: string -> bool): (r: seq<FieldError>)
    ensures r == [] <==>
      && 1 <= |v.companyName| <= MaxNameLength
      && isUrl(v.careersUrl)
      && v.revisitAfterDays == v.revisitAfterDays.Floor as real
      && 1 <= v.revisitAfterDays.Floor <= MaxRevisitAfterDays
      && forall i | 0 <= i < |v.tags| :: Complete(v.tags[i])
  {
    Listed(NameError(v.companyName)) + Listed(UrlError(v.careersUrl, isUrl))
      + Listed(RevisitError(v.revisitAfterDays, MaxRevisitAfterDays)) + Listed(TagsError(v.tags))
  }

  /** The body of the update call; a missing date is left out of it. */
  datatype UpdateRequest = UpdateRequest(
    companyName: string,
    careersUrl: string,
    lastVisitedOn: Option<string>,
    revisitAfterDays: int,
    tags: seq<string>)

  /** What pressing Save does. */
  datatype Outcome = Invalid(errors: seq<FieldError>) | NoCompany | Update(companyId: string, request: UpdateRequest)

  /** `onSubmit` behind the schema: nothing without a company, an error on
      a date that does not parse, else the update of that company with
      trimmed name and URL and the chips' keys in order. */
  function Submit(v: UpdateForm, company: Option<CompanyRow>, isUrl: string -> bool, parse: DateParser): (r: Outcome)
    ensures r.NoCompany? <==> SchemaErrors(v, isUrl) == [] && company.None?
    ensures r.Update? <==> SchemaErrors(v, isUrl) == [] && company.Some? && !BadDate(v.lastVisitedOn, parse)
    ensures r.Invalid? ==> r.errors != []
    ensures r.Update? ==>
      && r.companyId == company.value.companyId
      && 1 <= r.request.revisitAfterDays <= MaxRevisitAfterDays
      && r.request.revisitAfterDays as real == v.revisitAfterDays
      && r.request.companyName == JsTrim(v.companyName)
      && r.request.careersUrl == JsTrim(v.careersUrl)
      && (r.request.lastVisitedOn.None? <==> JsTrim(v.lastVisitedOn.GetOr([])) == [])
      && r.request.tags == Keys(v.tags)
  {
    var errors := SchemaErrors(v, isUrl);
    if errors != [] then Invalid(errors)
    else if company.None? then NoCompany
    else
      match DateField("lastVisitedOn", v.lastVisitedOn, parse)
      case Failure(e) => Invalid([e])
      case Success(ymd) =>
        Update(company.value.companyId,
          UpdateRequest(JsTrim(v.companyName), JsTrim(v.careersUrl), ymd, v.revisitAfterDays.Floor, Keys(v.tags)))
  }

  /** Opening the dialog on a company and saving it untouched sends the
      company back as it was: same name, URL, date and interval, and its
      non-empty tag keys in order. */
  lemma SaveUntouchedKeepsCompany(c: CompanyRow, data: Option<seq<LooseTag>>, write: DateWriter,
                                  isUrl: string -> bool, parse: DateParser)
    requires 1 <= |c.companyName| <= MaxNameLength && JsTrimmed(c.companyName)
    requires isUrl(c.careersUrl) && JsTrimmed(c.careersUrl)
    requires 1 <= c.revisitAfterDays <= MaxRevisitAfterDays
    requires Truthy(c.lastVisitedOn) ==>
      JsTrim(write(c.lastVisitedOn.value)) != [] && parse(JsTrim(write(c.lastVisitedOn.value))) == c.lastVisitedOn
    ensures Submit(Defaults(Some(c), DialogOptions(data), write), Some(c), isUrl, parse) ==
      Update(c.companyId, UpdateRequest(c.companyName, c.careersUrl, GivenDate(c.lastVisitedOn),
        c.revisitAfterDays, Filter(c.tags, NonEmpty)))
  {
    var options := DialogOptions(data);
    var v := Defaults(Some(c), options, write);
    DefaultsPassSchema(c, options, write, isUrl);
    DateRoundTrip("lastVisitedOn", c.lastVisitedOn, write, parse);
    assert v.revisitAfterDays.Floor == c.revisitAfterDays;
    assert Submit(v, Some(c), isUrl, parse) == Update(c.companyId, UpdateRequest(JsTrim(c.companyName), JsTrim(c.careersUrl),
      GivenDate(c.lastVisitedOn), c.revisitAfterDays, Filter(c.tags, NonEmpty)));
    TrimmedFixed(c.companyName);
    TrimmedFixed(c.careersUrl);
  }

  lemma TrimmedFixed(s: string)
    requires JsTrimmed(s)
    ensures JsTrim(s) == s
  {
    JsTrimmedIsFixed(s);
  }

  /** The form opened on a valid company passes the schema. */
  lemma DefaultsPassSchema(c: CompanyRow, options: seq<TagOption>, write: DateWriter, isUrl: string -> bool)
    requires 1 <= |c.companyName| <= MaxNameLength && isUrl(c.careersUrl)
    requires 1 <= c.revisitAfterDays <= MaxRevisitAfterDays
    requires forall i | 0 <= i < |options| :: Complete(options[i])
    ensures SchemaErrors(Defaults(Some(c), options, write), isUrl) == []
  {
    SelectedTagsComplete(c.tags, options);
    assert (c.revisitAfterDays as real).Floor == c.revisitAfterDays;
  }
}
