/** `CompanyService`: request checking and defaults around the company
    repository, and the translation of database failures into the
    service's own exceptions. */
module CompanyService {
  import opened Wrappers
  import opened Text
  import opened Errors
  import opened Tags
  import opened TagStore
  import opened DueFilters
  import opened Database
  import opened CompanyQuery
  import Repo = CompanyRepository
  import Dates

  // ---------------------------------------------------------------------
  // Listing

  const DefaultPage: int := 0
  const DefaultPageSize: int := 10
  const MaxPageSize: int := 200
  const MaxPageNumber: int := 1_000_000
  const DefaultRevisitAfterDays: int := 7

  /** The page number and the page size the list is read with. */
  datatype Paging = Paging(page: int, size: int)

  /** The paging checks of `listCompanies`: defaults for missing values,
      a page between 0 and `MaxPageNumber`, a positive size, and sizes
      above `MaxPageSize` cut down to it. */
  function CheckPaging(page: Option<int>, size: Option<int>): (r: Result<Paging, Failure>)
    ensures var p, s := page.GetOr(DefaultPage), size.GetOr(DefaultPageSize);
      (r.Success? <==> 0 <= p <= MaxPageNumber && s > 0) &&
      (r.Success? ==> r.value.page == p && r.value.size == (if s > MaxPageSize then MaxPageSize else s)) &&
      (r.Failure? ==> r.error.IllegalArgument?)
    ensures r.Success? ==> 0 <= r.value.page <= MaxPageNumber && 1 <= r.value.size <= MaxPageSize
  {
    var p := page.GetOr(DefaultPage);
    var s := size.GetOr(DefaultPageSize);
    if p < 0 then Failure(IllegalArgument("page must be >= 0, but got: " + IntText(p)))
    else if p > MaxPageNumber then
      Failure(IllegalArgument("page must be <= " + IntText(MaxPageNumber) + ", but got: " + IntText(p)))
    else if s <= 0 then Failure(IllegalArgument("size must be > 0, but got: " + IntText(s)))
    else Success(Paging(p, if s > MaxPageSize then MaxPageSize else s))
  }

  /** Once the paging checks pass, the repository's offset guard can never
      fire: the offset is at most 200,000,000. */
  lemma CheckedOffsetFits(page: Option<int>, size: Option<int>)
    requires CheckPaging(page, size).Success?
    ensures var pg := CheckPaging(page, size).value;
      0 <= pg.page * pg.size <= MaxPageNumber * MaxPageSize <= MaxInt
  {
    var pg := CheckPaging(page, size).value;
    OffsetBound(pg.page, pg.size);
  }

  lemma OffsetBound(page: int, size: int)
    requires 0 <= page <= MaxPageNumber && 1 <= size <= MaxPageSize
    ensures 0 <= page * size <= MaxPageNumber * MaxPageSize <= MaxInt
  {
    Dates.MulMonotone(page, MaxPageNumber, size);
    Dates.MulMonotone(size, MaxPageSize, MaxPageNumber);
  }

  /** `key` applied to each name, in order. */
  function KeysOf(names: seq<string>, key: string -> string): (r: seq<string>)
    ensures |r| == |names|
    ensures forall i | 0 <= i < |r| :: r[i] == key(names[i])
  {
    seq(|names|, i requires 0 <= i < |names| => key(names[i]))
  }

  /** `parseTags`: the comma-separated list, each piece trimmed, blank
      pieces dropped, each turned into its key, each key once. */
  function ParseTags(csv: Option<string>): (r: seq<string>)
    ensures csv.None? || JavaIsBlank(csv.value) ==> r == []
    ensures NoDuplicates(r)
    ensures forall i | 0 <= i < |r| :: IsKey(r[i])
  {
    if csv.None? || JavaIsBlank(csv.value) then []
    else Distinct(KeysOf(Filter(Repo.TrimAll(JavaSplit(csv.value, ',')), Repo.NonBlank), KeyOf))
  }

  /** A key of a kept name is the key of a non-blank input name. */
  lemma KeyOfKeptName(xs: seq<string>, key: string -> string, k: string)
    requires k in KeysOf(Filter(xs, Repo.NonBlank), key)
    ensures exists i | 0 <= i < |xs| :: Repo.NonBlank(xs[i]) && key(xs[i]) == k
  {
    var kept := Filter(xs, Repo.NonBlank);
    var keys := KeysOf(kept, key);
    var j :| 0 <= j < |keys| && keys[j] == k;
    FilterMember(xs, Repo.NonBlank, kept[j]);
    var i :| 0 <= i < |xs| && xs[i] == kept[j];
    assert Repo.NonBlank(xs[i]) && key(xs[i]) == k;
  }

  /** The key of a non-blank input name is among the kept keys. */
  lemma KeyOfNonBlankName(xs: seq<string>, key: string -> string, i: nat)
    requires i < |xs| && Repo.NonBlank(xs[i])
    ensures key(xs[i]) in KeysOf(Filter(xs, Repo.NonBlank), key)
  {
    var kept := Filter(xs, Repo.NonBlank);
    FilterMember(xs, Repo.NonBlank, xs[i]);
    var j :| 0 <= j < |kept| && kept[j] == xs[i];
    assert KeysOf(kept, key)[j] == key(xs[i]);
  }

  /** The keys of the non-blank names, each once, are exactly those. */
  lemma KeysOfNonBlank(xs: seq<string>, key: string -> string, k: string)
    ensures k in Distinct(KeysOf(Filter(xs, Repo.NonBlank), key)) <==>
      exists i | 0 <= i < |xs| :: Repo.NonBlank(xs[i]) && key(xs[i]) == k
  {
    DistinctMember(KeysOf(Filter(xs, Repo.NonBlank), key), k);
    if k in KeysOf(Filter(xs, Repo.NonBlank), key) {
      KeyOfKeptName(xs, key, k);
    }
    if exists i | 0 <= i < |xs| :: Repo.NonBlank(xs[i]) && key(xs[i]) == k {
      var i :| 0 <= i < |xs| && Repo.NonBlank(xs[i]) && key(xs[i]) == k;
      KeyOfNonBlankName(xs, key, i);
    }
  }

  /** The tag filter holds exactly the keys of the non-blank pieces. */
  lemma ParseTagsKeys(csv: string, k: string)
    requires !JavaIsBlank(csv)
    ensures k in ParseTags(Some(csv)) <==>
      exists i | 0 <= i < |JavaSplit(csv, ',')| ::
        Repo.NonBlank(JavaTrim(JavaSplit(csv, ',')[i])) && KeyOf(JavaTrim(JavaSplit(csv, ',')[i])) == k
  {
    var pieces := JavaSplit(csv, ',');
    var trimmed := Repo.TrimAll(pieces);
    KeysOfNonBlank(trimmed, KeyOf, k);
    assert ParseTags(Some(csv)) == Distinct(KeysOf(Filter(trimmed, Repo.NonBlank), KeyOf));
  }

  /** `DateUtils.parseDateOrNull`: no date for a missing or blank value;
      otherwise the trimmed text must parse (`parse` stands for
      `LocalDate.parse`). */
  function ParseDateOrNull(raw: Option<string>, parse: string -> Option<Day>): (r: Result<Option<Day>, Failure>)
    ensures r == Success(None) <==> raw.None? || JavaIsBlank(raw.value)
    ensures r.Failure? <==> raw.Some? && !JavaIsBlank(raw.value) && parse(JavaTrim(raw.value)).None?
    ensures r.Failure? ==> r.error == IllegalArgument("Invalid date format. Expected YYYY-MM-DD.")
    ensures r.Success? && r.value.Some? ==> parse(JavaTrim(raw.value)) == r.value
  {
    if raw.None? || JavaIsBlank(raw.value) then Success(None)
    else
      var d := parse(JavaTrim(raw.value));
      if d.None? then Failure(IllegalArgument("Invalid date format. Expected YYYY-MM-DD.")) else Success(d)
  }

  /** `PagedCompaniesResponse`. */
  datatype PagedCompanies = PagedCompanies(items: seq<CompanyView>, page: int, size: int, total: nat)

  /** The filters of one list request, once parsed. */
  function ParseFilters(q: Option<string>, tagsCsv: Option<string>, dueRaw: Option<string>,
                        dateRaw: Option<string>, lastVisitedOnRaw: Option<string>,
                        parse: string -> Option<Day>): (r: Result<Filters, Failure>)
    ensures r.Success? ==> r.value.q == q && r.value.tagsAny == Some(ParseTags(tagsCsv))
    ensures r.Success? <==>
      FromStringOrNull(dueRaw).Success? && ParseDateOrNull(dateRaw, parse).Success? &&
      ParseDateOrNull(lastVisitedOnRaw, parse).Success?
    ensures r.Success? ==>
      r.value.due == FromStringOrNull(dueRaw).value &&
      r.value.date == ParseDateOrNull(dateRaw, parse).value &&
      r.value.lastVisitedOn == ParseDateOrNull(lastVisitedOnRaw, parse).value
  {
    var tags := ParseTags(tagsCsv);
    var due := FromStringOrNull(dueRaw);
    if due.Failure? then Failure(due.error)
    else
      var date := ParseDateOrNull(dateRaw, parse);
      if date.Failure? then Failure(date.error)
      else
        var last := ParseDateOrNull(lastVisitedOnRaw, parse);
        if last.Failure? then Failure(last.error)
        else Success(Filters(q, Some(tags), due.value, date.value, last.value))
  }

  /** `listCompanies`: the paging checks first, then the filters, then one
      page of matching companies and their total count. `today` is the
      database's `CURRENT_DATE`. */
  function ListCompanies(db: Db, today: Day, page: Option<int>, size: Option<int>, q: Option<string>,
                         tagsCsv: Option<string>, dueRaw: Option<string>, dateRaw: Option<string>,
                         lastVisitedOnRaw: Option<string>, parse: string -> Option<Day>)
    : (r: Result<PagedCompanies, Failure>)
    requires page.Some? ==> IsInt(page.value)
    requires size.Some? ==> IsInt(size.value)
    ensures CheckPaging(page, size).Failure? ==> r == Failure(CheckPaging(page, size).error)
    ensures r.Success? <==>
      CheckPaging(page, size).Success? && ParseFilters(q, tagsCsv, dueRaw, dateRaw, lastVisitedOnRaw, parse).Success?
    ensures r.Success? ==>
      var pg := CheckPaging(page, size).value;
      var f := ParseFilters(q, tagsCsv, dueRaw, dateRaw, lastVisitedOnRaw, parse).value;
      r.value.page == pg.page && r.value.size == pg.size &&
      r.value.items == FindPage(db, today, pg.page * pg.size, pg.size, f) &&
      r.value.total == CountCompanies(db, today, f) &&
      |r.value.items| <= MaxPageSize
  {
    var pg := CheckPaging(page, size);
    if pg.Failure? then Failure(pg.error)
    else
      var f := ParseFilters(q, tagsCsv, dueRaw, dateRaw, lastVisitedOnRaw, parse);
      if f.Failure? then Failure(f.error)
      else
        CheckedOffsetFits(page, size);
        var items := FindCompanies(db, today, pg.value.page, pg.value.size, f.value);
        Success(PagedCompanies(items.value, pg.value.page, pg.value.size, CountCompanies(db, today, f.value)))
  }

  // ---------------------------------------------------------------------
  // Tags of a request

  /** A tag as a request sends it; either part may be missing. */
  datatype TagInput = TagInput(tagKey: Option<string>, tagName: Option<string>)

  /** The name a tag is shown with: its name unless that is missing or
      blank, else its key, trimmed; nothing at all becomes `""`. */
  function DisplayName(t: TagInput): (r: string)
    ensures t.tagName.Some? && !JavaIsBlank(t.tagName.value) ==> r == JavaTrim(t.tagName.value)
    ensures (t.tagName.None? || JavaIsBlank(t.tagName.value)) && t.tagKey.Some? ==> r == JavaTrim(t.tagKey.value)
    ensures (t.tagName.None? || JavaIsBlank(t.tagName.value)) && t.tagKey.None? ==> r == ""
  {
    var candidate := if t.tagName.Some? && !JavaIsBlank(t.tagName.value) then t.tagName else t.tagKey;
    if candidate.None? then "" else JavaTrim(candidate.value)
  }

  /** The tags that are present, in order. */
  function Present(tags: seq<Option<TagInput>>): (r: seq<TagInput>)
    ensures |r| <= |tags|
    ensures forall t :: t in r <==> Some(t) in tags
  {
    if tags == [] then []
    else (if tags[0].Some? then [tags[0].value] else []) + Present(tags[1..])
  }

  /** Each display name, in order. */
  function DisplayNames(tags: seq<TagInput>): (r: seq<string>)
    ensures |r| == |tags|
    ensures forall i | 0 <= i < |r| :: r[i] == DisplayName(tags[i])
  {
    seq(|tags|, i requires 0 <= i < |tags| => DisplayName(tags[i]))
  }

  /** `extractTagDisplayNames`: missing tags skipped, each tag's display
      name, blank ones dropped, each name once in order of first
      appearance. */
  function ExtractTagDisplayNames(tags: Option<seq<Option<TagInput>>>): (r: seq<string>)
    ensures tags.None? ==> r == []
    ensures NoDuplicates(r)
    ensures forall i | 0 <= i < |r| :: Repo.NonBlank(r[i])
  {
    if tags.None? || tags.value == [] then []
    else Distinct(Filter(DisplayNames(Present(tags.value)), Repo.NonBlank))
  }

  /** The extracted names are exactly the non-blank display names of the
      tags sent. */
  lemma ExtractedNames(tags: seq<Option<TagInput>>, s: string)
    ensures s in ExtractTagDisplayNames(Some(tags)) <==>
      Repo.NonBlank(s) && exists t | Some(t) in tags :: DisplayName(t) == s
  {
    if tags != [] {
      var names := DisplayNames(Present(tags));
      FilterMember(names, Repo.NonBlank, s);
      if s in names {
        var i :| 0 <= i < |names| && names[i] == s;
        assert Some(Present(tags)[i]) in tags;
      }
      if exists t | Some(t) in tags :: DisplayName(t) == s {
        var t :| Some(t) in tags && DisplayName(t) == s;
        var i :| 0 <= i < |Present(tags)| && Present(tags)[i] == t;
        assert names[i] == s;
      }
    }
  }

  /** An extracted name is its own trim, so normalising it again in the
      repository changes nothing. */
  lemma ExtractedAreTrimmed(tags: Option<seq<Option<TagInput>>>, i: nat)
    requires i < |ExtractTagDisplayNames(tags)|
    ensures JavaTrimmed(ExtractTagDisplayNames(tags)[i])
  {
    var names := ExtractTagDisplayNames(tags);
    var all := DisplayNames(Present(tags.value));
    FilterMember(all, Repo.NonBlank, names[i]);
    var j :| 0 <= j < |all| && all[j] == names[i];
    var t := Present(tags.value)[j];
    var candidate := if t.tagName.Some? && !JavaIsBlank(t.tagName.value) then t.tagName else t.tagKey;
    if candidate.Some? {
      JavaTrimIsTrimmed(candidate.value);
    }
  }

  /** The tag table with a row for every name, when there are names. */
  function WithTags(db: Db, names: seq<string>): (r: Db)
    ensures r.companies == db.companies && r.companyTags == db.companyTags && r.checklist == db.checklist
    ensures names == [] ==> r == db
    ensures db.tags <= r.tags
  {
    if names == [] then db else db.(tags := EnsureTagsExist(db.tags, Some(names)))
  }

  // ---------------------------------------------------------------------
  // Create

  /** `CompanyCreateRequest`; a missing value is `None`. */
  datatype CreateRequest = CreateRequest(
    companyName: Option<string>,
    careersUrl: Option<string>,
    lastVisitedOn: Option<Day>,
    revisitAfterDays: Option<int>,
    tags: Option<seq<Option<TagInput>>>)

  /** `createCompany`: a missing name or URL is dereferenced (a
      `NullPointerException`); name and URL are trimmed, the revisit
      interval defaults to `DefaultRevisitAfterDays`, the named tags are
      created, then the company is inserted with the generated id
      `freshId`. A duplicate key becomes `DuplicateCareersUrlException`;
      every other failure passes through. */
  function CreateCompany(db: Db, freshId: CompanyId, req: CreateRequest): (r: Result<Repo.Saved, Failure>)
    ensures req.companyName.None? || req.careersUrl.None? ==> r == Failure(NullReference)
    ensures req.companyName.Some? && req.careersUrl.Some? ==>
      var names := ExtractTagDisplayNames(req.tags);
      var ins := Repo.InsertCompany(WithTags(db, names), freshId, JavaTrim(req.companyName.value),
        JavaTrim(req.careersUrl.value), req.lastVisitedOn, req.revisitAfterDays.GetOr(DefaultRevisitAfterDays), names);
      (ins.Success? ==> r == ins) &&
      (ins.Failure? && ins.error == DuplicateKey ==> r == Failure(DuplicateCareersUrl(JavaTrim(req.careersUrl.value)))) &&
      (ins.Failure? && ins.error != DuplicateKey ==> r == ins)
  {
    if req.companyName.None? || req.careersUrl.None? then Failure(NullReference)
    else
      var name := JavaTrim(req.companyName.value);
      var url := JavaTrim(req.careersUrl.value);
      var revisit := req.revisitAfterDays.GetOr(DefaultRevisitAfterDays);
      var names := ExtractTagDisplayNames(req.tags);
      var ins := Repo.InsertCompany(WithTags(db, names), freshId, name, url, req.lastVisitedOn, revisit, names);
      if ins.Failure? && ins.error == DuplicateKey then Failure(DuplicateCareersUrl(url)) else ins
  }

  /** Every tag a created company was sent is linked to it: the tags are
      created before the links are written. */
  lemma CreatedCompanyHasItsTags(db: Db, freshId: CompanyId, req: CreateRequest, i: nat)
    requires CreateCompany(db, freshId, req).Success?
    requires i < |ExtractTagDisplayNames(req.tags)|
    ensures (freshId, KeyOf(ExtractTagDisplayNames(req.tags)[i])) in CreateCompany(db, freshId, req).value.db.companyTags
  {
    var names := ExtractTagDisplayNames(req.tags);
    var db1 := WithTags(db, names);
    EnsuredKeysExist(db.tags, names, i);
    assert HasKey(db1.tags, KeyOf(names[i]));
    ExtractedAreTrimmed(req.tags, i);
    Repo.ExistingKeyOfName(db1.tags, names, i);
    Repo.InsertLinksExactly(db1, freshId, JavaTrim(req.companyName.value), JavaTrim(req.careersUrl.value),
      req.lastVisitedOn, req.revisitAfterDays.GetOr(DefaultRevisitAfterDays), names, (freshId, KeyOf(names[i])));
  }

  /** A second company with the same careers URL is refused with 409. */
  lemma SameUrlTwiceConflicts(db: Db, id1: CompanyId, id2: CompanyId, req: CreateRequest, req2: CreateRequest)
    requires CreateCompany(db, id1, req).Success?
    requires req2.companyName.Some? && req2.careersUrl == req.careersUrl && id2 != id1
    requires req2.revisitAfterDays.GetOr(DefaultRevisitAfterDays) >= MinRevisitAfterDays
    ensures var once := CreateCompany(db, id1, req).value.db;
      CreateCompany(once, id2, req2) == Failure(DuplicateCareersUrl(JavaTrim(req.careersUrl.value)))
  {
    var url := JavaTrim(req.careersUrl.value);
    var names := ExtractTagDisplayNames(req.tags);
    var ins := Repo.InsertCompany(WithTags(db, names), id1, JavaTrim(req.companyName.value), url,
      req.lastVisitedOn, req.revisitAfterDays.GetOr(DefaultRevisitAfterDays), names);
    assert ins.Success?;
    Repo.InsertedUrlTaken(WithTags(db, names), id1, JavaTrim(req.companyName.value), url,
      req.lastVisitedOn, req.revisitAfterDays.GetOr(DefaultRevisitAfterDays), names, id2);
    var once := ins.value.db;
    assert once == CreateCompany(db, id1, req).value.db;
    var names2 := ExtractTagDisplayNames(req2.tags);
    var db2 := WithTags(once, names2);
    assert Repo.UrlTaken(db2.companies, url, id2);
    var ins2 := Repo.InsertCompany(db2, id2, JavaTrim(req2.companyName.value), url,
      req2.lastVisitedOn, req2.revisitAfterDays.GetOr(DefaultRevisitAfterDays), names2);
    assert ins2 == Failure(DuplicateKey);
  }

  // ---------------------------------------------------------------------
  // Update

  /** `CompanyUpdateRequest`; a missing value is `None`. */
  datatype UpdateRequest = UpdateRequest(
    companyName: Option<string>,
    careersUrl: Option<string>,
    lastVisitedOn: Option<Day>,
    revisitAfterDays: Option<int>,
    tags: Option<seq<Option<TagInput>>>)

  /** A given name and URL are not blank once trimmed. */
  predicate TextsNotBlank(req: UpdateRequest) {
    (req.companyName.Some? ==> !JavaIsBlank(JavaTrim(req.companyName.value))) &&
    (req.careersUrl.Some? ==> !JavaIsBlank(JavaTrim(req.careersUrl.value)))
  }

  /** Some field is present. */
  predicate AnyFieldProvided(req: UpdateRequest) {
    req.companyName.Some? || req.careersUrl.Some? || req.lastVisitedOn.Some? ||
    req.revisitAfterDays.Some? || req.tags.Some?
  }

  function TrimOpt(s: Option<string>): (r: Option<string>)
    ensures r.Some? <==> s.Some?
    ensures r.Some? ==> r.value == JavaTrim(s.value)
  {
    if s.None? then None else Some(JavaTrim(s.value))
  }

  /** The patch the repository gets: trimmed texts and, when tags were
      sent, their display names (possibly none, which clears the tags). */
  function PatchOf(req: UpdateRequest): (p: Repo.Patch)
    ensures Repo.HasSets(p) <==> AnyFieldProvided(req)
    ensures p.tagNames.Some? <==> req.tags.Some?
    ensures p.tagNames.Some? ==> p.tagNames.value == ExtractTagDisplayNames(req.tags)
  {
    Repo.Patch(TrimOpt(req.companyName), TrimOpt(req.careersUrl), req.lastVisitedOn, req.revisitAfterDays,
      if req.tags.Some? then Some(ExtractTagDisplayNames(req.tags)) else None)
  }

  /** The repository's update after the sent tags are created. */
  function Patching(db: Db, id: CompanyId, req: UpdateRequest): (r: Result<Option<Repo.Saved>, Failure>)
    ensures r == Success(None) <==> !HasCompany(db.companies, id)
    ensures r.Failure? ==> r.error in {DataIntegrityViolation, DuplicateKey}
  {
    var names := if req.tags.Some? then ExtractTagDisplayNames(req.tags) else [];
    Repo.UpdateCompany(WithTags(db, names), id, PatchOf(req))
  }

  /** `updateCompany`: a given name or URL must not be blank, some field
      must be given; then the tags are created and the repository patches
      the company. No such company is `CompanyNotFoundException`, a
      duplicate key is `DuplicateCareersUrlException` and another
      constraint violation is a bad request. */
  function UpdateCompany(db: Db, id: CompanyId, req: UpdateRequest): (r: Result<Repo.Saved, Failure>)
    ensures req.companyName.Some? && JavaIsBlank(JavaTrim(req.companyName.value)) ==>
      r == Failure(BadUpdateRequest("companyName must not be blank"))
    ensures !AnyFieldProvided(req) ==> r == Failure(BadUpdateRequest("No fields provided to update"))
    ensures r.Failure? && r.error.CompanyNotFound? ==> r.error == NotFoundWithId(id) && !HasCompany(db.companies, id)
    ensures AnyFieldProvided(req) && !HasCompany(db.companies, id) && TextsNotBlank(req) ==>
      r == Failure(NotFoundWithId(id))
    ensures (req.companyName.None? || !JavaIsBlank(JavaTrim(req.companyName.value))) &&
            req.careersUrl.Some? && JavaIsBlank(JavaTrim(req.careersUrl.value)) ==>
      r == Failure(BadUpdateRequest("careersUrl must not be blank"))
    ensures TextsNotBlank(req) && AnyFieldProvided(req) && Patching(db, id, req) == Failure(DuplicateKey) ==>
      r == Failure(DuplicateCareersUrl(TrimOpt(req.careersUrl).GetOr("")))
    ensures TextsNotBlank(req) && AnyFieldProvided(req) && Patching(db, id, req) == Failure(DataIntegrityViolation) ==>
      r == Failure(BadUpdateRequest("Invalid update request"))
    ensures r.Success? <==>
      TextsNotBlank(req) && AnyFieldProvided(req) && Patching(db, id, req).Success? && Patching(db, id, req).value.Some?
    ensures r.Success? ==> Patching(db, id, req) == Success(Some(r.value))
    ensures r.Failure? ==> r.error.BadUpdateRequest? || r.error.CompanyNotFound? || r.error.DuplicateCareersUrl?
  {
    var name := TrimOpt(req.companyName);
    var url := TrimOpt(req.careersUrl);
    if name.Some? && JavaIsBlank(name.value) then Failure(BadUpdateRequest("companyName must not be blank"))
    else if url.Some? && JavaIsBlank(url.value) then Failure(BadUpdateRequest("careersUrl must not be blank"))
    else if !AnyFieldProvided(req) then Failure(BadUpdateRequest("No fields provided to update"))
    else
      var upd := Patching(db, id, req);
      if upd.Failure? then
        if upd.error == DuplicateKey then Failure(DuplicateCareersUrl(url.GetOr("")))
        else Failure(BadUpdateRequest("Invalid update request"))
      else if upd.value.None? then Failure(NotFoundWithId(id))
      else Success(upd.value.value)
  }

  /** Every rejection of an update is reported as the client's fault or as
      404/409, never as a server error. */
  lemma UpdateFailuresAreClientErrors(db: Db, id: CompanyId, req: UpdateRequest)
    requires UpdateCompany(db, id, req).Failure?
    ensures Handle(UpdateCompany(db, id, req).error).status in {400, 404, 409}
  {
  }

  // ---------------------------------------------------------------------
  // Delete

  /** `deleteCompany`: a missing id is an illegal argument; deleting
      nothing is `CompanyNotFoundException`. */
  function DeleteCompany(db: Db, id: Option<CompanyId>): (r: Result<Db, Failure>)
    ensures id.None? ==> r == Failure(IllegalArgument("companyId is required"))
    ensures id.Some? && UniqueIds(db.companies) ==>
      (r.Failure? <==> !HasCompany(db.companies, id.value))
    ensures id.Some? && r.Failure? ==> r.error == NotFoundWithId(id.value)
    ensures r.Success? ==> r.value == Repo.DeleteCompany(db, id.value).0 && !HasCompany(r.value.companies, id.value)
  {
    if id.None? then Failure(IllegalArgument("companyId is required"))
    else
      var res := Repo.DeleteCompany(db, id.value);
      if res.1 == 0 then Failure(NotFoundWithId(id.value)) else Success(res.0)
  }

  /** Deleting a company twice: the second time it is not found. */
  lemma DeleteTwiceNotFound(db: Db, id: CompanyId)
    requires DeleteCompany(db, Some(id)).Success?
    requires UniqueIds(db.companies)
    ensures DeleteCompany(DeleteCompany(db, Some(id)).value, Some(id)) == Failure(NotFoundWithId(id))
  {
    var once := DeleteCompany(db, Some(id)).value;
    Repo.DeleteCompanyCount(once, id);
  }

  /** `deleteCompanies`: the repository's count, unchanged. */
  function DeleteCompanies(db: Db, ids: seq<CompanyId>): (r: (Db, nat))
    ensures r == Repo.DeleteCompanies(db, Some(ids))
    ensures r.1 <= |db.companies|
  {
    Repo.DeleteCompanies(db, Some(ids))
  }
}
