/** The writes of `CompanyRepository`: inserting, patching and deleting
    companies, and replacing a company's tag links. The list query is in
    `CompanyQuery`. */
module CompanyRepository {
  import opened Wrappers
  import opened Text
  import opened Errors
  import opened Tags
  import opened TagStore
  import opened Database

  /** A written company as the repository returns it, with the tables
      after the write. `touched` says the write stamped the row's
      `updated_at` with the current time. */
  datatype Saved = Saved(db: Db, company: CompanyView, touched: bool)

  // ---------------------------------------------------------------------
  // Tag links

  predicate NonBlank(s: string) {
    !JavaIsBlank(s)
  }

  /** Every name trimmed. */
  function TrimAll(xs: seq<string>): (r: seq<string>)
    ensures |r| == |xs|
    ensures forall i | 0 <= i < |xs| :: r[i] == JavaTrim(xs[i])
  {
    seq(|xs|, i requires 0 <= i < |xs| => JavaTrim(xs[i]))
  }

  /** `normalizeTagNames`: trimmed, without blank names, each name once in
      order of first appearance. */
  function NormalizeTagNames(raw: Option<seq<string>>): (r: seq<string>)
    ensures raw.None? ==> r == []
    ensures NoDuplicates(r)
    ensures forall i | 0 <= i < |r| :: !JavaIsBlank(r[i])
  {
    if raw.None? || raw.value == [] then []
    else Distinct(Filter(TrimAll(raw.value), NonBlank))
  }

  /** The normalised names are exactly the trimmed non-blank names given. */
  lemma NormalizedNames(raw: seq<string>, s: string)
    ensures s in NormalizeTagNames(Some(raw)) <==>
      NonBlank(s) && exists j | 0 <= j < |raw| :: s == JavaTrim(raw[j])
  {
    if raw != [] {
      var trimmed := TrimAll(raw);
      FilterMember(trimmed, NonBlank, s);
      var kept := Filter(trimmed, NonBlank);
      assert s in Distinct(kept) <==> s in kept;
      assert s in trimmed <==> exists j | 0 <= j < |raw| :: s == JavaTrim(raw[j]) by {
        if s in trimmed {
          var j :| 0 <= j < |trimmed| && trimmed[j] == s;
          assert s == JavaTrim(raw[j]);
        }
        if exists j | 0 <= j < |raw| :: s == JavaTrim(raw[j]) {
          var j :| 0 <= j < |raw| && s == JavaTrim(raw[j]);
          assert trimmed[j] == s;
        }
      }
    }
  }

  /** `fetchTagIdsByKeys`: the keys of the names that name a row of the
      tag table. */
  function ExistingKeys(tags: seq<TagRow>, names: seq<string>): set<string> {
    set i | 0 <= i < |names| && HasKey(tags, KeyOf(names[i])) :: KeyOf(names[i])
  }

  /** `fetchCurrentTagIds`: the keys company `id` is linked to. */
  function CurrentKeys(links: set<(CompanyId, string)>, id: CompanyId): (r: set<string>)
    ensures forall k :: k in r <==> (id, k) in links
  {
    set l | l in links && l.0 == id :: l.1
  }

  /** `applyTagChanges`: unlink the current tags that are not wanted, link
      the wanted ones that are not current. */
  function ApplyTagChanges(links: set<(CompanyId, string)>, id: CompanyId, current: set<string>, wanted: set<string>)
    : set<(CompanyId, string)>
  {
    (links - set k | k in current - wanted :: (id, k)) + set k | k in wanted - current :: (id, k)
  }

  /** Given the current links of `id`, the changes leave `id` linked to
      exactly the wanted tags and every other company's links alone. */
  lemma ApplyTagChangesExact(links: set<(CompanyId, string)>, id: CompanyId, wanted: set<string>, l: (CompanyId, string))
    ensures l in ApplyTagChanges(links, id, CurrentKeys(links, id), wanted) <==>
      if l.0 == id then l.1 in wanted else l in links
  {
    var current := CurrentKeys(links, id);
    if l.0 == id {
      assert l == (id, l.1);
    }
  }

  /** `clearCompanyTags`: company `id` loses all its links. */
  function ClearTags(links: set<(CompanyId, string)>, id: CompanyId): (r: set<(CompanyId, string)>)
    ensures forall l :: l in r <==> l in links && l.0 != id
  {
    set l | l in links && l.0 != id
  }

  /** `buildTagDtos`: each name with its key, in order. */
  function BuildTagDtos(names: seq<string>): (r: seq<TagDto>)
    ensures |r| == |names|
    ensures forall i | 0 <= i < |r| :: r[i].tagName == names[i] && IsKey(r[i].tagKey)
    ensures forall i | 0 <= i < |r| :: r[i].tagKey == ToTagKey(Some(names[i]))
  {
    seq(|names|, i requires 0 <= i < |names| => TagDto(KeyOf(names[i]), names[i]))
  }

  /** `setCompanyTags`: replace the links of `id` by the tags named, as far
      as they exist, and answer with the names given. */
  function SetCompanyTags(db: Db, id: CompanyId, raw: Option<seq<string>>): (r: (Db, seq<TagDto>))
    ensures r.0.companies == db.companies && r.0.tags == db.tags && r.0.checklist == db.checklist
    ensures r.1 == BuildTagDtos(NormalizeTagNames(raw))
  {
    var names := NormalizeTagNames(raw);
    if names == [] then (db.(companyTags := ClearTags(db.companyTags, id)), [])
    else
      var links := ApplyTagChanges(db.companyTags, id, CurrentKeys(db.companyTags, id), ExistingKeys(db.tags, names));
      (db.(companyTags := links), BuildTagDtos(names))
  }

  /** After `setCompanyTags`, company `id` is linked to exactly the
      existing tags whose key one of the normalised names has, and no
      other company's links changed. */
  lemma SetTagsLinksExactly(db: Db, id: CompanyId, raw: Option<seq<string>>, l: (CompanyId, string))
    ensures l in SetCompanyTags(db, id, raw).0.companyTags <==>
      if l.0 == id then l.1 in ExistingKeys(db.tags, NormalizeTagNames(raw)) else l in db.companyTags
  {
    var names := NormalizeTagNames(raw);
    if names != [] {
      ApplyTagChangesExact(db.companyTags, id, ExistingKeys(db.tags, names), l);
    }
  }

  /** Only existing tags are linked: a name whose key has no row is
      dropped from the links, though it stays in the answer. */
  lemma ExistingKeysIff(tags: seq<TagRow>, names: seq<string>, k: string)
    ensures k in ExistingKeys(tags, names) <==>
      HasKey(tags, k) && exists i | 0 <= i < |names| :: k == ToTagKey(Some(names[i]))
  {
  }

  /** A trimmed, non-blank name whose tag exists survives normalisation
      with its key among the existing ones. */
  lemma ExistingKeyOfName(tags: seq<TagRow>, names: seq<string>, i: nat)
    requires i < |names| && NonBlank(names[i]) && JavaTrimmed(names[i])
    requires HasKey(tags, KeyOf(names[i]))
    ensures KeyOf(names[i]) in ExistingKeys(tags, NormalizeTagNames(Some(names)))
  {
    var n := names[i];
    var norm := NormalizeTagNames(Some(names));
    assert n in norm by {
      NormalizedNames(names, n);
      JavaTrimmedIsFixed(n);
    }
    var j :| 0 <= j < |norm| && norm[j] == n;
    assert KeyOf(norm[j]) in ExistingKeys(tags, norm);
  }

  /** A trimmed, non-blank name whose tag exists ends up linked. */
  lemma LinkedWhenTagExists(db: Db, id: CompanyId, names: seq<string>, i: nat)
    requires i < |names| && NonBlank(names[i]) && JavaTrimmed(names[i])
    requires HasKey(db.tags, KeyOf(names[i]))
    ensures (id, KeyOf(names[i])) in SetCompanyTags(db, id, Some(names)).0.companyTags
  {
    ExistingKeyOfName(db.tags, names, i);
    SetTagsLinksExactly(db, id, Some(names), (id, KeyOf(names[i])));
  }

  /** `fetchTagsForCompany`: the linked tag rows by name, as stored. */
  function FetchTags(db: Db, id: CompanyId): (r: seq<TagDto>)
    ensures |r| == |LinkedRows(db, id)|
    ensures forall i | 0 <= i < |r| :: r[i] == TagDto(LinkedRows(db, id)[i].tagKey, LinkedRows(db, id)[i].tagName)
  {
    Dtos(LinkedRows(db, id))
  }

  // ---------------------------------------------------------------------
  // Insert

  /** Another company than `id` already has the URL. */
  predicate UrlTaken(cs: seq<Company>, url: string, id: CompanyId) {
    exists i | 0 <= i < |cs| :: cs[i].careersUrl == url && cs[i].companyId != id
  }

  /** `insertCompany`: the new row with the generated id `freshId` (the
      database's UUID, a parameter here), then its tags. The revisit check
      comes before the unique keys, as the database evaluates them. */
  function InsertCompany(db: Db, freshId: CompanyId, name: string, url: string, lastVisitedOn: Option<Day>,
                         revisitAfterDays: int, tagNames: seq<string>): (r: Result<Saved, Failure>)
    ensures revisitAfterDays < MinRevisitAfterDays ==> r == Failure(DataIntegrityViolation)
    ensures revisitAfterDays >= MinRevisitAfterDays ==>
      (r.Failure? <==> HasCompany(db.companies, freshId) || UrlTaken(db.companies, url, freshId))
    ensures r.Failure? ==> r.error == if revisitAfterDays < MinRevisitAfterDays then DataIntegrityViolation else DuplicateKey
    ensures r.Success? ==>
      var row := Company(freshId, name, url, lastVisitedOn, revisitAfterDays);
      r.value.company == CompanyView(row, BuildTagDtos(NormalizeTagNames(Some(tagNames)))) &&
      r.value.db.companies == db.companies + [row] &&
      r.value.db.tags == db.tags && r.value.db.checklist == db.checklist && r.value.touched
  {
    if revisitAfterDays < MinRevisitAfterDays then Failure(DataIntegrityViolation)
    else if HasCompany(db.companies, freshId) || UrlTaken(db.companies, url, freshId) then Failure(DuplicateKey)
    else
      var row := Company(freshId, name, url, lastVisitedOn, revisitAfterDays);
      var tagged := SetCompanyTags(db.(companies := db.companies + [row]), freshId, Some(tagNames));
      Success(Saved(tagged.0, CompanyView(row, tagged.1), true))
  }

  /** A successful insert links the new company to exactly the existing
      tags its normalised names have keys for, and leaves every other
      company's links alone. */
  lemma InsertLinksExactly(db: Db, freshId: CompanyId, name: string, url: string, lastVisitedOn: Option<Day>,
                           revisitAfterDays: int, tagNames: seq<string>, l: (CompanyId, string))
    ensures var r := InsertCompany(db, freshId, name, url, lastVisitedOn, revisitAfterDays, tagNames);
      r.Success? ==>
        (l in r.value.db.companyTags <==>
          if l.0 == freshId then l.1 in ExistingKeys(db.tags, NormalizeTagNames(Some(tagNames)))
          else l in db.companyTags)
  {
    if InsertCompany(db, freshId, name, url, lastVisitedOn, revisitAfterDays, tagNames).Success? {
      var row := Company(freshId, name, url, lastVisitedOn, revisitAfterDays);
      SetTagsLinksExactly(db.(companies := db.companies + [row]), freshId, Some(tagNames), l);
    }
  }

  /** Once inserted, the URL is taken for every other id. */
  lemma InsertedUrlTaken(db: Db, freshId: CompanyId, name: string, url: string, lastVisitedOn: Option<Day>,
                         revisitAfterDays: int, tagNames: seq<string>, other: CompanyId)
    requires other != freshId
    ensures var r := InsertCompany(db, freshId, name, url, lastVisitedOn, revisitAfterDays, tagNames);
      r.Success? ==> UrlTaken(r.value.db.companies, url, other)
  {
    var r := InsertCompany(db, freshId, name, url, lastVisitedOn, revisitAfterDays, tagNames);
    if r.Success? {
      var n := |db.companies|;
      assert r.value.db.companies[n].careersUrl == url;
    }
  }

  /** A successful insert keeps the schema's constraints. */
  lemma InsertKeepsValid(db: Db, freshId: CompanyId, name: string, url: string, lastVisitedOn: Option<Day>,
                         revisitAfterDays: int, tagNames: seq<string>)
    requires Valid(db)
    requires InsertCompany(db, freshId, name, url, lastVisitedOn, revisitAfterDays, tagNames).Success?
    ensures Valid(InsertCompany(db, freshId, name, url, lastVisitedOn, revisitAfterDays, tagNames).value.db)
  {
    var row := Company(freshId, name, url, lastVisitedOn, revisitAfterDays);
    var db1 := db.(companies := db.companies + [row]);
    var r := InsertCompany(db, freshId, name, url, lastVisitedOn, revisitAfterDays, tagNames).value.db;
    assert r == SetCompanyTags(db1, freshId, Some(tagNames)).0;
    HasCompanyAppend(db.companies, row);
    forall l | l in r.companyTags
      ensures HasCompany(r.companies, l.0) && HasKey(r.tags, l.1)
    {
      SetTagsLinksExactly(db1, freshId, Some(tagNames), l);
      if l.0 != freshId {
        assert HasCompany(db.companies, l.0);
      } else {
        assert r.companies[|db.companies|] == row;
      }
    }
    forall e | e in r.checklist
      ensures HasCompany(r.companies, e.1)
    {
      assert HasCompany(db.companies, e.1);
    }
  }

  lemma HasCompanyAppend(cs: seq<Company>, row: Company)
    ensures forall id | HasCompany(cs, id) :: HasCompany(cs + [row], id)
  {
    forall id | HasCompany(cs, id)
      ensures HasCompany(cs + [row], id)
    {
      var i :| 0 <= i < |cs| && cs[i].companyId == id;
      assert (cs + [row])[i] == cs[i];
    }
  }

  // ---------------------------------------------------------------------
  // Update

  /** The fields a PATCH request gives; absent ones stay as they are. */
  datatype Patch = Patch(
    companyName: Option<string>,
    careersUrl: Option<string>,
    lastVisitedOn: Option<Day>,
    revisitAfterDays: Option<int>,
    tagNames: Option<seq<string>>)

  /** The statement has a `SET` list: some field or the tags are given;
      the list then also sets `updated_at`, so tags alone still run it. */
  predicate HasSets(p: Patch) {
    p.companyName.Some? || p.careersUrl.Some? || p.lastVisitedOn.Some? ||
    p.revisitAfterDays.Some? || p.tagNames.Some?
  }

  /** A row after the `SET` list: given names and URLs are trimmed. */
  function Patched(c: Company, p: Patch): (r: Company)
    ensures r.companyId == c.companyId
    ensures r.companyName == if p.companyName.Some? then JavaTrim(p.companyName.value) else c.companyName
    ensures r.careersUrl == if p.careersUrl.Some? then JavaTrim(p.careersUrl.value) else c.careersUrl
    ensures r.lastVisitedOn == if p.lastVisitedOn.Some? then p.lastVisitedOn else c.lastVisitedOn
    ensures r.revisitAfterDays == p.revisitAfterDays.GetOr(c.revisitAfterDays)
  {
    Company(
      c.companyId,
      if p.companyName.Some? then JavaTrim(p.companyName.value) else c.companyName,
      if p.careersUrl.Some? then JavaTrim(p.careersUrl.value) else c.careersUrl,
      if p.lastVisitedOn.Some? then p.lastVisitedOn else c.lastVisitedOn,
      p.revisitAfterDays.GetOr(c.revisitAfterDays))
  }

  /** Applying the same patch twice is applying it once. */
  lemma PatchedIdempotent(c: Company, p: Patch)
    ensures Patched(Patched(c, p), p) == Patched(c, p)
  {
    var once := Patched(c, p);
    var twice := Patched(once, p);
    if p.companyName.Some? {
      JavaTrimIdempotent(p.companyName.value);
    }
    if p.careersUrl.Some? {
      JavaTrimIdempotent(p.careersUrl.value);
    }
    assert twice.companyName == once.companyName && twice.careersUrl == once.careersUrl;
  }

  /** The first row with id `id`. */
  function RowOf(cs: seq<Company>, id: CompanyId): (i: nat)
    requires HasCompany(cs, id)
    ensures i < |cs| && cs[i].companyId == id
    ensures forall j | 0 <= j < i :: cs[j].companyId != id
  {
    if cs[0].companyId == id then 0
    else
      assert HasCompany(cs[1..], id) by {
        var j :| 0 <= j < |cs| && cs[j].companyId == id;
        assert cs[1..][j - 1].companyId == id;
      }
      1 + RowOf(cs[1..], id)
  }

  /** `UPDATE … WHERE company_id = ?` on every row with that id. */
  function PatchRows(cs: seq<Company>, id: CompanyId, p: Patch): (r: seq<Company>)
    ensures |r| == |cs|
    ensures forall i | 0 <= i < |cs| :: r[i] == if cs[i].companyId == id then Patched(cs[i], p) else cs[i]
  {
    seq(|cs|, i requires 0 <= i < |cs| => if cs[i].companyId == id then Patched(cs[i], p) else cs[i])
  }

  /** `updateCompany`: nothing when no row has the id; otherwise the
      patched row, checked against the revisit constraint and the unique
      URL when a `SET` list runs (which also stamps `updated_at`), and its
      tags: the given names when tags were sent (see `SetCompanyTags`),
      the stored ones otherwise. */
  function UpdateCompany(db: Db, id: CompanyId, p: Patch): (r: Result<Option<Saved>, Failure>)
    ensures r == Success(None) <==> !HasCompany(db.companies, id)
    ensures r.Failure? ==> HasSets(p) && r.error in {DataIntegrityViolation, DuplicateKey}
    ensures HasCompany(db.companies, id) && HasSets(p) &&
            Patched(db.companies[RowOf(db.companies, id)], p).revisitAfterDays < MinRevisitAfterDays ==>
      r == Failure(DataIntegrityViolation)
    ensures HasCompany(db.companies, id) && HasSets(p) &&
            Patched(db.companies[RowOf(db.companies, id)], p).revisitAfterDays >= MinRevisitAfterDays &&
            UrlTaken(db.companies, Patched(db.companies[RowOf(db.companies, id)], p).careersUrl, id) ==>
      r == Failure(DuplicateKey)
    ensures HasCompany(db.companies, id) &&
            (!HasSets(p) ||
             (Patched(db.companies[RowOf(db.companies, id)], p).revisitAfterDays >= MinRevisitAfterDays &&
              !UrlTaken(db.companies, Patched(db.companies[RowOf(db.companies, id)], p).careersUrl, id))) ==>
      r.Success? && r.value.Some?
    ensures r.Success? && r.value.Some? ==> r.value.value.touched == HasSets(p)
    ensures r.Success? && r.value.Some? ==>
      var prev := db.companies[RowOf(db.companies, id)];
      r.value.value.company.company == Patched(prev, p) &&
      r.value.value.db.companies == PatchRows(db.companies, id, p) &&
      r.value.value.db.tags == db.tags && r.value.value.db.checklist == db.checklist
    ensures r.Success? && r.value.Some? && p.tagNames.Some? ==>
      r.value.value.company.tags == BuildTagDtos(NormalizeTagNames(p.tagNames))
    ensures r.Success? && r.value.Some? && p.tagNames.None? ==>
      r.value.value.db.companyTags == db.companyTags &&
      r.value.value.company.tags == FetchTags(r.value.value.db, id)
  {
    if !HasCompany(db.companies, id) then Success(None)
    else
      var row := Patched(db.companies[RowOf(db.companies, id)], p);
      if HasSets(p) && row.revisitAfterDays < MinRevisitAfterDays then Failure(DataIntegrityViolation)
      else if HasSets(p) && UrlTaken(db.companies, row.careersUrl, id) then Failure(DuplicateKey)
      else
        var db1 := db.(companies := PatchRows(db.companies, id, p));
        if p.tagNames.Some? then
          var tagged := SetCompanyTags(db1, id, p.tagNames);
          Success(Some(Saved(tagged.0, CompanyView(row, tagged.1), HasSets(p))))
        else Success(Some(Saved(db1, CompanyView(row, FetchTags(db1, id)), HasSets(p))))
  }

  /** A request with no field reads the company back and changes nothing. */
  lemma EmptyPatchChangesNothing(db: Db, id: CompanyId)
    requires HasCompany(db.companies, id) && UniqueIds(db.companies)
    ensures var r := UpdateCompany(db, id, Patch(None, None, None, None, None));
      r.Success? && r.value.Some? && r.value.value.db == db &&
      r.value.value.company == CompanyView(db.companies[RowOf(db.companies, id)], FetchTags(db, id))
  {
    var p := Patch(None, None, None, None, None);
    assert PatchRows(db.companies, id, p) == db.companies;
  }

  /** Patching the rows twice is patching them once. */
  lemma PatchRowsIdempotent(cs: seq<Company>, id: CompanyId, p: Patch)
    ensures PatchRows(PatchRows(cs, id, p), id, p) == PatchRows(cs, id, p)
  {
    var once := PatchRows(cs, id, p);
    forall i | 0 <= i < |cs| && cs[i].companyId == id
      ensures Patched(once[i], p) == once[i]
    {
      PatchedIdempotent(cs[i], p);
    }
  }

  /** Patching touches only the rows with the id, so it does not change
      which other company holds a URL. */
  lemma PatchKeepsOtherUrls(cs: seq<Company>, id: CompanyId, p: Patch, url: string)
    ensures UrlTaken(PatchRows(cs, id, p), url, id) <==> UrlTaken(cs, url, id)
  {
    var once := PatchRows(cs, id, p);
    if UrlTaken(once, url, id) {
      var i :| 0 <= i < |once| && once[i].careersUrl == url && once[i].companyId != id;
      assert cs[i] == once[i];
    }
  }

  /** Sending the same patch again leaves the modelled columns as the
      first one did; a patch with a `SET` list stamps `updated_at` again. */
  lemma UpdateIdempotent(db: Db, id: CompanyId, p: Patch)
    requires UpdateCompany(db, id, p).Success? && UpdateCompany(db, id, p).value.Some?
    requires p.tagNames.None?
    ensures var once := UpdateCompany(db, id, p).value.value.db;
      UpdateCompany(once, id, p).Success? && UpdateCompany(once, id, p).value.Some? &&
      UpdateCompany(once, id, p).value.value.db == once &&
      UpdateCompany(once, id, p).value.value.touched == HasSets(p)
  {
    var cs := db.companies;
    var once := db.(companies := PatchRows(cs, id, p));
    assert UpdateCompany(db, id, p).value.value.db == once;
    PatchRowsIdempotent(cs, id, p);
    var j := RowOf(cs, id);
    assert once.companies[j].companyId == id;
    var k := RowOf(once.companies, id);
    var row := Patched(once.companies[k], p);
    assert k == j;
    PatchedIdempotent(cs[j], p);
    assert row == Patched(cs[j], p);
    PatchKeepsOtherUrls(cs, id, p, row.careersUrl);
  }

  /** With unique ids only the row `RowOf` finds has the id. */
  lemma OnlyRowOf(cs: seq<Company>, id: CompanyId, i: nat)
    requires UniqueIds(cs) && HasCompany(cs, id) && i < |cs| && cs[i].companyId == id
    ensures i == RowOf(cs, id)
  {
  }

  /** The patched company table keeps its constraints when the patched
      row passed the checks, and it has the same ids. */
  lemma PatchRowsValid(cs: seq<Company>, id: CompanyId, p: Patch)
    requires UniqueIds(cs) && UniqueUrls(cs) && HasCompany(cs, id)
    requires forall i | 0 <= i < |cs| :: cs[i].revisitAfterDays >= MinRevisitAfterDays
    requires HasSets(p) ==> Patched(cs[RowOf(cs, id)], p).revisitAfterDays >= MinRevisitAfterDays
    requires HasSets(p) ==> !UrlTaken(cs, Patched(cs[RowOf(cs, id)], p).careersUrl, id)
    ensures var patched := PatchRows(cs, id, p);
      UniqueIds(patched) && UniqueUrls(patched) &&
      (forall i | 0 <= i < |patched| :: patched[i].revisitAfterDays >= MinRevisitAfterDays) &&
      (forall x :: HasCompany(patched, x) <==> HasCompany(cs, x))
  {
    var row := Patched(cs[RowOf(cs, id)], p);
    var patched := PatchRows(cs, id, p);
    assert forall i | 0 <= i < |cs| :: patched[i].companyId == cs[i].companyId;
    if !HasSets(p) {
      assert forall i | 0 <= i < |cs| :: patched[i] == cs[i];
      assert patched == cs;
    } else {
      forall i | 0 <= i < |cs| && cs[i].companyId == id
        ensures patched[i] == row
      {
        OnlyRowOf(cs, id, i);
      }
      forall i, j | 0 <= i < j < |cs|
        ensures patched[i].careersUrl != patched[j].careersUrl
      {
      }
      forall x | HasCompany(cs, x)
        ensures HasCompany(patched, x)
      {
        var i :| 0 <= i < |cs| && cs[i].companyId == x;
        assert patched[i].companyId == x;
      }
    }
  }

  /** A successful update keeps the schema's constraints. */
  lemma UpdateKeepsValid(db: Db, id: CompanyId, p: Patch)
    requires Valid(db)
    requires UpdateCompany(db, id, p).Success? && UpdateCompany(db, id, p).value.Some?
    ensures Valid(UpdateCompany(db, id, p).value.value.db)
  {
    var cs := db.companies;
    var r := UpdateCompany(db, id, p).value.value.db;
    var db1 := db.(companies := PatchRows(cs, id, p));
    PatchRowsValid(cs, id, p);
    assert r.companies == db1.companies;
    forall l | l in r.companyTags
      ensures HasCompany(r.companies, l.0) && HasKey(r.tags, l.1)
    {
      if p.tagNames.Some? {
        SetTagsLinksExactly(db1, id, p.tagNames, l);
      }
    }
  }

  // ---------------------------------------------------------------------
  // Delete

  /** The tables without the companies `gone` selects; their links and
      checklist entries go with them (`ON DELETE CASCADE`). */
  function DeleteWhere(db: Db, gone: CompanyId -> bool): (r: (Db, nat))
    ensures r.1 + |r.0.companies| == |db.companies|
    ensures forall i | 0 <= i < |r.0.companies| :: !gone(r.0.companies[i].companyId) && r.0.companies[i] in db.companies
    ensures forall i | 0 <= i < |db.companies| && !gone(db.companies[i].companyId) :: db.companies[i] in r.0.companies
    ensures forall l :: l in r.0.companyTags <==> l in db.companyTags && !gone(l.0)
    ensures forall e :: e in r.0.checklist <==> e in db.checklist && !gone(e.1)
    ensures forall e | e in r.0.checklist :: r.0.checklist[e] == db.checklist[e]
    ensures r.0.tags == db.tags
  {
    var kept := Filter(db.companies, Keeps(gone));
    FilterSound(db.companies, Keeps(gone));
    FilterKeepsAll(db.companies, Keeps(gone));
    var links := set l | l in db.companyTags && !gone(l.0);
    var entries := map e | e in db.checklist && !gone(e.1) :: db.checklist[e];
    (Db(kept, db.tags, links, entries), |db.companies| - |kept|)
  }

  /** The rows a delete leaves. */
  function Keeps(gone: CompanyId -> bool): Company -> bool {
    (c: Company) => !gone(c.companyId)
  }

  function IsId(id: CompanyId): CompanyId -> bool {
    (x: CompanyId) => x == id
  }

  function InIds(ids: seq<CompanyId>): CompanyId -> bool {
    (x: CompanyId) => x in ids
  }

  /** `deleteCompany`: the number of rows removed. */
  function DeleteCompany(db: Db, id: CompanyId): (r: (Db, nat))
    ensures !HasCompany(r.0.companies, id)
    ensures !HasCompany(db.companies, id) ==> r == (db.(companyTags := r.0.companyTags, checklist := r.0.checklist), 0)
    ensures UniqueIds(db.companies) ==> (r.1 == if HasCompany(db.companies, id) then 1 else 0)
  {
    DeleteCompanyCount(db, id);
    DeleteWhere(db, IsId(id))
  }

  lemma DeleteCompanyCount(db: Db, id: CompanyId)
    ensures !HasCompany(db.companies, id) ==> DeleteWhere(db, IsId(id)).0.companies == db.companies
    ensures UniqueIds(db.companies) ==>
      (DeleteWhere(db, IsId(id)).1 == if HasCompany(db.companies, id) then 1 else 0)
  {
    if !HasCompany(db.companies, id) {
      assert forall i | 0 <= i < |db.companies| :: Keeps(IsId(id))(db.companies[i]);
      FilterAll(db.companies, Keeps(IsId(id)));
    }
    if UniqueIds(db.companies) {
      DeletedCount(db.companies, id);
    }
  }

  /** With unique ids, removing one id removes one row if it is there. */
  lemma {:induction false} DeletedCount(cs: seq<Company>, id: CompanyId)
    requires UniqueIds(cs)
    ensures |Filter(cs, Keeps(IsId(id)))| == |cs| - if HasCompany(cs, id) then 1 else 0
  {
    var p := Keeps(IsId(id));
    if cs != [] {
      assert cs == [cs[0]] + cs[1..];
      FilterAppend([cs[0]], cs[1..], p);
      assert UniqueIds(cs[1..]) by {
        forall i, j | 0 <= i < j < |cs[1..]|
          ensures cs[1..][i].companyId != cs[1..][j].companyId
        {
          assert cs[1..][i] == cs[i + 1] && cs[1..][j] == cs[j + 1];
        }
      }
      if cs[0].companyId == id {
        assert forall i | 0 <= i < |cs[1..]| :: p(cs[1..][i]) by {
          forall i | 0 <= i < |cs[1..]|
            ensures p(cs[1..][i])
          {
            assert cs[1..][i] == cs[i + 1];
          }
        }
        FilterAll(cs[1..], p);
      } else {
        DeletedCount(cs[1..], id);
        assert HasCompany(cs, id) <==> HasCompany(cs[1..], id) by {
          if HasCompany(cs, id) {
            var i :| 0 <= i < |cs| && cs[i].companyId == id;
            assert cs[1..][i - 1] == cs[i];
          }
          if HasCompany(cs[1..], id) {
            var i :| 0 <= i < |cs[1..]| && cs[1..][i].companyId == id;
            assert cs[i + 1] == cs[1..][i];
          }
        }
      }
    }
  }

  /** `deleteCompanies`: no ids (absent or empty) delete nothing; otherwise
      every company whose id is listed goes. */
  function DeleteCompanies(db: Db, ids: Option<seq<CompanyId>>): (r: (Db, nat))
    ensures ids.None? || ids.value == [] ==> r == (db, 0)
    ensures ids.Some? && ids.value != [] ==> r == DeleteWhere(db, InIds(ids.value))
  {
    if ids.None? || ids.value == [] then (db, 0) else DeleteWhere(db, InIds(ids.value))
  }

  /** Filtering with two tests that agree on every element is the same. */
  lemma {:induction false} FilterSameTest(cs: seq<Company>, p: Company -> bool, q: Company -> bool)
    requires forall i | 0 <= i < |cs| :: p(cs[i]) == q(cs[i])
    ensures Filter(cs, p) == Filter(cs, q)
  {
    if cs != [] {
      assert forall i | 0 <= i < |cs[1..]| :: p(cs[1..][i]) == q(cs[1..][i]) by {
        forall i | 0 <= i < |cs[1..]|
          ensures p(cs[1..][i]) == q(cs[1..][i])
        {
          assert cs[1..][i] == cs[i + 1];
        }
      }
      FilterSameTest(cs[1..], p, q);
    }
  }

  /** Deleting a batch of one id is deleting that company. */
  lemma BatchOfOne(db: Db, id: CompanyId)
    ensures DeleteCompanies(db, Some([id])) == DeleteCompany(db, id)
  {
    FilterSameTest(db.companies, Keeps(InIds([id])), Keeps(IsId(id)));
    var a, b := DeleteWhere(db, InIds([id])), DeleteWhere(db, IsId(id));
    assert forall x :: InIds([id])(x) == IsId(id)(x);
    assert a.0.companyTags == b.0.companyTags;
    assert a.0.checklist.Keys == b.0.checklist.Keys;
  }

  /** Deleting keeps the schema's constraints. */
  lemma DeleteKeepsValid(db: Db, gone: CompanyId -> bool)
    requires Valid(db)
    ensures Valid(DeleteWhere(db, gone).0)
  {
    var r := DeleteWhere(db, gone).0;
    var sel := Keeps(gone);
    assert r.companies == Filter(db.companies, sel);
    var sameId := (a: Company, b: Company) => a.companyId != b.companyId;
    var sameUrl := (a: Company, b: Company) => a.careersUrl != b.careersUrl;
    assert Pairwise(db.companies, sameId);
    assert Pairwise(db.companies, sameUrl);
    FilterPairwise(db.companies, sel, sameId);
    FilterPairwise(db.companies, sel, sameUrl);
    FilterSound(db.companies, sel);
    forall id | HasCompany(db.companies, id) && !gone(id)
      ensures HasCompany(r.companies, id)
    {
      var i :| 0 <= i < |db.companies| && db.companies[i].companyId == id;
      assert db.companies[i] in r.companies;
    }
  }
}
