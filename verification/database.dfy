/** The tables the backend reads and writes, held in memory: the tracked
    companies, the tag table, the company–tag links and the daily
    checklist. */
module Database {
  import opened Wrappers
  import opened Text
  import opened Tags
  import opened TagStore
  import opened SqlArrays
  import opened Sorting

  /** A calendar date as a day number (`LocalDate` / SQL `date`). */
  type Day = int

  /** A company's UUID, as its text. */
  type CompanyId = string

  /** One row of the company table, without its timestamps. */
  datatype Company = Company(
    companyId: CompanyId,
    companyName: string,
    careersUrl: string,
    lastVisitedOn: Option<Day>,
    revisitAfterDays: int)
  {
    /** `next_visit_on`, which the database computes: the last visit plus
        the revisit interval, or nothing before the first visit. */
    function NextVisitOn(): Option<Day> {
      if lastVisitedOn.Some? then Some(lastVisitedOn.value + revisitAfterDays) else None
    }
  }

  /** All tables. A link `(id, k)` joins company `id` to the tag with key
      `k`; a checklist entry `(d, id) := completed` is company `id` on the
      list of day `d`. */
  datatype Db = Db(
    companies: seq<Company>,
    tags: seq<TagRow>,
    companyTags: set<(CompanyId, string)>,
    checklist: map<(Day, CompanyId), bool>)

  /** The primary key of the company table. */
  predicate UniqueIds(cs: seq<Company>) {
    forall i, j | 0 <= i < j < |cs| :: cs[i].companyId != cs[j].companyId
  }

  /** The unique constraint on `careers_url`. */
  predicate UniqueUrls(cs: seq<Company>) {
    forall i, j | 0 <= i < j < |cs| :: cs[i].careersUrl != cs[j].careersUrl
  }

  /** `CompanyConstants.MIN_REVISIT_AFTER_DAYS`, taken to be a check
      constraint of the company table. */
  const MinRevisitAfterDays: int := 1

  /** Some company has this id. */
  predicate HasCompany(cs: seq<Company>, id: CompanyId) {
    exists i | 0 <= i < |cs| :: cs[i].companyId == id
  }

  /** The constraints of the schema: primary keys, the unique careers URL
      and tag key, the revisit check, and foreign keys from the link and
      checklist tables to the rows they name. */
  predicate Valid(db: Db) {
    UniqueIds(db.companies) && UniqueUrls(db.companies) && UniqueKeys(db.tags) &&
    (forall i | 0 <= i < |db.companies| :: db.companies[i].revisitAfterDays >= MinRevisitAfterDays) &&
    (forall l | l in db.companyTags :: HasCompany(db.companies, l.0) && HasKey(db.tags, l.1)) &&
    (forall e | e in db.checklist :: HasCompany(db.companies, e.1))
  }

  /** Distinct ids make distinct rows. */
  lemma UniqueIdsNoDuplicates(cs: seq<Company>)
    requires UniqueIds(cs)
    ensures NoDuplicates(cs)
  {
  }

  /** The sort key of `ORDER BY company_name`. */
  function ByName(c: Company): string {
    c.companyName
  }

  /** The tag rows linked to company `id`. */
  function LinkedTo(links: set<(CompanyId, string)>, id: CompanyId): TagRow -> bool {
    (t: TagRow) => (id, t.tagKey) in links
  }

  /** The sort key of `ORDER BY tag_name`. */
  function ByTagName(t: TagRow): string {
    t.tagName
  }

  /** The tag rows linked to company `id`, ordered by name. */
  function LinkedRows(db: Db, id: CompanyId): (r: seq<TagRow>)
    ensures SortedBy(r, ByTagName)
    ensures multiset(r) == multiset(Filter(db.tags, LinkedTo(db.companyTags, id)))
    ensures |r| <= |db.tags|
  {
    SortBy(Filter(db.tags, LinkedTo(db.companyTags, id)), ByTagName)
  }

  /** A company's tags as the aggregate query reads them: its linked tag
      rows ordered by name, as two parallel arrays read back through
      `zipTags`. */
  function TagsOf(db: Db, id: CompanyId): (r: seq<TagDto>)
    ensures |r| <= |db.tags|
  {
    var rows := LinkedRows(db, id);
    ZippedTags(seq(|rows|, i requires 0 <= i < |rows| => Some(rows[i].tagKey)),
               seq(|rows|, i requires 0 <= i < |rows| => Some(rows[i].tagName)))
  }

  /** `CompanyDto`: a company row with its tags. */
  datatype CompanyView = CompanyView(company: Company, tags: seq<TagDto>)

  function View(db: Db, c: Company): CompanyView {
    CompanyView(c, TagsOf(db, c.companyId))
  }

  /** Each company with its tags, in order. */
  function Views(db: Db, cs: seq<Company>): (r: seq<CompanyView>)
    ensures |r| == |cs|
    ensures forall i | 0 <= i < |r| :: r[i] == View(db, cs[i])
  {
    seq(|cs|, i requires 0 <= i < |cs| => View(db, cs[i]))
  }
}
