/** `ChecklistRepository`: the daily checklist's reads and state
    transitions over the in-memory tables. */
module ChecklistRepository {
  import opened Wrappers
  import opened Text
  import opened Sorting
  import opened Database

  /** `ChecklistCompanyDto`: a company on a day's list, whether it was ticked
      off, and whether it has an entry for that day at all. */
  datatype ChecklistItem = ChecklistItem(company: CompanyView, completed: bool, inChecklist: bool)

  /** The company belongs on day `d`'s list: it is due by then, or it was
      put on that day's list. */
  predicate OnChecklist(db: Db, d: Day, c: Company) {
    (c.NextVisitOn().Some? && c.NextVisitOn().value <= d) || (d, c.companyId) in db.checklist
  }

  function Selector(db: Db, d: Day): Company -> bool {
    (c: Company) => OnChecklist(db, d, c)
  }

  /** The companies on day `d`'s list, by name. */
  function Listed(db: Db, d: Day): (r: seq<Company>)
    ensures SortedBy(r, ByName)
    ensures forall i | 0 <= i < |r| :: OnChecklist(db, d, r[i])
  {
    var r := SortBy(Filter(db.companies, Selector(db, d)), ByName);
    assert forall i | 0 <= i < |r| :: r[i] in multiset(Filter(db.companies, Selector(db, d)));
    r
  }

  /** The entry's flag, `false` when there is no entry. */
  function CompletedFlag(db: Db, d: Day, id: CompanyId): bool {
    (d, id) in db.checklist && db.checklist[(d, id)]
  }

  /** `getChecklist`: the listed companies in name order, each with its
      flag (`COALESCE(completed, FALSE)`) and whether it has an entry. */
  function GetChecklist(db: Db, d: Day): (r: seq<ChecklistItem>)
    ensures |r| == |Listed(db, d)|
    ensures forall i | 0 <= i < |r| :: r[i].company == View(db, Listed(db, d)[i])
    ensures forall i | 0 <= i < |r| :: OnChecklist(db, d, r[i].company.company)
    ensures forall i, j | 0 <= i < j < |r| :: StrLe(r[i].company.company.companyName, r[j].company.company.companyName)
    ensures forall i | 0 <= i < |r| :: r[i].inChecklist <==> (d, r[i].company.company.companyId) in db.checklist
    ensures forall i | 0 <= i < |r| :: r[i].completed <==>
      (d, r[i].company.company.companyId) in db.checklist && db.checklist[(d, r[i].company.company.companyId)]
  {
    var cs := Listed(db, d);
    seq(|cs|, i requires 0 <= i < |cs| =>
      ChecklistItem(View(db, cs[i]), CompletedFlag(db, d, cs[i].companyId), (d, cs[i].companyId) in db.checklist))
  }

  /** Each company appears on a day's list exactly once when it belongs
      there, and not at all otherwise. */
  lemma ListedExactlyOnce(db: Db, d: Day, c: Company)
    requires UniqueIds(db.companies)
    ensures multiset(Listed(db, d))[c] == if c in db.companies && OnChecklist(db, d, c) then 1 else 0
  {
    UniqueIdsNoDuplicates(db.companies);
    FilterCount(db.companies, Selector(db, d), c);
    NoDuplicatesCount(db.companies, c);
  }

  /** A company of the table is listed iff it is due by `d` or has an entry
      for `d`. */
  lemma ListedIff(db: Db, d: Day, c: Company)
    requires UniqueIds(db.companies) && c in db.companies
    ensures c in Listed(db, d) <==>
      (c.NextVisitOn().Some? && c.NextVisitOn().value <= d) || (d, c.companyId) in db.checklist
  {
    ListedExactlyOnce(db, d, c);
    assert c in Listed(db, d) <==> c in multiset(Listed(db, d));
  }

  /** `companyExists`. */
  function CompanyExists(db: Db, id: CompanyId): (r: bool)
    ensures r <==> exists i | 0 <= i < |db.companies| :: db.companies[i].companyId == id
  {
    HasCompany(db.companies, id)
  }

  /** `upsertCompletion`: for an existing company, set the flag of its
      entry for `d`, creating the entry if needed; for an unknown company,
      report `false` and write nothing. */
  function UpsertCompletion(db: Db, d: Day, id: CompanyId, completed: bool): (r: (Db, bool))
    ensures r.1 <==> CompanyExists(db, id)
    ensures !r.1 ==> r.0 == db
    ensures r.1 ==> (d, id) in r.0.checklist && r.0.checklist[(d, id)] == completed
    ensures forall k | k != (d, id) :: (k in r.0.checklist <==> k in db.checklist)
    ensures forall k | k != (d, id) && k in db.checklist :: r.0.checklist[k] == db.checklist[k]
    ensures r.0.companies == db.companies && r.0.tags == db.tags && r.0.companyTags == db.companyTags
  {
    if !CompanyExists(db, id) then (db, false)
    else (db.(checklist := db.checklist[(d, id) := completed]), true)
  }

  /** `deleteChecklistEntry`: removes the entry for `(d, id)`; `true` iff
      there was one. */
  function DeleteChecklistEntry(db: Db, d: Day, id: CompanyId): (r: (Db, bool))
    ensures r.1 <==> (d, id) in db.checklist
    ensures (d, id) !in r.0.checklist
    ensures forall k | k != (d, id) :: (k in r.0.checklist <==> k in db.checklist)
    ensures forall k | k != (d, id) && k in db.checklist :: r.0.checklist[k] == db.checklist[k]
    ensures r.0.companies == db.companies && r.0.tags == db.tags && r.0.companyTags == db.companyTags
  {
    (db.(checklist := db.checklist - {(d, id)}), (d, id) in db.checklist)
  }

  /** Ticking a company off for a day puts it on that day's list with the
      given flag. */
  lemma UpsertShowsInChecklist(db: Db, d: Day, c: Company, completed: bool)
    requires UniqueIds(db.companies) && c in db.companies
    ensures var db2 := UpsertCompletion(db, d, c.companyId, completed).0;
      c in Listed(db2, d) && CompletedFlag(db2, d, c.companyId) == completed
  {
    var i :| 0 <= i < |db.companies| && db.companies[i] == c;
    var db2 := UpsertCompletion(db, d, c.companyId, completed).0;
    ListedIff(db2, d, c);
  }

  /** Adding an entry that did not exist and then deleting it restores the
      tables. */
  lemma UpsertThenDeleteRestores(db: Db, d: Day, id: CompanyId, completed: bool)
    requires (d, id) !in db.checklist
    ensures DeleteChecklistEntry(UpsertCompletion(db, d, id, completed).0, d, id).0 == db
  {
    var db2 := DeleteChecklistEntry(UpsertCompletion(db, d, id, completed).0, d, id).0;
    assert db2.checklist == db.checklist;
  }

  // ---------------------------------------------------------------------
  // Submitting a day
  // ---------------------------------------------------------------------

  /** Company `c` was ticked off on `d` and `d` is later than its last
      visit, so submitting `d` moves its last visit to `d`. */
  predicate Advances(db: Db, d: Day, c: Company) {
    CompletedFlag(db, d, c.companyId) && (c.lastVisitedOn.None? || c.lastVisitedOn.value < d)
  }

  function AdvanceSelector(db: Db, d: Day): Company -> bool {
    (c: Company) => Advances(db, d, c)
  }

  /** The row after submitting `d`. */
  function Visit(db: Db, d: Day, c: Company): Company {
    if Advances(db, d, c) then c.(lastVisitedOn := Some(d)) else c
  }

  /** The outcome of a submit: the new tables and the updated companies. */
  datatype Submitted = Submitted(db: Db, updated: seq<CompanyView>)

  /** The company table after submitting `d`. */
  function VisitAll(db: Db, d: Day): (r: seq<Company>)
    ensures |r| == |db.companies|
    ensures forall i | 0 <= i < |r| :: r[i] == Visit(db, d, db.companies[i])
  {
    seq(|db.companies|, i requires 0 <= i < |db.companies| => Visit(db, d, db.companies[i]))
  }

  /** The checklist without the entries ticked off on `d`. */
  function ConsumeDay(checklist: map<(Day, CompanyId), bool>, d: Day): (r: map<(Day, CompanyId), bool>)
    ensures forall k :: k in r <==> k in checklist && !(k.0 == d && checklist[k])
    ensures forall k | k in r :: r[k] == checklist[k]
  {
    map k | k in checklist && !(k.0 == d && checklist[k]) :: checklist[k]
  }

  /** The rows with their last visit set to `d`. */
  function Visited(cs: seq<Company>, d: Day): (r: seq<Company>)
    ensures |r| == |cs|
    ensures forall i | 0 <= i < |r| :: r[i] == cs[i].(lastVisitedOn := Some(d))
  {
    seq(|cs|, i requires 0 <= i < |cs| => cs[i].(lastVisitedOn := Some(d)))
  }

  /** The rows `submitDay` returns, before their tags are attached: the
      advanced companies with their new last visit, by name. */
  function UpdatedRows(db: Db, d: Day): (r: seq<Company>)
    ensures SortedBy(r, ByName)
    ensures forall i | 0 <= i < |r| :: r[i].lastVisitedOn == Some(d)
  {
    var vs := Visited(Filter(db.companies, AdvanceSelector(db, d)), d);
    var r := SortBy(vs, ByName);
    assert forall i | 0 <= i < |r| :: r[i] in multiset(vs);
    r
  }

  /** `submitDay`: every company ticked off on `d` whose last visit is
      missing or earlier than `d` gets `d` as its last visit; every ticked
      entry of `d` is deleted; the updated companies are returned, with
      their new values, by name. */
  function SubmitDay(db: Db, d: Day): (r: Submitted)
    ensures |r.db.companies| == |db.companies|
    ensures forall i | 0 <= i < |db.companies| ::
      r.db.companies[i].lastVisitedOn == (if Advances(db, d, db.companies[i]) then Some(d) else db.companies[i].lastVisitedOn)
    ensures forall i | 0 <= i < |db.companies| ::
      r.db.companies[i] == db.companies[i].(lastVisitedOn := r.db.companies[i].lastVisitedOn)
    ensures forall k :: k in r.db.checklist <==> k in db.checklist && !(k.0 == d && db.checklist[k])
    ensures forall k | k in r.db.checklist :: r.db.checklist[k] == db.checklist[k]
    ensures r.db.tags == db.tags && r.db.companyTags == db.companyTags
    ensures forall i | 0 <= i < |r.updated| :: r.updated[i].company.lastVisitedOn == Some(d)
    ensures forall i, j | 0 <= i < j < |r.updated| :: StrLe(r.updated[i].company.companyName, r.updated[j].company.companyName)
  {
    var db2 := db.(companies := VisitAll(db, d), checklist := ConsumeDay(db.checklist, d));
    Submitted(db2, Views(db2, UpdatedRows(db, d)))
  }

  /** Submitting never moves a last visit backwards. */
  lemma LastVisitNeverBackwards(db: Db, d: Day, i: nat)
    requires i < |db.companies| && db.companies[i].lastVisitedOn.Some?
    ensures SubmitDay(db, d).db.companies[i].lastVisitedOn.Some?
    ensures db.companies[i].lastVisitedOn.value <= SubmitDay(db, d).db.companies[i].lastVisitedOn.value
  {
  }

  /** A company is among those returned iff submitting advanced it; a
      company ticked off but already visited on or after `d` is not. */
  lemma SubmitReturnsExactlyAdvanced(db: Db, d: Day, id: CompanyId)
    ensures var up := SubmitDay(db, d).updated;
      (exists j | 0 <= j < |up| :: up[j].company.companyId == id) <==>
      (exists i | 0 <= i < |db.companies| :: db.companies[i].companyId == id && Advances(db, d, db.companies[i]))
  {
    var rows := UpdatedRows(db, d);
    var up := SubmitDay(db, d).updated;
    assert |up| == |rows| && forall j | 0 <= j < |up| :: up[j].company == rows[j];
    AdvancedRows(db, d, id);
  }

  lemma AdvancedRows(db: Db, d: Day, id: CompanyId)
    ensures (exists j | 0 <= j < |UpdatedRows(db, d)| :: UpdatedRows(db, d)[j].companyId == id) <==>
      (exists i | 0 <= i < |db.companies| :: db.companies[i].companyId == id && Advances(db, d, db.companies[i]))
  {
    var kept := Filter(db.companies, AdvanceSelector(db, d));
    var vs := Visited(kept, d);
    var rows := UpdatedRows(db, d);
    if i :| 0 <= i < |db.companies| && db.companies[i].companyId == id && Advances(db, d, db.companies[i]) {
      FilterComplete(db.companies, AdvanceSelector(db, d), i);
      var j :| 0 <= j < |kept| && kept[j] == db.companies[i];
      assert vs[j] in multiset(rows);
      var k :| 0 <= k < |rows| && rows[k] == vs[j];
      assert rows[k].companyId == id;
    }
    if j :| 0 <= j < |rows| && rows[j].companyId == id {
      assert rows[j] in multiset(vs);
      var k :| 0 <= k < |vs| && vs[k] == rows[j];
      FilterSound(db.companies, AdvanceSelector(db, d));
      assert kept[k] in db.companies;
      var i :| 0 <= i < |db.companies| && db.companies[i] == kept[k];
      assert db.companies[i].companyId == id && Advances(db, d, db.companies[i]);
    }
  }

  /** Submitting a day twice is submitting it once: the second call finds
      no ticked entries left, changes nothing and returns nothing. */
  lemma SubmitDayIdempotent(db: Db, d: Day)
    ensures var once := SubmitDay(db, d);
      SubmitDay(once.db, d) == Submitted(once.db, [])
  {
    var db1 := SubmitDay(db, d).db;
    assert forall c: Company :: !Advances(db1, d, c);
    var r := SubmitDay(db1, d);
    assert r.db.companies == db1.companies;
    assert r.db.checklist == db1.checklist;
    FilterNone(db1.companies, AdvanceSelector(db1, d));
  }
}
