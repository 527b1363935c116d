/** The company list query of `CompanyRepository`: the WHERE clauses and
    their parameters built from the filters, what those clauses select,
    and the page of matching companies in name order. */
module CompanyQuery {
  import opened Wrappers
  import opened Text
  import opened Errors
  import opened Sorting
  import opened DueFilters
  import opened TagStore
  import opened Database
  import opened LikePattern

  /** The filter arguments of `findCompanies` / `countCompanies`. */
  datatype Filters = Filters(
    q: Option<string>,
    tagsAny: Option<seq<string>>,
    due: Option<DueFilter>,
    date: Option<Day>,
    lastVisitedOn: Option<Day>)

  /** One `AND …` condition appended to `WHERE 1=1`. */
  datatype Clause =
    | NameLike           // company_name ILIKE ? ESCAPE '\'
    | HasAnyTag          // EXISTS (… t2.tag_key = ANY(?))
    | NextVisitOnIs      // next_visit_on = ?
    | LastVisitedOnIs    // last_visited_on = ?
    | DueIs(DueFilter)   // next_visit_on =, < or > CURRENT_DATE

  /** A bound statement parameter. */
  datatype Param = TextParam(text: string) | KeysParam(keys: seq<string>) | DateParam(day: Day) | IntParam(n: int)

  /** The conditions and their parameters, both in append order. */
  datatype Where = Where(clauses: seq<Clause>, params: seq<Param>)

  /** The number of `?` placeholders in `cl`. */
  function Placeholders(cl: seq<Clause>): (n: nat)
    ensures n <= |cl|
  {
    if cl == [] then 0
    else (if cl[0].DueIs? then 0 else 1) + Placeholders(cl[1..])
  }

  lemma {:induction false} PlaceholdersAppend(a: seq<Clause>, b: seq<Clause>)
    ensures Placeholders(a + b) == Placeholders(a) + Placeholders(b)
  {
    if a == [] {
      assert a + b == b;
    } else {
      assert (a + b)[1..] == a[1..] + b;
      PlaceholdersAppend(a[1..], b);
    }
  }

  /** A search text that adds a clause: present and not blank. */
  predicate Searches(q: Option<string>) {
    q.Some? && !JavaIsBlank(q.value)
  }

  /** A tag list that adds a clause: present and not empty. */
  predicate FiltersTags(tagsAny: Option<seq<string>>) {
    tagsAny.Some? && tagsAny.value != []
  }

  /** The due filter that applies: none when an exact date is given. */
  function EffectiveDue(f: Filters): (r: Option<DueFilter>)
    ensures f.date.Some? ==> r.None?
  {
    if f.date.Some? then None else f.due
  }

  function SearchPart(f: Filters): Where {
    if Searches(f.q) then Where([NameLike], [TextParam(SearchPattern(f.q.value))]) else Where([], [])
  }

  function TagsPart(f: Filters): Where {
    if FiltersTags(f.tagsAny) then Where([HasAnyTag], [KeysParam(f.tagsAny.value)]) else Where([], [])
  }

  function DatePart(f: Filters): Where {
    if f.date.Some? then Where([NextVisitOnIs], [DateParam(f.date.value)]) else Where([], [])
  }

  function LastVisitedPart(f: Filters): Where {
    if f.lastVisitedOn.Some? then Where([LastVisitedOnIs], [DateParam(f.lastVisitedOn.value)]) else Where([], [])
  }

  function DuePart(f: Filters): Where {
    var due := EffectiveDue(f);
    if due.Some? then Where([DueIs(due.value)], []) else Where([], [])
  }

  function Then(a: Where, b: Where): Where {
    Where(a.clauses + b.clauses, a.params + b.params)
  }

  /** `applyFiltersToQuery`: search, tags, date, last visit and due, in
      that order; every clause but the due clause binds one parameter. */
  function ApplyFilters(f: Filters): (r: Where)
    ensures Placeholders(r.clauses) == |r.params|
  {
    var p0, p1, p2, p3, p4 := SearchPart(f), TagsPart(f), DatePart(f), LastVisitedPart(f), DuePart(f);
    PlaceholdersThen(p3, p4);
    PlaceholdersThen(p2, Then(p3, p4));
    PlaceholdersThen(p1, Then(p2, Then(p3, p4)));
    PlaceholdersThen(p0, Then(p1, Then(p2, Then(p3, p4))));
    Then(p0, Then(p1, Then(p2, Then(p3, p4))))
  }

  lemma PlaceholdersThen(a: Where, b: Where)
    requires Placeholders(a.clauses) == |a.params| && Placeholders(b.clauses) == |b.params|
    ensures Placeholders(Then(a, b).clauses) == |Then(a, b).params|
  {
    PlaceholdersAppend(a.clauses, b.clauses);
  }

  /** A clause is in the query iff one of the five steps added it. */
  lemma ClauseIn(f: Filters, x: Clause)
    ensures x in ApplyFilters(f).clauses <==>
      x in SearchPart(f).clauses || x in TagsPart(f).clauses || x in DatePart(f).clauses ||
      x in LastVisitedPart(f).clauses || x in DuePart(f).clauses
  {
  }

  /** Which clauses the filters add: the search only for a non-blank
      text, the tag test only for a non-empty list, the date and
      last-visit tests when given, and the due test only when no date is
      given. */
  lemma ClausesOfFilters(f: Filters)
    ensures NameLike in ApplyFilters(f).clauses <==> Searches(f.q)
    ensures HasAnyTag in ApplyFilters(f).clauses <==> FiltersTags(f.tagsAny)
    ensures NextVisitOnIs in ApplyFilters(f).clauses <==> f.date.Some?
    ensures LastVisitedOnIs in ApplyFilters(f).clauses <==> f.lastVisitedOn.Some?
    ensures f.date.Some? ==> forall d: DueFilter :: DueIs(d) !in ApplyFilters(f).clauses
    ensures f.date.None? && f.due.Some? ==> DueIs(f.due.value) in ApplyFilters(f).clauses
  {
    ClauseIn(f, NameLike);
    ClauseIn(f, HasAnyTag);
    ClauseIn(f, NextVisitOnIs);
    ClauseIn(f, LastVisitedOnIs);
    forall d: DueFilter
      ensures DueIs(d) in ApplyFilters(f).clauses <==> EffectiveDue(f) == Some(d)
    {
      ClauseIn(f, DueIs(d));
    }
  }

  /** Company `id` is linked to a tag row with key `k`. */
  predicate HasTag(db: Db, id: CompanyId, k: string) {
    (id, k) in db.companyTags && HasKey(db.tags, k)
  }

  /** The due conditions against `CURRENT_DATE`; a missing next visit
      satisfies none of them (SQL comparison with `NULL`). */
  predicate DueHolds(due: DueFilter, next: Option<Day>, today: Day) {
    next.Some? &&
    match due
    case Today => next.value == today
    case Overdue => next.value < today
    case Upcoming => next.value > today
  }

  /** How the database evaluates the conditions, taking the parameters in
      placeholder order. */
  predicate Satisfies(cl: seq<Clause>, ps: seq<Param>, db: Db, today: Day, c: Company)
    decreases |cl|
  {
    if cl == [] then ps == []
    else match cl[0]
      case DueIs(due) => DueHolds(due, c.NextVisitOn(), today) && Satisfies(cl[1..], ps, db, today, c)
      case NameLike =>
        ps != [] && ps[0].TextParam? && ILike(ps[0].text, c.companyName) && Satisfies(cl[1..], ps[1..], db, today, c)
      case HasAnyTag =>
        ps != [] && ps[0].KeysParam? && (exists k | k in ps[0].keys :: HasTag(db, c.companyId, k)) &&
        Satisfies(cl[1..], ps[1..], db, today, c)
      case NextVisitOnIs =>
        ps != [] && ps[0].DateParam? && c.NextVisitOn() == Some(ps[0].day) && Satisfies(cl[1..], ps[1..], db, today, c)
      case LastVisitedOnIs =>
        ps != [] && ps[0].DateParam? && c.lastVisitedOn == Some(ps[0].day) && Satisfies(cl[1..], ps[1..], db, today, c)
  }

  /** Conditions joined by `AND` hold together. */
  lemma {:induction false} SatisfiesThen(a: Where, b: Where, db: Db, today: Day, c: Company)
    requires Placeholders(a.clauses) == |a.params|
    ensures Satisfies(Then(a, b).clauses, Then(a, b).params, db, today, c) <==>
      Satisfies(a.clauses, a.params, db, today, c) && Satisfies(b.clauses, b.params, db, today, c)
    decreases |a.clauses|
  {
    var ab := Then(a, b);
    if a.clauses == [] {
      assert ab.clauses == b.clauses && ab.params == b.params;
    } else {
      var ps := if a.clauses[0].DueIs? then a.params else a.params[1..];
      assert ab.clauses[1..] == a.clauses[1..] + b.clauses;
      if !a.clauses[0].DueIs? {
        assert ab.params[1..] == a.params[1..] + b.params;
        assert ab.params[0] == a.params[0];
      }
      SatisfiesThen(Where(a.clauses[1..], ps), b, db, today, c);
    }
  }

  /** What the filters mean for one company. */
  predicate Matches(f: Filters, db: Db, today: Day, c: Company) {
    (!Searches(f.q) || Lower(JavaTrim(f.q.value)) <= Lower(c.companyName)) &&
    (!FiltersTags(f.tagsAny) || exists k | k in f.tagsAny.value :: HasTag(db, c.companyId, k)) &&
    (f.date.None? || c.NextVisitOn() == f.date) &&
    (f.lastVisitedOn.None? || c.lastVisitedOn == f.lastVisitedOn) &&
    (f.date.Some? || f.due.None? || DueHolds(f.due.value, c.NextVisitOn(), today))
  }

  lemma SearchPartMeans(f: Filters, db: Db, today: Day, c: Company)
    ensures Satisfies(SearchPart(f).clauses, SearchPart(f).params, db, today, c) <==>
      (!Searches(f.q) || Lower(JavaTrim(f.q.value)) <= Lower(c.companyName))
  {
    if Searches(f.q) {
      var pat := SearchPattern(f.q.value);
      assert SearchPart(f) == Where([NameLike], [TextParam(pat)]);
      assert Satisfies([NameLike], [TextParam(pat)], db, today, c) <==> ILike(pat, c.companyName) by {
        assert [NameLike][1..] == [] && [TextParam(pat)][1..] == [];
      }
      SearchIsPrefixMatch(f.q.value, c.companyName);
    }
  }

  lemma TagsPartMeans(f: Filters, db: Db, today: Day, c: Company)
    ensures Satisfies(TagsPart(f).clauses, TagsPart(f).params, db, today, c) <==>
      (!FiltersTags(f.tagsAny) || exists k | k in f.tagsAny.value :: HasTag(db, c.companyId, k))
  {
    if FiltersTags(f.tagsAny) {
      var p := KeysParam(f.tagsAny.value);
      assert TagsPart(f) == Where([HasAnyTag], [p]);
      assert [HasAnyTag][1..] == [] && [p][1..] == [];
    }
  }

  lemma DatePartMeans(f: Filters, db: Db, today: Day, c: Company)
    ensures Satisfies(DatePart(f).clauses, DatePart(f).params, db, today, c) <==>
      (f.date.None? || c.NextVisitOn() == f.date)
  {
    if f.date.Some? {
      var p := DateParam(f.date.value);
      assert DatePart(f) == Where([NextVisitOnIs], [p]);
      assert [NextVisitOnIs][1..] == [] && [p][1..] == [];
    }
  }

  lemma LastVisitedPartMeans(f: Filters, db: Db, today: Day, c: Company)
    ensures Satisfies(LastVisitedPart(f).clauses, LastVisitedPart(f).params, db, today, c) <==>
      (f.lastVisitedOn.None? || c.lastVisitedOn == f.lastVisitedOn)
  {
    if f.lastVisitedOn.Some? {
      var p := DateParam(f.lastVisitedOn.value);
      assert LastVisitedPart(f) == Where([LastVisitedOnIs], [p]);
      assert [LastVisitedOnIs][1..] == [] && [p][1..] == [];
    }
  }

  lemma DuePartMeans(f: Filters, db: Db, today: Day, c: Company)
    ensures Satisfies(DuePart(f).clauses, DuePart(f).params, db, today, c) <==>
      (f.date.Some? || f.due.None? || DueHolds(f.due.value, c.NextVisitOn(), today))
  {
    if f.date.None? && f.due.Some? {
      assert DuePart(f) == Where([DueIs(f.due.value)], []);
      assert [DueIs(f.due.value)][1..] == [];
    }
  }

  /** The built WHERE clause selects exactly the companies the filters
      describe: a prefix search ignoring case, any of the tags, the exact
      next and last visit dates, and the due condition unless a date is
      given. */
  lemma WhereMeansFilters(f: Filters, db: Db, today: Day, c: Company)
    ensures Satisfies(ApplyFilters(f).clauses, ApplyFilters(f).params, db, today, c) <==> Matches(f, db, today, c)
  {
    var p0, p1, p2, p3, p4 := SearchPart(f), TagsPart(f), DatePart(f), LastVisitedPart(f), DuePart(f);
    SatisfiesThen(p3, p4, db, today, c);
    SatisfiesThen(p2, Then(p3, p4), db, today, c);
    SatisfiesThen(p1, Then(p2, Then(p3, p4)), db, today, c);
    SatisfiesThen(p0, Then(p1, Then(p2, Then(p3, p4))), db, today, c);
    SearchPartMeans(f, db, today, c);
    TagsPartMeans(f, db, today, c);
    DatePartMeans(f, db, today, c);
    LastVisitedPartMeans(f, db, today, c);
    DuePartMeans(f, db, today, c);
  }

  /** The rows the WHERE clause keeps. */
  function WhereSelector(w: Where, db: Db, today: Day): Company -> bool {
    (c: Company) => Satisfies(w.clauses, w.params, db, today, c)
  }

  /** All matching companies, by name. */
  function Matching(db: Db, today: Day, f: Filters): (r: seq<Company>)
    ensures SortedBy(r, ByName)
    ensures multiset(r) == multiset(Filter(db.companies, WhereSelector(ApplyFilters(f), db, today)))
  {
    SortBy(Filter(db.companies, WhereSelector(ApplyFilters(f), db, today)), ByName)
  }

  /** Every matching company, and only those, is in the ordered result. */
  lemma MatchingIff(db: Db, today: Day, f: Filters, c: Company)
    requires c in db.companies
    ensures c in Matching(db, today, f) <==> Matches(f, db, today, c)
  {
    var sel := WhereSelector(ApplyFilters(f), db, today);
    WhereMeansFilters(f, db, today, c);
    FilterCount(db.companies, sel, c);
    assert c in Matching(db, today, f) <==> c in multiset(Matching(db, today, f));
  }

  const MaxInt: int := 0x7fff_ffff

  /** A Java `int`. */
  predicate IsInt(x: int) {
    -0x8000_0000 <= x <= MaxInt
  }

  /** `LIMIT limit OFFSET offset`. */
  function Page<T>(xs: seq<T>, offset: nat, limit: nat): (r: seq<T>)
    ensures |r| == if offset >= |xs| then 0 else if |xs| - offset < limit then |xs| - offset else limit
    ensures forall i | 0 <= i < |r| :: r[i] == xs[offset + i]
  {
    if offset >= |xs| then []
    else if |xs| - offset < limit then xs[offset..]
    else xs[offset..offset + limit]
  }

  /** The page of matching companies at `offset`, at most `limit` long. */
  function FindPage(db: Db, today: Day, offset: nat, limit: nat, f: Filters): (r: seq<CompanyView>)
    ensures |r| <= limit && (r == [] || offset + |r| <= |Matching(db, today, f)|)
    ensures forall i | 0 <= i < |r| :: r[i] == View(db, Matching(db, today, f)[offset + i])
  {
    Views(db, Page(Matching(db, today, f), offset, limit))
  }

  /** Java's `(int)` cast of a `long`: the low 32 bits, read as a signed
      number. */
  function IntCast(x: int): (r: int)
    ensures IsInt(r)
    ensures (x - r) % 0x1_0000_0000 == 0
    ensures IsInt(x) ==> r == x
  {
    (x + 0x8000_0000) % 0x1_0000_0000 - 0x8000_0000
  }

  /** `findCompanies`: the offset `page * size` is computed in 64 bits (the
      product of two `int`s always fits) and must not exceed
      `Integer.MAX_VALUE`; it is then cast to an `int`, so a product below
      `Integer.MIN_VALUE` wraps around; the database refuses a negative
      limit or offset; otherwise the page of matching companies in name
      order. */
  function FindCompanies(db: Db, today: Day, page: int, size: int, f: Filters): (r: Result<seq<CompanyView>, Failure>)
    requires IsInt(page) && IsInt(size)
    ensures r.Failure? <==> page * size > MaxInt || size < 0 || IntCast(page * size) < 0
    ensures page * size > MaxInt ==> r.Failure? && r.error.IllegalArgument?
    ensures r.Success? ==> r.value == FindPage(db, today, IntCast(page * size), size, f)
    ensures r.Success? && page * size >= -0x8000_0000 ==> r.value == FindPage(db, today, page * size, size, f)
  {
    var offsetLong := page * size;
    if offsetLong > MaxInt then
      Failure(IllegalArgument("Offset overflow: page=" + IntText(page) + ", size=" + IntText(size) +
        " results in offset=" + IntText(offsetLong) + " which exceeds Integer.MAX_VALUE"))
    else
      var offset := IntCast(offsetLong);
      if size < 0 || offset < 0 then Failure(StatementRejected)
      else Success(FindPage(db, today, offset, size, f))
  }

  /** A product below `Integer.MIN_VALUE` is not refused: page -65536 of
      size 65536 has the 64-bit offset -2^32, whose `int` cast is 0, so it
      reads the first page. */
  lemma NegativePageWrapsToFirst(db: Db, today: Day, f: Filters)
    ensures FindCompanies(db, today, -0x1_0000, 0x1_0000, f) == Success(FindPage(db, today, 0, 0x1_0000, f))
  {
    var offsetLong := -0x1_0000 * 0x1_0000;
    assert offsetLong == -0x1_0000_0000;
    assert (offsetLong + 0x8000_0000) % 0x1_0000_0000 == 0x8000_0000;
    assert IntCast(offsetLong) == 0;
  }

  /** The statement parameters of `findCompanies`: the filters' ones, then
      the limit, then the offset as an `int`. */
  function FindParams(page: int, size: int, f: Filters): (r: seq<Param>)
    ensures |r| == |ApplyFilters(f).params| + 2
    ensures r[|r| - 2] == IntParam(size) && r[|r| - 1] == IntParam(IntCast(page * size))
    ensures r[..|r| - 2] == ApplyFilters(f).params
  {
    ApplyFilters(f).params + [IntParam(size), IntParam(IntCast(page * size))]
  }

  /** `countCompanies`: the number of distinct matching companies. */
  function CountCompanies(db: Db, today: Day, f: Filters): (n: nat)
    ensures n <= |db.companies|
  {
    |Filter(db.companies, WhereSelector(ApplyFilters(f), db, today))|
  }

  /** A page holds what is left of the count after the offset, at most
      `size` of it. */
  lemma PageOfCount(db: Db, today: Day, page: int, size: int, f: Filters)
    requires IsInt(page) && IsInt(size) && FindCompanies(db, today, page, size, f).Success?
    ensures var n := CountCompanies(db, today, f);
      var offset := IntCast(page * size);
      |FindCompanies(db, today, page, size, f).value| ==
        if offset >= n then 0 else if n - offset < size then n - offset else size
  {
    var all := Filter(db.companies, WhereSelector(ApplyFilters(f), db, today));
    assert |multiset(Matching(db, today, f))| == |multiset(all)|;
  }
}
