/** The companies table: the page of companies the server returned,
    narrowed on the client by the filter dialog's dates and tags; the
    update button's target; Enter in the search box opening the add dialog
    for a name nothing matches. */
module CompaniesTable {
  import opened Wrappers
  import opened Text
  import opened CompanyForm

  /** A row as the table receives it; dates are `yyyy-MM-dd` texts. */
  datatype CompanyRow = CompanyRow(
    companyId: string,
    companyName: string,
    careersUrl: string,
    lastVisitedOn: Option<string>,
    nextVisitOn: Option<string>,
    revisitAfterDays: int,
    tags: seq<string>)

  /** The filter dialog's output. */
  datatype Filters = Filters(lastVisitedOnYmd: Option<string>, nextVisitOnYmd: Option<string>, tagsAny: seq<string>)

  /** No filter at all: the table's initial state. */
  const NoFilters := Filters(None, None, [])

  /** `xs.map(t => t.toLowerCase())`. */
  function LowerAll(xs: seq<string>): (r: seq<string>)
    ensures |r| == |xs| && forall i | 0 <= i < |xs| :: r[i] == Lower(xs[i])
  {
    seq(|xs|, i requires 0 <= i < |xs| => Lower(xs[i]))
  }

  /** `wanted.some(t => row.includes(t))`, element by element. */
  function AnyIncluded(wanted: seq<string>, row: seq<string>): bool {
    wanted != [] && (wanted[0] in row || AnyIncluded(wanted[1..], row))
  }

  lemma {:induction false} AnyIncludedMeansCommon(wanted: seq<string>, row: seq<string>)
    ensures AnyIncluded(wanted, row) <==> exists i | 0 <= i < |wanted| :: wanted[i] in row
  {
    if wanted != [] {
      AnyIncludedMeansCommon(wanted[1..], row);
      if exists i | 0 <= i < |wanted| :: wanted[i] in row {
        var i :| 0 <= i < |wanted| && wanted[i] in row;
        if i > 0 {
          assert wanted[1..][i - 1] in row;
        }
      }
    }
  }

  /** The predicate of `filteredItems`, as written: with a date filter the
      row must match one of the given dates (an empty date text counts as
      no date), with tags it must carry one of them, case aside. */
  predicate Keep(f: Filters, c: CompanyRow) {
    var last := f.lastVisitedOnYmd;
    var next := f.nextVisitOnYmd;
    var tagsAny := LowerAll(f.tagsAny);
    var hasDate := Truthy(last) || Truthy(next);
    var dateOk :=
      if hasDate then
        var lastMatch := if Truthy(last) then c.lastVisitedOn == last else false;
        var nextMatch := if Truthy(next) then c.nextVisitOn == next else false;
        lastMatch || nextMatch
      else true;
    var tagsOk := if |tagsAny| > 0 then AnyIncluded(tagsAny, LowerAll(c.tags)) else true;
    dateOk && tagsOk
  }

  function Shows(f: Filters): CompanyRow -> bool {
    (c: CompanyRow) => Keep(f, c)
  }

  /** `filteredItems`. */
  function FilteredItems(items: seq<CompanyRow>, f: Filters): (r: seq<CompanyRow>)
    ensures |r| <= |items|
  {
    Filter(items, Shows(f))
  }

  /** The date test: no date given, or the row's last visit is the given
      one, or its next visit is the given one; the two dates are
      alternatives even when both are set. */
  predicate DateMatches(f: Filters, c: CompanyRow) {
    || (!Truthy(f.lastVisitedOnYmd) && !Truthy(f.nextVisitOnYmd))
    || (Truthy(f.lastVisitedOnYmd) && c.lastVisitedOn == f.lastVisitedOnYmd)
    || (Truthy(f.nextVisitOnYmd) && c.nextVisitOn == f.nextVisitOnYmd)
  }

  /** The tag test: no tags given, or some given tag equals some row tag
      once both are lower-cased. */
  predicate TagsMatch(f: Filters, c: CompanyRow) {
    || f.tagsAny == []
    || exists i, j | 0 <= i < |f.tagsAny| && 0 <= j < |c.tags| :: Lower(f.tagsAny[i]) == Lower(c.tags[j])
  }

  /** The table shows a row exactly when it was loaded and passes both
      tests; the shown rows keep the loaded order. */
  lemma FilteredItemsMeaning(items: seq<CompanyRow>, f: Filters, c: CompanyRow)
    ensures c in FilteredItems(items, f) <==> c in items && DateMatches(f, c) && TagsMatch(f, c)
    ensures IsSubsequence(FilteredItems(items, f), items)
  {
    FilterMember(items, Shows(f), c);
    FilterOrdered(items, Shows(f));
    KeepMeaning(f, c);
  }

  lemma KeepMeaning(f: Filters, c: CompanyRow)
    ensures Keep(f, c) <==> DateMatches(f, c) && TagsMatch(f, c)
  {
    var wanted, row := LowerAll(f.tagsAny), LowerAll(c.tags);
    AnyIncludedMeansCommon(wanted, row);
    if exists i | 0 <= i < |wanted| :: wanted[i] in row {
      var i :| 0 <= i < |wanted| && wanted[i] in row;
      var j :| 0 <= j < |row| && row[j] == wanted[i];
      assert Lower(f.tagsAny[i]) == Lower(c.tags[j]);
    }
    if exists i, j | 0 <= i < |f.tagsAny| && 0 <= j < |c.tags| :: Lower(f.tagsAny[i]) == Lower(c.tags[j]) {
      var i, j :| 0 <= i < |f.tagsAny| && 0 <= j < |c.tags| && Lower(f.tagsAny[i]) == Lower(c.tags[j]);
      assert wanted[i] == row[j];
      assert wanted[i] in row;
    }
  }

  /** Without dates or tags every loaded row is shown, in order; an empty
      date text filters nothing. */
  lemma NoFiltersShowsAll(items: seq<CompanyRow>, f: Filters)
    requires !Truthy(f.lastVisitedOnYmd) && !Truthy(f.nextVisitOnYmd) && f.tagsAny == []
    ensures FilteredItems(items, f) == items
  {
    FilterAll(items, Shows(f));
  }

  /** The company the update dialog edits: the selected one when exactly
      one row is selected, none otherwise. */
  function SelectedForUpdate(selected: seq<CompanyRow>): (r: Option<CompanyRow>)
    ensures r.Some? <==> |selected| == 1
    ensures r.Some? ==> r.value in selected
  {
    if |selected| == 1 then Some(selected[0]) else None
  }

  /** Enter in the search box: the name the add dialog opens with, if it
      opens at all — only for a non-blank query while nothing is loading
      and no company was loaded. */
  function EnterSeedName(query: string, loaded: seq<CompanyRow>, isLoading: bool): (r: Option<string>)
    ensures r.Some? <==> JsTrim(query) != [] && loaded == [] && !isLoading
    ensures r.Some? ==> r.value != [] && JsTrimmed(r.value)
  {
    JsTrimIsTrimmed(query);
    var trimmed := JsTrim(query);
    if |trimmed| > 0 && |loaded| == 0 && !isLoading then Some(trimmed) else None
  }
}
