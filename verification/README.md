# Job-application tracker — a Dafny model of its core

The tracker keeps a list of companies whose careers pages a job seeker
revisits. Each company has a name, a careers URL, the day it was last
visited, a revisit interval of 1 to 20 days, the next visit that follows
from those, and a set of tags. A daily checklist lists the companies due on
a day. Ticking an entry off and then *submitting* the day records the visit.
A Spring/JDBC backend stores all this in SQL tables; a React client shows
the checklist, a calendar and a filterable companies table, with dialogs to
add, update and filter companies.

This project models the logic of both tiers as pure functions over
immutable data and proves what that logic promises.

- **Tables.** The tables are values (`Database.Db`): a sequence of company
  rows, the tag table, the company–tag links and the checklist as a map
  from (day, company) to the completion flag. Each SQL statement is a
  function from tables to tables (`ChecklistRepository`, `CompanyRepository`,
  `TagStore`), and each query is filter → sort by name → slice
  (`CompanyQuery`). Dates are whole-day numbers.
- **Services.** The service layer adds validation, paging bounds, the
  parsing of tag lists and the mapping of failures to HTTP answers
  (`ChecklistService`, `CompanyService`, `Errors`, `DueFilters`, `Tags`,
  `SqlArrays`, `LikePattern`).
- **Client.** The React side becomes functions of the component state.
  - `TodayChecklist` and `CalendarPanel` group and filter items by
    `yyyy-MM-dd` text. `Dates` proves that the order of that text is the
    calendar order.
  - `ChecklistCache` is the query cache, a map from query key to entry,
    with the optimistic toggle as a sequence of pure transitions.
    `Toggle` runs the updater as written (see "## Findings");
    `ToggleIntended` runs the corrected one.
  - The rest covers the tag picker, the companies table's filter, the
    three company dialogs (their schemas, date fields, tag text and
    requests) and the reading of the companies endpoint.
- **Parameters.** Whatever the code leaves to a library or the
  environment enters as a parameter: date parsing and formatting, URL
  validation, the current day and fresh ids.

Shared pieces: `Wrappers` (`Option`, `Result`), `Text` (Java and
JavaScript trimming, ASCII lower-casing, split, join, filter, distinct) and
`Sorting` (a stable sort by a string key, standing in for `ORDER BY`).

Where the description of the system and the code disagree, the model
follows the code. `ChecklistService.getChecklist` calls
`checklistRepository.getCheckList`
(backend/src/main/java/com/jobapptracker/backend/checklist/service/ChecklistService.java:32),
but the repository method is named `getChecklist`. The model takes the
evidently intended call.

## Model

| member | source | states |
|---|---|---|
| Tags.ToTagKey | backend/src/main/java/com/jobapptracker/backend/company/repository/CompanyTagUtil.java:8-22 | a missing name has the empty key; every key consists only of lower-case ASCII letters and digits and is no longer than the name |
| Tags.KeyIsLetterAndDigitRun | backend/src/main/java/com/jobapptracker/backend/company/repository/CompanyTagUtil.java:13-19 | the key is the name's letters and digits, lower-cased, in order: trimming first changes nothing |
| Tags.KeyIgnoresCase | backend/src/main/java/com/jobapptracker/backend/company/repository/CompanyTagUtil.java:13 | names that differ only in letter case share a key |
| Tags.KeyOfKey | backend/src/main/java/com/jobapptracker/backend/company/repository/CompanyTagUtil.java:13-19 | a key is its own key |
| Tags.ToTagKeyIdempotent | backend/src/main/java/com/jobapptracker/backend/company/repository/CompanyTagUtil.java:8-22 | taking the key of a key changes nothing |
| Errors.Handle | backend/src/main/java/com/jobapptracker/backend/company/web/GlobalExceptionHandler.java:24-136 | validation and illegal-argument failures are 400, a missing company 404, a duplicate careers URL 409, everything else 500; 400 and 404 bodies carry the failure's message, validation messages joined with ", "; 500 bodies carry one of the two fixed messages |
| Errors.ServerErrorsAreOpaque | backend/src/main/java/com/jobapptracker/backend/company/web/GlobalExceptionHandler.java:123-136 | any two failures that reach the generic handler give the same response |
| Errors.ConflictHidesUrl | backend/src/main/java/com/jobapptracker/backend/company/web/GlobalExceptionHandler.java:93-106 | the conflict response is the same whatever URL was duplicated |
| DueFilters.FromStringOrNull | backend/src/main/java/com/jobapptracker/backend/company/web/DueFilter.java:8-19 | a missing or blank value is no filter; otherwise the trimmed, lower-cased value must be "today", "overdue" or "upcoming" and selects that constant, and anything else is an IllegalStateException |
| DueFilters.ParsesEverySpelling | backend/src/main/java/com/jobapptracker/backend/company/web/DueFilter.java:13-16 | every spelling that trims and lower-cases to a constant's name parses to that constant |
| DueFilters.NameRoundTrip | backend/src/main/java/com/jobapptracker/backend/company/web/DueFilter.java:4-16 | requesting a constant by its own name gives that constant back |
| DueFilters.BadDueIsServerError | backend/src/main/java/com/jobapptracker/backend/company/web/DueFilter.java:17 | an unknown due value reaches the generic handler and is answered with status 500, not 400 |
| SqlArrays.ToStringList | backend/src/main/java/com/jobapptracker/backend/config/SqlArrayUtils.java:21-30 | a null array, or one whose payload is null, reads as the empty list; otherwise as its elements, nulls included |
| SqlArrays.ZipTags | backend/src/main/java/com/jobapptracker/backend/config/SqlArrayUtils.java:32-53 | lists of different lengths are an IllegalStateException; otherwise the result is the independent definition ZippedTags, i.e. the trimmed pairs whose key and name are both present and non-blank, in order |
| SqlArrays.KeptTags | backend/src/main/java/com/jobapptracker/backend/config/SqlArrayUtils.java:41-52 | the loop builds exactly ZippedTags |
| SqlArrays.ZippedTagsSound | backend/src/main/java/com/jobapptracker/backend/config/SqlArrayUtils.java:47-48 | every kept tag is some position's key and name, both present and non-blank, trimmed |
| SqlArrays.ZippedTagsComplete | backend/src/main/java/com/jobapptracker/backend/config/SqlArrayUtils.java:47-48 | a position with present, non-blank key and name is never dropped |
| Dates.Ymd | frontend/src/features/checklist/TodayChecklist.tsx:11-13 | a date's `yyyy-MM-dd` text is ten characters with dashes at positions 4 and 7 |
| Dates.DayNumberOrder | frontend/src/features/checklist/TodayChecklist.tsx:20-21 | on real dates, calendar order is day-number order and equal dates have equal day numbers, so the backend's whole-day dates and the frontend's dates agree |
| Dates.YmdOrderIsCalendarOrder | frontend/src/features/checklist/TodayChecklist.tsx:20-21 | for four-digit years, `<` on the `yyyy-MM-dd` texts is calendar order and `===` is date equality |
| Dates.YmdOrderIsDayOrder | frontend/src/features/checklist/TodayChecklist.tsx:20-21 | for four-digit years, `<` on the texts is day-number order and `===` is equality of day numbers |
| TagStore.NameOf | backend/src/main/java/com/jobapptracker/backend/tag/repository/TagRepository.java:25-39 | the stored name under a key is found exactly when some row has that key, and it is that row's name |
| TagStore.NameOfAppend | backend/src/main/java/com/jobapptracker/backend/tag/repository/TagRepository.java:54-58 | a row already in the table is what a lookup after appending new rows finds |
| TagStore.InsertRow | backend/src/main/java/com/jobapptracker/backend/tag/repository/TagRepository.java:54-58 | one insert with ON CONFLICT (tag_key) DO NOTHING: afterwards the key exists; an existing key leaves the table unchanged; a new key appends exactly that row; unique keys stay unique |
| TagStore.InsertAll | backend/src/main/java/com/jobapptracker/backend/tag/repository/TagRepository.java:60-70 | the batch only appends rows, at most one per name, and keeps the keys unique |
| TagStore.EnsureTagsExist | backend/src/main/java/com/jobapptracker/backend/tag/repository/TagRepository.java:47-72 | a missing or empty list changes nothing; otherwise rows are only added and the keys stay unique |
| TagStore.AllKeysPresent | backend/src/main/java/com/jobapptracker/backend/tag/repository/TagRepository.java:60-70 | after the batch the key of every name in it exists |
| TagStore.EnsuredKeysExist | backend/src/main/java/com/jobapptracker/backend/tag/repository/TagRepository.java:47-72 | after ensureTagsExist the tag key of every requested name exists |
| TagStore.NeverOverwrites | backend/src/main/java/com/jobapptracker/backend/tag/repository/TagRepository.java:54-58 | the display name stored under an existing key is never changed |
| TagStore.FirstNameWins | backend/src/main/java/com/jobapptracker/backend/tag/repository/TagRepository.java:47-72 | a new key is stored with the name, verbatim, of the first requested name that normalises to it |
| TagStore.FirstInsertWins | backend/src/main/java/com/jobapptracker/backend/tag/repository/TagRepository.java:60-70 | the same, for the insert loop over any key function |
| TagStore.InsertAllPresent | backend/src/main/java/com/jobapptracker/backend/tag/repository/TagRepository.java:60-70 | inserting names whose keys all exist changes nothing |
| TagStore.EnsureIdempotent | backend/src/main/java/com/jobapptracker/backend/tag/repository/TagRepository.java:47-72 | ensuring the same names twice is the same as ensuring them once |
| TagStore.ListAll | backend/src/main/java/com/jobapptracker/backend/tag/repository/TagRepository.java:25-39 | every row, as a TagDto, sorted by display name, and a permutation of the rows |
| LikePattern.EscapeForLikeIsPerChar | backend/src/main/java/com/jobapptracker/backend/company/repository/CompanyRepository.java:125-128 | the three chained replacements put a backslash before each backslash, percent and underscore and change nothing else |
| LikePattern.EscapedPrefixMatch | backend/src/main/java/com/jobapptracker/backend/company/repository/CompanyRepository.java:124-129 | the escaped text followed by % matches, under LIKE with escape character backslash, exactly the strings that start with the text |
| LikePattern.LowerEscape | backend/src/main/java/com/jobapptracker/backend/company/repository/CompanyRepository.java:124 | lower-casing commutes with escaping, so ILIKE sees the escaped lower-cased text |
| LikePattern.SearchIsPrefixMatch | backend/src/main/java/com/jobapptracker/backend/company/repository/CompanyRepository.java:123-130 | the name search keeps exactly the names that start with the trimmed search text, ignoring case; wildcard characters in the text match only themselves |
| Database.LinkedRows | backend/src/main/java/com/jobapptracker/backend/config/SqlFragments.java:22-32 | a company's tags are its linked tag rows, each once, ordered by display name |
| CompanyQuery.ApplyFilters | backend/src/main/java/com/jobapptracker/backend/company/repository/CompanyRepository.java:111-166 | the conditions bind exactly one parameter per placeholder, the due condition none |
| CompanyQuery.ClausesOfFilters | backend/src/main/java/com/jobapptracker/backend/company/repository/CompanyRepository.java:120-165 | the name search is added only for a non-blank text, the tag test only for a non-empty list, the next- and last-visit tests when given, and the due test only when no exact date is given |
| CompanyQuery.SatisfiesThen | backend/src/main/java/com/jobapptracker/backend/company/repository/CompanyRepository.java:111-166 | conditions appended one after another hold together, each reading its own parameters |
| CompanyQuery.SearchPartMeans | backend/src/main/java/com/jobapptracker/backend/company/repository/CompanyRepository.java:123-130 | the search clause keeps exactly the names starting with the trimmed text, ignoring case |
| CompanyQuery.TagsPartMeans | backend/src/main/java/com/jobapptracker/backend/company/repository/CompanyRepository.java:132-147 | the tag clause keeps exactly the companies linked to at least one of the given tag keys |
| CompanyQuery.DatePartMeans | backend/src/main/java/com/jobapptracker/backend/company/repository/CompanyRepository.java:149-152 | the date clause keeps exactly the companies whose next visit is that day |
| CompanyQuery.LastVisitedPartMeans | backend/src/main/java/com/jobapptracker/backend/company/repository/CompanyRepository.java:154-157 | the last-visit clause keeps exactly the companies last visited that day |
| CompanyQuery.DuePartMeans | backend/src/main/java/com/jobapptracker/backend/company/repository/CompanyRepository.java:159-165 | the due clause keeps next visits equal to, before or after today, never a company without a next visit, and is ignored when a date is given |
| CompanyQuery.WhereMeansFilters | backend/src/main/java/com/jobapptracker/backend/company/repository/CompanyRepository.java:111-166 | the built WHERE clause is true of a company exactly when it meets every given filter, independently defined as Matches |
| CompanyQuery.Matching | backend/src/main/java/com/jobapptracker/backend/config/SqlFragments.java:46-49 | the matching rows, ordered by company name, a permutation of the rows the WHERE clause keeps |
| CompanyQuery.MatchingIff | backend/src/main/java/com/jobapptracker/backend/company/repository/CompanyRepository.java:38-57 | a stored company is in the ordered result exactly when it meets the filters |
| CompanyQuery.Page | backend/src/main/java/com/jobapptracker/backend/company/repository/CompanyRepository.java:58 | LIMIT and OFFSET: the rows from the offset on, at most limit of them, none past the end |
| CompanyQuery.FindPage | backend/src/main/java/com/jobapptracker/backend/company/repository/CompanyRepository.java:58-75 | the page is at most limit long and is the matching companies from the offset on, each with its tags |
| CompanyQuery.IntCast | backend/src/main/java/com/jobapptracker/backend/company/repository/CompanyRepository.java:68 | the (int) cast keeps the value's residue modulo 2^32 within the int range, and leaves an int unchanged |
| CompanyQuery.FindCompanies | backend/src/main/java/com/jobapptracker/backend/company/repository/CompanyRepository.java:38-76 | an offset page*size above Integer.MAX_VALUE is an IllegalArgumentException; the product is then cast to int; a negative limit or cast offset is refused by the database; otherwise the page of matching companies at the cast offset, which is page*size when that is at least Integer.MIN_VALUE |
| CompanyQuery.NegativePageWrapsToFirst | backend/src/main/java/com/jobapptracker/backend/company/repository/CompanyRepository.java:62-68 | page -65536 of size 65536 is not refused: its offset -2^32 casts to 0 and the first page is read |
| CompanyQuery.FindParams | backend/src/main/java/com/jobapptracker/backend/company/repository/CompanyRepository.java:54-70 | the bound parameters are the filters' ones followed by the limit and then the offset cast to int |
| CompanyQuery.CountCompanies | backend/src/main/java/com/jobapptracker/backend/company/repository/CompanyRepository.java:78-109 | the count of distinct matching companies, never more than the stored companies |
| CompanyQuery.PageOfCount | backend/src/main/java/com/jobapptracker/backend/company/repository/CompanyRepository.java:38-109 | a page holds what is left of the count after the cast offset, at most size of it |
| CompanyRepository.NormalizeTagNames | backend/src/main/java/com/jobapptracker/backend/company/repository/CompanyRepository.java:469-479 | the names come out trimmed, non-blank and without duplicates; a missing list gives none |
| CompanyRepository.NormalizedNames | backend/src/main/java/com/jobapptracker/backend/company/repository/CompanyRepository.java:474-478 | a name is kept exactly when it is non-blank and some given name trims to it |
| CompanyRepository.CurrentKeys | backend/src/main/java/com/jobapptracker/backend/company/repository/CompanyRepository.java:505-511 | the keys of exactly the tags the company is linked to |
| CompanyRepository.ApplyTagChangesExact | backend/src/main/java/com/jobapptracker/backend/company/repository/CompanyRepository.java:513-553 | after removing the unwanted current links and adding the wanted new ones, the company is linked to exactly the wanted tags and no other company's links change |
| CompanyRepository.ClearTags | backend/src/main/java/com/jobapptracker/backend/company/repository/CompanyRepository.java:481-486 | the company loses every link and the other links stay |
| CompanyRepository.BuildTagDtos | backend/src/main/java/com/jobapptracker/backend/company/repository/CompanyRepository.java:555-559 | each name, in order, with its tag key |
| CompanyRepository.SetCompanyTags | backend/src/main/java/com/jobapptracker/backend/company/repository/CompanyRepository.java:453-467 | only the link table changes, and the answer is the normalised names with their keys |
| CompanyRepository.SetTagsLinksExactly | backend/src/main/java/com/jobapptracker/backend/company/repository/CompanyRepository.java:453-467 | afterwards the company is linked to exactly the existing tags one of the normalised names has the key of, and no other company's links change |
| CompanyRepository.ExistingKeysIff | backend/src/main/java/com/jobapptracker/backend/company/repository/CompanyRepository.java:488-503 | a key is looked up exactly when it names a tag row and is the key of one of the names, so a name with no tag row is not linked |
| CompanyRepository.LinkedWhenTagExists | backend/src/main/java/com/jobapptracker/backend/company/repository/CompanyRepository.java:453-467 | a trimmed non-blank name whose tag row exists ends up linked |
| CompanyRepository.FetchTags | backend/src/main/java/com/jobapptracker/backend/company/repository/CompanyRepository.java:380-397 | the company's linked tags in display-name order, as stored |
| CompanyRepository.InsertCompany | backend/src/main/java/com/jobapptracker/backend/company/repository/CompanyRepository.java:197-265 | a revisit interval below the minimum violates the table's check; a taken id or careers URL is a duplicate key; otherwise the row is appended with its tags from SetCompanyTags and its timestamps stamped, and nothing else but the links changes |
| CompanyRepository.InsertLinksExactly | backend/src/main/java/com/jobapptracker/backend/company/repository/CompanyRepository.java:252 | the new company is linked to exactly the existing tags its normalised names have keys for |
| CompanyRepository.InsertedUrlTaken | backend/src/main/java/com/jobapptracker/backend/company/repository/CompanyRepository.java:206-216 | once inserted, the careers URL is taken for every other company |
| CompanyRepository.InsertKeepsValid | backend/src/main/java/com/jobapptracker/backend/company/repository/CompanyRepository.java:197-265 | a successful insert keeps every constraint of the schema |
| CompanyRepository.Patched | backend/src/main/java/com/jobapptracker/backend/company/repository/CompanyRepository.java:280-298 | a given name or URL is trimmed, given fields replace the stored ones, absent fields and the id stay |
| CompanyRepository.PatchedIdempotent | backend/src/main/java/com/jobapptracker/backend/company/repository/CompanyRepository.java:280-298 | applying the same patch twice is applying it once |
| CompanyRepository.RowOf | backend/src/main/java/com/jobapptracker/backend/company/repository/CompanyRepository.java:443-451 | the first row holding the id |
| CompanyRepository.PatchRows | backend/src/main/java/com/jobapptracker/backend/company/repository/CompanyRepository.java:309-318 | the UPDATE changes every row with the id and no other |
| CompanyRepository.UpdateCompany | backend/src/main/java/com/jobapptracker/backend/company/repository/CompanyRepository.java:267-378 | an unknown id gives null; with a SET list, a patched interval below the minimum is a check violation, else a patched URL another company holds is a duplicate key, else the update succeeds; without a SET list it always succeeds; a success is the patched row, with updated_at stamped exactly when a SET list ran, tags from SetCompanyTags when names are given, and the stored tags with the links untouched when not |
| CompanyRepository.EmptyPatchChangesNothing | backend/src/main/java/com/jobapptracker/backend/company/repository/CompanyRepository.java:343-356 | a request with no field reads the company back and changes no table |
| CompanyRepository.PatchRowsIdempotent | backend/src/main/java/com/jobapptracker/backend/company/repository/CompanyRepository.java:309-318 | patching the rows twice gives the same modelled columns as patching them once |
| CompanyRepository.PatchKeepsOtherUrls | backend/src/main/java/com/jobapptracker/backend/company/repository/CompanyRepository.java:309-318 | the patch does not change which other company holds a URL |
| CompanyRepository.UpdateIdempotent | backend/src/main/java/com/jobapptracker/backend/company/repository/CompanyRepository.java:267-378 | sending the same patch without tags again leaves the modelled columns of the tables as the first one did, and stamps updated_at again when it has a SET list |
| CompanyRepository.PatchRowsValid | backend/src/main/java/com/jobapptracker/backend/company/repository/CompanyRepository.java:309-318 | a patched row that passed the checks keeps the revisit constraint and the set of ids |
| CompanyRepository.UpdateKeepsValid | backend/src/main/java/com/jobapptracker/backend/company/repository/CompanyRepository.java:267-378 | a successful update keeps every constraint of the schema |
| CompanyRepository.DeleteWhere | backend/src/main/java/com/jobapptracker/backend/company/repository/CompanyRepository.java:402-411 | the deleted count plus the remaining rows is the old row count; exactly the unselected rows remain; their links and checklist entries go with them; tags are untouched |
| CompanyRepository.DeleteCompany | backend/src/main/java/com/jobapptracker/backend/company/repository/CompanyRepository.java:399-418 | afterwards no row has the id; with unique ids the count is 1 if the company existed and 0 otherwise |
| CompanyRepository.DeletedCount | backend/src/main/java/com/jobapptracker/backend/company/repository/CompanyRepository.java:402-411 | with unique ids removing one id removes exactly one row when it is present |
| CompanyRepository.DeleteCompanies | backend/src/main/java/com/jobapptracker/backend/company/repository/CompanyRepository.java:420-441 | a missing or empty id list deletes nothing and returns 0; otherwise every listed company goes |
| CompanyRepository.BatchOfOne | backend/src/main/java/com/jobapptracker/backend/company/repository/CompanyRepository.java:420-441 | deleting a batch of one id is deleting that company |
| CompanyRepository.DeleteKeepsValid | backend/src/main/java/com/jobapptracker/backend/company/repository/CompanyRepository.java:402-411 | deleting keeps every constraint of the schema |
| CompanyService.CheckPaging | backend/src/main/java/com/jobapptracker/backend/company/service/CompanyService.java:50-65 | missing values default to page 0 and size 10; the request succeeds exactly when the page is between 0 and 1,000,000 and the size positive, a size above 200 is cut to 200, and a failure is an IllegalArgumentException |
| CompanyService.CheckedOffsetFits | backend/src/main/java/com/jobapptracker/backend/company/service/CompanyService.java:53-65 | after the paging checks the repository's offset guard can never fire |
| CompanyService.ParseTags | backend/src/main/java/com/jobapptracker/backend/company/service/CompanyService.java:78-89 | a missing or blank list gives no keys; otherwise each key once, every one a tag key |
| CompanyService.ParseTagsKeys | backend/src/main/java/com/jobapptracker/backend/company/service/CompanyService.java:83-88 | the tag filter holds exactly the keys of the non-blank comma-separated pieces |
| CompanyService.KeysOfNonBlank | backend/src/main/java/com/jobapptracker/backend/company/service/CompanyService.java:84-87 | the distinct keys of the non-blank names are exactly the keys of some non-blank name |
| CompanyService.ParseDateOrNull | backend/src/main/java/com/jobapptracker/backend/config/DateUtils.java:17-31 | a missing or blank value is no date; a value whose trimmed text does not parse is an IllegalArgumentException with the fixed message; otherwise the parsed date |
| CompanyService.ParseFilters | backend/src/main/java/com/jobapptracker/backend/company/service/CompanyService.java:67-70 | the filters succeed exactly when the due value and both dates parse, and then carry the parsed values and the tag keys |
| CompanyService.ListCompanies | backend/src/main/java/com/jobapptracker/backend/company/service/CompanyService.java:41-76 | a paging failure comes first; otherwise the response holds the checked page and size, the page of matching companies and the total count of matches |
| CompanyService.DisplayName | backend/src/main/java/com/jobapptracker/backend/company/service/CompanyService.java:98-103 | a tag shows its trimmed name unless that is missing or blank, else its trimmed key, else the empty text |
| CompanyService.Present | backend/src/main/java/com/jobapptracker/backend/company/service/CompanyService.java:97 | the tags that are not null, in order |
| CompanyService.ExtractTagDisplayNames | backend/src/main/java/com/jobapptracker/backend/company/service/CompanyService.java:91-107 | no tags give no names; the names are non-blank and each appears once |
| CompanyService.ExtractedNames | backend/src/main/java/com/jobapptracker/backend/company/service/CompanyService.java:96-106 | a name is extracted exactly when it is non-blank and is the display name of some tag sent |
| CompanyService.ExtractedAreTrimmed | backend/src/main/java/com/jobapptracker/backend/company/service/CompanyService.java:102 | every extracted name is already trimmed, so the repository's normalisation keeps it |
| CompanyService.WithTags | backend/src/main/java/com/jobapptracker/backend/company/service/CompanyService.java:120-122 | creating the named tags only adds tag rows, and no names change nothing |
| CompanyService.CreateCompany | backend/src/main/java/com/jobapptracker/backend/company/service/CompanyService.java:109-131 | a missing name or URL fails with a null dereference; otherwise the repository's insert of the trimmed values after the tags are created, with a duplicate key reported as a duplicate careers URL and any other failure passed on |
| CompanyService.CreatedCompanyHasItsTags | backend/src/main/java/com/jobapptracker/backend/company/service/CompanyService.java:118-125 | every tag a created company was sent is linked to it, because the tags are created before the links |
| CompanyService.SameUrlTwiceConflicts | backend/src/main/java/com/jobapptracker/backend/company/service/CompanyService.java:128-130 | a second company with the same careers URL is refused as a duplicate careers URL |
| CompanyService.PatchOf | backend/src/main/java/com/jobapptracker/backend/company/service/CompanyService.java:137-177 | the patch has a SET list exactly when some field was given, and carries the display names exactly when tags were sent |
| CompanyService.Patching | backend/src/main/java/com/jobapptracker/backend/company/service/CompanyService.java:164-178 | an unknown id gives no company; a repository failure is a check or duplicate-key violation |
| CompanyService.UpdateCompany | backend/src/main/java/com/jobapptracker/backend/company/service/CompanyService.java:133-197 | a blank name, then a blank URL, then a request with no field are bad requests with their messages; otherwise an unknown id is CompanyNotFoundException, the repository's duplicate key is DuplicateCareersUrlException with the trimmed URL, its other constraint violation is "Invalid update request"; the update succeeds exactly when the texts are not blank, some field is given and the repository returns a row, and then returns that row; every failure is a bad request, not found, or duplicate careers URL |
| CompanyService.UpdateFailuresAreClientErrors | backend/src/main/java/com/jobapptracker/backend/company/service/CompanyService.java:180-196 | every rejected update is answered with 400, 404 or 409, never 500 |
| CompanyService.DeleteCompany | backend/src/main/java/com/jobapptracker/backend/company/service/CompanyService.java:199-210 | a missing id is an IllegalArgumentException; with unique ids the delete fails exactly when no company has the id, as CompanyNotFoundException; afterwards no company has the id |
| CompanyService.DeleteTwiceNotFound | backend/src/main/java/com/jobapptracker/backend/company/service/CompanyService.java:205-208 | deleting the same company again is not found |
| CompanyService.DeleteCompanies | backend/src/main/java/com/jobapptracker/backend/company/service/CompanyService.java:212-218 | the repository's delete and its count, never more than the stored companies |
| ChecklistRepository.Listed | backend/src/main/java/com/jobapptracker/backend/checklist/repository/ChecklistRepository.java:46-55 | the listed companies are in name order and each belongs on the day's list |
| ChecklistRepository.GetChecklist | backend/src/main/java/com/jobapptracker/backend/checklist/repository/ChecklistRepository.java:31-68 | one item per listed company in name order, with its tags; in_checklist exactly when the day has an entry for it, completed exactly when that entry is ticked |
| ChecklistRepository.ListedExactlyOnce | backend/src/main/java/com/jobapptracker/backend/checklist/repository/ChecklistRepository.java:46-51 | with unique ids a company appears exactly once when it is due by the day or has an entry for it, and otherwise not at all |
| ChecklistRepository.ListedIff | backend/src/main/java/com/jobapptracker/backend/checklist/repository/ChecklistRepository.java:46-51 | a stored company is listed exactly when its next visit is on or before the day or the day has an entry for it |
| ChecklistRepository.CompanyExists | backend/src/main/java/com/jobapptracker/backend/checklist/repository/ChecklistRepository.java:184-188 | true exactly when some company has the id |
| ChecklistRepository.UpsertCompletion | backend/src/main/java/com/jobapptracker/backend/checklist/repository/ChecklistRepository.java:70-101 | true exactly when the company exists; then the day's entry for it holds the given flag and no other entry or table changes; otherwise nothing changes |
| ChecklistRepository.DeleteChecklistEntry | backend/src/main/java/com/jobapptracker/backend/checklist/repository/ChecklistRepository.java:190-205 | true exactly when the entry existed; afterwards it is gone and nothing else changes |
| ChecklistRepository.UpsertShowsInChecklist | backend/src/main/java/com/jobapptracker/backend/checklist/repository/ChecklistRepository.java:46-51 | a company given a completion for a day is on that day's list with that flag |
| ChecklistRepository.UpsertThenDeleteRestores | backend/src/main/java/com/jobapptracker/backend/checklist/repository/ChecklistRepository.java:70-101 | adding an entry that was not there and deleting it restores the tables |
| ChecklistRepository.ConsumeDay | backend/src/main/java/com/jobapptracker/backend/checklist/repository/ChecklistRepository.java:131-137 | exactly the day's ticked entries are removed, the others keep their flags |
| ChecklistRepository.UpdatedRows | backend/src/main/java/com/jobapptracker/backend/checklist/repository/ChecklistRepository.java:113-130 | the returned rows are in name order and each now has the day as its last visit |
| ChecklistRepository.SubmitDay | backend/src/main/java/com/jobapptracker/backend/checklist/repository/ChecklistRepository.java:103-182 | each company ticked off on the day whose last visit is missing or earlier gets the day as its last visit and every other row stays; the day's ticked entries go; tags and links are untouched; the updated companies come back in name order |
| ChecklistRepository.LastVisitNeverBackwards | backend/src/main/java/com/jobapptracker/backend/checklist/repository/ChecklistRepository.java:120 | submitting never moves a last visit backwards |
| ChecklistRepository.SubmitReturnsExactlyAdvanced | backend/src/main/java/com/jobapptracker/backend/checklist/repository/ChecklistRepository.java:113-130 | a company is returned exactly when submitting advanced its last visit |
| ChecklistRepository.SubmitDayIdempotent | backend/src/main/java/com/jobapptracker/backend/checklist/repository/ChecklistRepository.java:103-182 | submitting a day twice is submitting it once, and the second time returns no company |
| ChecklistService.GetChecklist | backend/src/main/java/com/jobapptracker/backend/checklist/service/ChecklistService.java:27-33 | a missing date means today's list |
| ChecklistService.SetCompleted | backend/src/main/java/com/jobapptracker/backend/checklist/service/ChecklistService.java:35-45 | an unknown company is CompanyNotFoundException and changes nothing; otherwise the entry holds the given flag |
| ChecklistService.SetCompletedUnknownIsNotFound | backend/src/main/java/com/jobapptracker/backend/checklist/service/ChecklistService.java:39-41 | an unknown company is answered with 404 and the fixed message "Company not found" |
| ChecklistService.SubmitDay | backend/src/main/java/com/jobapptracker/backend/checklist/service/ChecklistService.java:49-51 | the service hands back the repository's new tables and its list of advanced companies as they are |
| TodayChecklist.ToYmd | frontend/src/features/checklist/TodayChecklist.tsx:11-13 | the day's text is ten characters long, and comparing it with another real date's text by string order is comparing the days |
| TodayChecklist.GroupItems | frontend/src/features/checklist/TodayChecklist.tsx:15-25 | the loop puts into "overdue" exactly the items due before the selected day and into "today" exactly those due on it, each in list order |
| TodayChecklist.GroupMembership | frontend/src/features/checklist/TodayChecklist.tsx:19-22 | an item is in exactly the group its date says and never in both; items due later are in neither |
| TodayChecklist.GroupingFollowsCalendar | frontend/src/features/checklist/TodayChecklist.tsx:83-89 | for real dates the grouping is the calendar's: overdue means an earlier day, today means the same day, a later day is shown in neither group |
| TodayChecklist.ToggleRequest | frontend/src/features/checklist/TodayChecklist.tsx:44 | a click asks for the item's company with the opposite of its current tick |
| ChecklistCache.GetQueryData | frontend/src/features/checklist/hooks.ts:34-36 | cached data is only returned for a key the cache holds |
| ChecklistCache.SetQueryData | frontend/src/features/checklist/hooks.ts:38-59 | an updater answering undefined leaves the cache alone; otherwise only the given key changes |
| ChecklistCache.Invalidate | frontend/src/features/checklist/hooks.ts:73-77 | exactly the keys starting with the prefix become stale; data never changes |
| ChecklistCache.FindIndex | frontend/src/features/checklist/hooks.ts:45-47 | -1 exactly when no row has the company, else the first row that has it |
| ChecklistCache.SetCompleted | frontend/src/features/checklist/hooks.ts:50-54 | every row of the company takes the requested flag; the other rows stay |
| ChecklistCache.SetCompletedIdempotent | frontend/src/features/checklist/hooks.ts:50-54 | setting the same flag twice is setting it once |
| ChecklistCache.ToggleBackRestores | frontend/src/features/checklist/hooks.ts:50-54 | setting a flag and then the company's old flag back restores the list |
| ChecklistCache.OptimisticSetsFlag | frontend/src/features/checklist/hooks.ts:38-59 | the corrected updater sets the flag of every row of the company |
| ChecklistCache.AsWrittenDiffersOnlyAtFirstRow | frontend/src/features/checklist/hooks.ts:49 | the updater as written differs from the corrected one only when the company is in the first row, and then always when the flag changes |
| ChecklistCache.FirstRowNotToggled | frontend/src/features/checklist/hooks.ts:49 | a one-row list whose row is clicked: as written the cached tick does not change, the corrected updater ticks it |
| ChecklistCache.OnMutate | frontend/src/features/checklist/hooks.ts:29-62 | the snapshot is the day's cached list; without one nothing changes; only the day's entry changes: to the list with the company's flag set when the company sits past the first row, to the same list otherwise |
| ChecklistCache.OnMutateIntended | frontend/src/features/checklist/hooks.ts:29-62 | with the corrected guard, the day's entry becomes the list with every row of the company showing the requested flag; nothing else changes |
| ChecklistCache.OnError | frontend/src/features/checklist/hooks.ts:64-71 | without a snapshot nothing changes; with one the day's list is put back |
| ChecklistCache.Toggle | frontend/src/features/checklist/hooks.ts:21-79 | a toggle with the updater as written never adds or removes a cached query |
| ChecklistCache.ToggleIntended | frontend/src/features/checklist/hooks.ts:21-79 | a toggle with the corrected updater never adds or removes a cached query |
| ChecklistCache.RefusedToggleRollsBack | frontend/src/features/checklist/hooks.ts:64-77 | a refused toggle, with either updater, leaves every cached list as it was and only marks the day's queries stale |
| ChecklistCache.RolledBack | frontend/src/features/checklist/hooks.ts:64-71 | putting back the snapshot onMutate took restores the data of every cached list |
| ChecklistCache.SavedToggleKeepsFlag | frontend/src/features/checklist/hooks.ts:29-77 | a saved toggle keeps what the written updater left for the day: the flag set when the company is past the first row, the old list otherwise; the day's lists are stale and no other cached data changes |
| ChecklistCache.SavedFirstRowKeepsOldFlag | frontend/src/features/checklist/hooks.ts:45-57 | when the clicked company is the first row, a saved toggle leaves the day's cached list, and so the old tick, as it was |
| ChecklistCache.SavedIntendedToggleSetsFlag | frontend/src/features/checklist/hooks.ts:29-77 | a saved toggle with the corrected updater keeps the list with every row of the company showing the requested flag, marked stale, and changes no other cached data |
| ChecklistCache.SubmitSettled | frontend/src/features/checklist/hooks.ts:81-97 | submitting never adds or removes a cached query |
| ChecklistCache.SubmitOnlyInvalidates | frontend/src/features/checklist/hooks.ts:88-95 | submitting never changes cached data; success marks exactly the day's checklist and every company query stale, failure changes nothing |
| CalendarPanel.StartOfDay | frontend/src/features/calendar/CalendarPanel.tsx:26-27 | midnight is at or before the instant, less than a day before, and on a whole day |
| CalendarPanel.SelectNormalises | frontend/src/features/calendar/CalendarPanel.tsx:66-74 | moving a picked date to midnight twice is doing it once, and keeps its day |
| CalendarPanel.IsPastIsEarlierDay | frontend/src/features/calendar/CalendarPanel.tsx:37 | a selected day is past exactly when it is an earlier day than today |
| CalendarPanel.DayItems | frontend/src/features/calendar/CalendarPanel.tsx:39-41 | a past day shows only ticked rows, today or later only unticked ones |
| CalendarPanel.DayItemsSplitList | frontend/src/features/calendar/CalendarPanel.tsx:39-41 | a row shows exactly when it is in the day's list and its tick matches; the two views split the list between them, in order |
| CalendarPanel.Heading | frontend/src/features/calendar/CalendarPanel.tsx:43 | "Completed" exactly for a past day, "To Do" otherwise |
| CalendarPanel.FirstOfPreviousMonth | frontend/src/features/calendar/CalendarPanel.tsx:29 | the first day of the month before today's, which is earlier than today |
| CalendarPanel.RangeEnd | frontend/src/features/calendar/CalendarPanel.tsx:30-32 | the first of the month of the latest next visit, or of today's month when there is none; never after that date |
| TagMultiSelect.Normalize | frontend/src/features/companies/TagMultiSelect.tsx:13-15 | the text trimmed and lower-cased: never longer, always lower-case |
| TagMultiSelect.UniqueByKey | frontend/src/features/companies/TagMultiSelect.tsx:17-30 | no key appears twice, every tag kept is an input tag, and the output has exactly the input's keys |
| TagMultiSelect.UniqueByKeyKeepsFirst | frontend/src/features/companies/TagMultiSelect.tsx:20-27 | the first tag with each key survives |
| TagMultiSelect.UniqueByKeyOfUnique | frontend/src/features/companies/TagMultiSelect.tsx:17-30 | a list without repeated keys comes back unchanged |
| TagMultiSelect.UniqueByKeyAppend | frontend/src/features/companies/TagMultiSelect.tsx:86-87 | appending to a key-distinct list keeps the list when the key is taken and appends the tag when it is new |
| TagMultiSelect.Suggestions | frontend/src/features/companies/TagMultiSelect.tsx:60-70 | the suggestions are the first twelve of the matching tags, or all of them when fewer match |
| TagMultiSelect.MatchingMember | frontend/src/features/companies/TagMultiSelect.tsx:60-70 | a tag matches exactly when it is known, not chosen and its normalised label contains the normalised text |
| TagMultiSelect.SuggestionsSoundAndComplete | frontend/src/features/companies/TagMultiSelect.tsx:60-70 | every suggestion is a known, unchosen tag whose label contains the text; when fewer than twelve are shown, every such tag is shown |
| TagMultiSelect.AddTag | frontend/src/features/companies/TagMultiSelect.tsx:86-92 | the text is cleared and the list opened; the chosen tags gain the tag's key and no key repeats |
| TagMultiSelect.RemoveTag | frontend/src/features/companies/TagMultiSelect.tsx:94-96 | no chosen tag has the key afterwards, every other chosen tag stays, in order |
| TagMultiSelect.UnderscoreSpaces | frontend/src/features/companies/TagMultiSelect.tsx:111 | the result has no white space, is never longer, and is empty only for empty text |
| TagMultiSelect.UnderscoreSpacesOfSpaceFree | frontend/src/features/companies/TagMultiSelect.tsx:111 | text without white space is left as it is |
| TagMultiSelect.NewTag | frontend/src/features/companies/TagMultiSelect.tsx:111-112 | a created tag is labelled with the trimmed text and keyed by a non-empty, lower-case key without white space |
| TagMultiSelect.CreateFromText | frontend/src/features/companies/TagMultiSelect.tsx:98-113 | blank text gives nothing; otherwise the first known tag whose normalised label equals the normalised text, or a new tag when none does |
| TagMultiSelect.OnKeyDown | frontend/src/features/companies/TagMultiSelect.tsx:115-140 | Escape closes the list, other keys change nothing, Enter on blank text without suggestions changes nothing, and any change of the chosen tags clears the text and keeps keys distinct |
| TagMultiSelect.EnterAppendsOneNewTag | frontend/src/features/companies/TagMultiSelect.tsx:121-139 | Enter either keeps the chosen tags or appends exactly one tag with a new key |
| TagMultiSelect.AddNewTagAppends | frontend/src/features/companies/TagMultiSelect.tsx:86-87 | adding a tag with a new key appends it at the end |
| TagOptions.TrimmedOrEmpty | frontend/src/features/companies/useTagOptions.ts:13-14 | the trimmed text, empty when missing |
| TagOptions.UseTagOptions | frontend/src/features/companies/useTagOptions.ts:9-20 | no more options than tags; every option has a non-empty trimmed key and label |
| TagOptions.UseTagOptionsMember | frontend/src/features/companies/useTagOptions.ts:11-19 | an option is offered exactly when some tag trims to it with both parts non-empty, in the server's order |
| TagOptions.CompleteTagOffered | frontend/src/features/companies/useTagOptions.ts:11-19 | a tag whose key and name have text is offered with both trimmed |
| CompaniesTable.LowerAll | frontend/src/features/companies/CompaniesTable.tsx:107 | every tag is lower-cased, position by position, none added or lost |
| CompaniesTable.AnyIncludedMeansCommon | frontend/src/features/companies/CompaniesTable.tsx:128 | `some(t => rowTags.includes(t))` holds exactly when some wanted tag occurs among the row's tags |
| CompaniesTable.FilteredItemsMeaning | frontend/src/features/companies/CompaniesTable.tsx:104-133 | a row is shown exactly when it was loaded, matches the given last-visit date or the given next-visit date (either one suffices when both are set), and shares a tag with the filter ignoring case; shown rows keep the loaded order |
| CompaniesTable.KeepMeaning | frontend/src/features/companies/CompaniesTable.tsx:112-131 | the filter predicate as written (hasDate, lastMatch, nextMatch, hasTags) is the conjunction of the plain date test and the case-blind tag test |
| CompaniesTable.NoFiltersShowsAll | frontend/src/features/companies/CompaniesTable.tsx:90-94 | with the initial filters, or with dates that are empty texts and no tags, every loaded row is shown in order |
| CompaniesTable.SelectedForUpdate | frontend/src/features/companies/CompaniesTable.tsx:280 | the update dialog gets a company exactly when one row is selected, and then it is that row |
| CompaniesTable.EnterSeedName | frontend/src/features/companies/CompaniesTable.tsx:302-314 | Enter opens the add dialog exactly when the trimmed query is non-empty, nothing was loaded and nothing is loading; the seeded name is the trimmed, non-empty query |
| CompanyForm.ParseDateText | frontend/src/features/companies/UpdateCompanyDialog.tsx:43-55 | a blank or all-whitespace text is no date |
| CompanyForm.DateField | frontend/src/features/companies/UpdateCompanyDialog.tsx:157-164 | the date check fails exactly when the trimmed text is non-empty and does not parse, with the message "Use MM/DD/YYYY or pick from calendar" on that field; blank text gives no date; otherwise the parsed date of the trimmed text |
| CompanyForm.GivenDate | frontend/src/features/companies/UpdateCompanyDialog.tsx:120-122 | a stored date counts exactly when it is a non-empty text, and then unchanged |
| CompanyForm.DateRoundTrip | frontend/src/features/companies/UpdateCompanyDialog.tsx:57-60 | a stored date written into the field and read back by the date check comes back as the same date, and no date comes back as no date, whenever the writer and parser agree on it |
| CompanyForm.Pieces | frontend/src/features/companies/CompaniesFilterDialog.tsx:62-64 | one piece per comma-separated part of the text, each the trimmed part passed through the dialog's post-processing |
| CompanyForm.TagsFromText | frontend/src/features/companies/AddCompanyDialog.tsx:55-64 | no text or empty text gives no tags; every tag returned is non-empty |
| CompanyForm.TagsFromTextMember | frontend/src/features/companies/CompaniesFilterDialog.tsx:57-66 | a tag comes out exactly when it is non-empty and some comma-separated piece trims (and post-processes) to it; the tags keep the text's order |
| CompanyForm.TagsFromJoinedText | frontend/src/features/companies/CompaniesFilterDialog.tsx:91 | tags joined with ", " into the field and read back by `tagsFromText` are the same tags, when they are trimmed, non-empty and comma-free |
| CompanyForm.SplitOfJoined | frontend/src/features/companies/CompaniesFilterDialog.tsx:91 | splitting the ", "-joined text at commas gives one piece per tag, each trimming back to that tag |
| CompanyForm.JoinIsSpaced | frontend/src/features/companies/CompaniesFilterDialog.tsx:91 | joining with ", " is joining with "," the tags after the first each prefixed by a space |
| CompanyForm.SpacedAt | frontend/src/features/companies/CompaniesFilterDialog.tsx:91 | every piece after the first carries exactly one leading space, and the first piece is the first tag |
| CompanyForm.SpacedTail | frontend/src/features/companies/CompaniesFilterDialog.tsx:91 | dropping the first tag drops the first piece, and the new first piece gains its space |
| CompanyForm.NameError | frontend/src/features/companies/UpdateCompanyDialog.tsx:29 | the name passes exactly when its length is 1 to 120 |
| CompanyForm.UrlError | frontend/src/features/companies/UpdateCompanyDialog.tsx:30 | the URL passes exactly when the URL validator accepts it |
| CompanyForm.RevisitError | frontend/src/features/companies/UpdateCompanyDialog.tsx:32 | the interval passes exactly when it is an integer from 1 to the schema's maximum |
| CompanyForm.Listed | frontend/src/features/companies/UpdateCompanyDialog.tsx:28-39 | a field contributes a message exactly when it has an error |
| FilterDialog.FilterTags | frontend/src/features/companies/CompaniesFilterDialog.tsx:57-66 | the filter's tags are non-empty and lower-case |
| FilterDialog.FilterTagsLower | frontend/src/features/companies/CompaniesFilterDialog.tsx:64 | every piece the filter dialog keeps is lower-case |
| FilterDialog.Defaults | frontend/src/features/companies/CompaniesFilterDialog.tsx:83-94 | the form opens with the current tags joined by ", ", and with empty date fields where no date is set |
| FilterDialog.Submit | frontend/src/features/companies/CompaniesFilterDialog.tsx:110-135 | Apply is refused exactly when a date field holds text that does not parse, with the date message on the first such field (last visit before next visit); otherwise the filters carry a date exactly where the field is non-blank, and the lower-cased tags |
| FilterDialog.ReapplyKeepsFilters | frontend/src/features/companies/CompaniesFilterDialog.tsx:83-135 | opening the dialog and applying it untouched gives back the filters it was opened with (empty date texts become no date) |
| AddCompanyDialog.Defaults | frontend/src/features/companies/AddCompanyDialog.tsx:79-88 | the form opens with the seeded name, an interval of 7 that passes the schema, no tags and an empty date that no date parser rejects |
| AddCompanyDialog.CreateTags | frontend/src/features/companies/AddCompanyDialog.tsx:55-64 | the create request's tags are non-empty and trimmed, case kept |
| AddCompanyDialog.CreateTagsTrimmed | frontend/src/features/companies/AddCompanyDialog.tsx:62-65 | every piece the add dialog keeps is trimmed |
| AddCompanyDialog.SchemaErrors | frontend/src/features/companies/AddCompanyDialog.tsx:26-32 | the schema passes exactly when the name has 1 to 120 characters, the URL is valid and the interval is an integer from 1 to the bound |
| AddCompanyDialog.SubmitWith | frontend/src/features/companies/AddCompanyDialog.tsx:114-134 | the create call is made exactly when the schema passes and the date is blank or parses; it carries the trimmed name and URL, a date exactly when one was typed, the integer interval and the text's tags; otherwise at least one error is shown |
| AddCompanyDialog.SubmitAsWritten | frontend/src/features/companies/AddCompanyDialog.tsx:30 | as written, a created company never has an interval above 10 |
| AddCompanyDialog.Submit | frontend/src/features/companies/AddCompanyDialog.tsx:254-269 | a created company has an interval from 1 to 20, the range the input and its hint allow |
| AddCompanyDialog.AdvertisedIntervalRefused | frontend/src/features/companies/AddCompanyDialog.tsx:30 | on an otherwise valid form the as-written and described dialogs disagree exactly on intervals 11 to 20, where the as-written one refuses with "Max 20" |
| AddCompanyDialog.FifteenDaysRefused | frontend/src/features/companies/AddCompanyDialog.tsx:30 | a 15-day interval is refused as written and sent by the described dialog |
| UpdateCompanyDialog.DialogOption | frontend/src/features/companies/UpdateCompanyDialog.tsx:80-100 | an option's key and label are trimmed texts |
| UpdateCompanyDialog.DialogOptionsOf | frontend/src/features/companies/UpdateCompanyDialog.tsx:79-100 | one option per tag, in order |
| UpdateCompanyDialog.DialogOptions | frontend/src/features/companies/UpdateCompanyDialog.tsx:77-104 | the kept options are complete (non-empty key and label) and no more than the tags |
| UpdateCompanyDialog.NamedTagsAgree | frontend/src/features/companies/UpdateCompanyDialog.tsx:77-104 | for server tags that all have a name, this dialog's options are exactly those of the shared tag-options hook |
| UpdateCompanyDialog.NamelessTagLabelledByKey | frontend/src/features/companies/UpdateCompanyDialog.tsx:94-97 | a tag without a name is labelled by its key here, where the shared hook drops it |
| UpdateCompanyDialog.Preselect | frontend/src/features/companies/UpdateCompanyDialog.tsx:114 | a saved key shows as the option with that key when there is one, else as a chip labelled by the key itself |
| UpdateCompanyDialog.SelectedTags | frontend/src/features/companies/UpdateCompanyDialog.tsx:107-115 | the preselected chips' keys are the company's non-empty tag keys, in order; each chip is an option or labelled by its key |
| UpdateCompanyDialog.SelectedTagsComplete | frontend/src/features/companies/UpdateCompanyDialog.tsx:107-115 | when the options are complete, so are the preselected chips |
| UpdateCompanyDialog.Defaults | frontend/src/features/companies/UpdateCompanyDialog.tsx:106-126 | without a company the form is empty with an interval of 7; with one, the chips' keys are its non-empty tag keys |
| UpdateCompanyDialog.TagsError | frontend/src/features/companies/UpdateCompanyDialog.tsx:33-38 | the chips pass exactly when every chip has a non-empty key and label |
| UpdateCompanyDialog.SchemaErrors | frontend/src/features/companies/UpdateCompanyDialog.tsx:28-39 | the schema passes exactly when name, URL, the interval 1 to 20 and every chip pass |
| UpdateCompanyDialog.Submit | frontend/src/features/companies/UpdateCompanyDialog.tsx:152-178 | nothing is sent without a company; the update is sent exactly when the schema passes, a company is selected and the date is blank or parses; it targets that company with the trimmed name and URL, the integer interval 1 to 20, a date exactly when one was typed, and the chips' keys in order |
| UpdateCompanyDialog.SaveUntouchedKeepsCompany | frontend/src/features/companies/UpdateCompanyDialog.tsx:106-178 | opening the dialog on a valid company and saving untouched sends the company back unchanged: name, URL, date, interval and its non-empty tag keys in order |
| UpdateCompanyDialog.DefaultsPassSchema | frontend/src/features/companies/UpdateCompanyDialog.tsx:106-126 | the form opened on a valid company passes the schema |
| CompaniesApi.Unwrap | frontend/src/features/companies/api.ts:37-39 | the body is the `data` field of an object that has one, else the response itself |
| CompaniesApi.QueryParams | frontend/src/features/companies/api.ts:46-53 | page and size always come first, defaulting to 0 and 50; `q` is added exactly when the search text trims to something non-empty, and then it is the trimmed text |
| CompaniesApi.ToNumber | frontend/src/features/companies/api.ts:72-74 | a number field reads as that number |
| CompaniesApi.NumberOr | frontend/src/features/companies/api.ts:72-74 | a missing field reads as the fallback, a number field as itself |
| CompaniesApi.ReadPage | frontend/src/features/companies/api.ts:60-92 | reading the body fails exactly when it is neither a list nor an object |
| CompaniesApi.GetCompanies | frontend/src/features/companies/api.ts:41-93 | the call fails exactly when the unwrapped body is neither a list nor an object |
| CompaniesApi.ListBody | frontend/src/features/companies/api.ts:60-67 | a bare list, wrapped in `data` or not, is the page with its length as total and the request's page and size |
| CompaniesApi.ItemsBody | frontend/src/features/companies/api.ts:69-76 | an `items` object gives those items; missing page, size and total come from the request and the list's length, given numbers are kept |
| CompaniesApi.ContentBody | frontend/src/features/companies/api.ts:78-85 | a Spring page gives its `content`, with `number` as page and `totalElements` as total and the same fallbacks |
| CompaniesApi.ShapePrecedence | frontend/src/features/companies/api.ts:69-92 | an `items` list wins over `content`; an object with neither is an empty page with total 0 |

## Left out

- I/O, HTTP routing, JDBC statement binding, row mapping, logging and transactions. Each statement is one atomic table transition, and a service call that runs several statements is their composition.
- The checklist auto-submit scheduler and the catch-up on start-up. They depend on cron and the wall clock, and only call `submitDay`.
- The clock: the SQL `CURRENT_DATE` and the client's `new Date()` are the `today` parameter. Time zones and daylight saving are not modelled.
- Date parsing and formatting (date-fns `parse`/`format`/`isValid`, `LocalDate.parse`) are uninterpreted parameters. The only rule fixed in the model is the code's own "blank means no date".
- URL validation (zod's `url()`) is a parameter. So are the database's generated company id (`freshId`) and React's concurrent rendering.
- `next_visit_on` belongs to a database schema that is not part of this model. It is kept as a field and derived as last visit plus interval, which is an assumption.
- The database check `revisit_after_days >= 1` is assumed from the schema that is not shown (`Database.MinRevisitAfterDays`).
- Unicode: lower-casing is ASCII only, the NFKD step of `toTagKey` keeps non-ASCII text as it is, and zod and JavaScript lengths are counted in characters rather than UTF-16 units. The database collation is code-point order.
- `CompanyRow.tags` is read in two ways by the client. The table lower-cases its entries as strings, while the update dialog reads `tag.tagKey` of each. The model keeps them as the tag keys (strings) in both places.
- UpdateCompanyDialog.Submit: sends the tags as key strings, as frontend/src/features/companies/UpdateCompanyDialog.tsx:173 does. The backend's update request declares tag objects, and that mismatch is not modelled.
- CompanyService.CreateCompany: takes the request's tags as tag objects, as `extractTagDisplayNames(List<TagDto>)` (backend/src/main/java/com/jobapptracker/backend/company/service/CompanyService.java:91) reads them. The request record declares `List<String> tags` (backend/src/main/java/com/jobapptracker/backend/company/dto/CompanyCreateRequest.java:16), so the call at CompanyService.java:118 does not type-check as written; the model follows the method that reads the tags.
- CompanyRepository.UpdateCompany: `updated_at = now()` is the `touched` flag of the result, not a time. The values of `created_at` and `updated_at` are not modelled, since they come from the clock.
- CompanyRepository.UpdateIdempotent: the tables agree on every modelled column after the second call. Its new `updated_at` value is not compared, only that it is stamped again.
- CompanyRepository.PatchRowsIdempotent: speaks of the modelled columns of the rows only; `updated_at` is outside the row model.
- The schemas check the name as typed, before trimming, as the code does. A name of only spaces therefore passes the client's schema and is sent as the empty text.
- JSON numbers are integers. `Number()` of a string or an array is treated as not a number (`None`), so numeric strings are not parsed.
- Query-string encoding (`URLSearchParams.toString`) is left out. `CompaniesApi.QueryParams` gives the parameter pairs.
- The query cache models only the checklist lists (and the companies key as a prefix). Cancellation, refetching and in-flight races are left out: mutations run one after another.
- The dialogs' `mutateAsync` failures and the closing of a dialog are left out. The model ends at the request a dialog sends.
- TagMultiSelect.UniqueByKey: states distinct keys, first-occurrence wins and membership, but does not restate relative order beyond what the lemmas about it give.
- Rendering, styling and the other components (columns, checkboxes, the delete dialog, the date picker) are left out.
- The company, checklist and tag controllers, TagService, the health and meta endpoints and the configuration loading are left out.

## Findings

| source | as written | input that shows it | evidently intended | confidence | as-written member | corrected member |
|---|---|---|---|---|---|---|
| frontend/src/features/checklist/hooks.ts:49 | the optimistic update rewrites the cached list only when `idx > 0` | a checklist whose first row (index 0) is the company clicked, e.g. a one-row list: the tick does not change until the refetch | `idx >= 0`: rewrite whenever the company is in the list | high; not executed | ChecklistCache.FirstRowNotToggled | ChecklistCache.OptimisticSetsFlag |
| frontend/src/features/companies/AddCompanyDialog.tsx:30 | the schema allows `revisitAfterDays` only up to 10, with the message "Max 20" | interval 15 on an otherwise valid form: refused with "Max 20", though the input's `max={20}` and the hint "Allowed: 1 to 20" allow it | `max(20, "Max 20")`, as in the update dialog | high; not executed | AddCompanyDialog.AdvertisedIntervalRefused | AddCompanyDialog.Submit |
