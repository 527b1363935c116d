/** `ChecklistService`: the checklist operations as the web layer calls
    them. */
module ChecklistService {
  import opened Wrappers
  import opened Errors
  import opened Database
  import Repo = ChecklistRepository

  /** `getChecklist`: a missing date means today (the clock is the `today`
      parameter). */
  function GetChecklist(db: Db, date: Option<Day>, today: Day): (r: seq<Repo.ChecklistItem>)
    ensures date.None? ==> r == Repo.GetChecklist(db, today)
    ensures date.Some? ==> r == Repo.GetChecklist(db, date.value)
  {
    Repo.GetChecklist(db, date.GetOr(today))
  }

  /** `setCompleted`: an unknown company is a `CompanyNotFoundException`
      and nothing is written; otherwise the day's entry gets the requested
      flag. */
  function SetCompleted(db: Db, d: Day, id: CompanyId, completed: bool): (r: Result<Db, Failure>)
    ensures r.Failure? <==> !Repo.CompanyExists(db, id)
    ensures r.Failure? ==> r.error == CompanyNotFound(NotFoundMessage)
    ensures r.Success? ==> r.value == Repo.UpsertCompletion(db, d, id, completed).0
    ensures r.Success? ==> (d, id) in r.value.checklist && r.value.checklist[(d, id)] == completed
  {
    if !Repo.CompanyExists(db, id) then Failure(CompanyNotFound(NotFoundMessage))
    else Success(Repo.UpsertCompletion(db, d, id, completed).0)
  }

  /** An unknown company is reported as 404 with the fixed message. */
  lemma SetCompletedUnknownIsNotFound(db: Db, d: Day, id: CompanyId, completed: bool)
    requires !Repo.CompanyExists(db, id)
    ensures Handle(SetCompleted(db, d, id, completed).error) == ErrorResponse(404, "Not Found", "Company not found")
  {
  }

  /** `submitDay`: the repository's result, unchanged. */
  function SubmitDay(db: Db, d: Day): (r: Repo.Submitted)
    ensures r == Repo.SubmitDay(db, d)
  {
    Repo.SubmitDay(db, d)
  }
}
