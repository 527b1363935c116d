/** The checklist row as the web client receives it: dates are the
    `yyyy-MM-dd` texts of the JSON body, ids are strings. */
module ChecklistTypes {
  import opened Wrappers

  /** A tag as the client receives it. */
  datatype TagRef = TagRef(tagKey: string, tagName: string)

  /** One company on the day's checklist. */
  datatype ChecklistItem = ChecklistItem(
    companyId: string,
    companyName: string,
    careersUrl: string,
    lastVisitedOn: Option<string>,
    revisitAfterDays: int,
    tags: Option<seq<TagRef>>,
    nextVisitOn: string,
    createdAt: string,
    updatedAt: string,
    completed: bool)
}
