/** The client's query cache around the checklist: the optimistic toggle
    of one item (update the cached list at once, roll back if the server
    refuses, mark the list stale either way) and the submit that marks
    the checklist and the company list stale. The cache is a map from
    query keys to entries; only checklist lists are ever read or written
    here, other queries are only marked stale. */
module ChecklistCache {
  import opened Wrappers
  import opened ChecklistTypes
  import opened TodayChecklist

  /** A query key: `["checklist", "date", d]` and the like. */
  type QueryKey = seq<string>

  function ChecklistAll(): QueryKey { ["checklist"] }
  function ByDate(date: string): QueryKey { ["checklist", "date", date] }
  function CompaniesAll(): QueryKey { ["companies"] }

  /** One cached query: its data, if any, and whether it is stale. */
  datatype Entry = Entry(data: Option<seq<ChecklistItem>>, invalidated: bool)

  type Cache = map<QueryKey, Entry>

  /** `getQueryData`: the cached data, `undefined` for an unknown key. */
  function GetQueryData(c: Cache, k: QueryKey): (r: Option<seq<ChecklistItem>>)
    ensures r.Some? ==> k in c && r == c[k].data
  {
    if k in c then c[k].data else None
  }

  /** `setQueryData` with an updater: an updater answering `undefined`
      leaves the cache alone; otherwise the entry gets the new data and is
      fresh again. */
  function SetQueryData(c: Cache, k: QueryKey, u: Option<seq<ChecklistItem>> -> Option<seq<ChecklistItem>>): (r: Cache)
    ensures u(GetQueryData(c, k)).None? ==> r == c
    ensures u(GetQueryData(c, k)).Some? ==>
      k in r && r[k] == Entry(u(GetQueryData(c, k)), false)
    ensures r.Keys == c.Keys + (if u(GetQueryData(c, k)).Some? then {k} else {})
    ensures forall k' | k' in c && k' != k :: k' in r && r[k'] == c[k']
  {
    var v := u(GetQueryData(c, k));
    if v.None? then c else c[k := Entry(v, false)]
  }

  /** `invalidateQueries({queryKey: prefix})`: every query whose key starts
      with `prefix` is marked stale. */
  function Invalidate(c: Cache, prefix: QueryKey): (r: Cache)
    ensures r.Keys == c.Keys
    ensures forall k | k in c :: r[k].data == c[k].data
    ensures forall k | k in c :: r[k].invalidated == (c[k].invalidated || prefix <= k)
  {
    map k | k in c :: if prefix <= k then c[k].(invalidated := true) else c[k]
  }

  // ---------------------------------------------------------------------
  // The optimistic update
  // ---------------------------------------------------------------------

  /** `findIndex`: the first position holding the company, or -1. */
  function FindIndex(items: seq<ChecklistItem>, id: string): (r: int)
    ensures -1 <= r < |items|
    ensures r == -1 <==> forall i | 0 <= i < |items| :: items[i].companyId != id
    ensures r >= 0 ==> items[r].companyId == id && forall i | 0 <= i < r :: items[i].companyId != id
  {
    if items == [] then -1
    else if items[0].companyId == id then 0
    else
      var j := FindIndex(items[1..], id);
      if j == -1 then -1 else j + 1
  }

  /** Every row of the company takes the requested flag; the others stay. */
  function SetCompleted(items: seq<ChecklistItem>, vars: ToggleVars): (r: seq<ChecklistItem>)
    ensures |r| == |items|
    ensures forall i | 0 <= i < |items| ::
      r[i] == if items[i].companyId == vars.companyId then items[i].(completed := vars.completed) else items[i]
  {
    seq(|items|, i requires 0 <= i < |items| =>
      if items[i].companyId == vars.companyId then items[i].(completed := vars.completed) else items[i])
  }

  /** Setting the same flag twice is setting it once. */
  lemma SetCompletedIdempotent(items: seq<ChecklistItem>, vars: ToggleVars)
    ensures SetCompleted(SetCompleted(items, vars), vars) == SetCompleted(items, vars)
  {
  }

  /** Toggling back restores the list: when every row of the company had
      the flag `b`, setting another flag and then `b` again gives back the
      original rows. */
  lemma ToggleBackRestores(items: seq<ChecklistItem>, id: string, flag: bool, b: bool)
    requires forall i | 0 <= i < |items| && items[i].companyId == id :: items[i].completed == b
    ensures SetCompleted(SetCompleted(items, ToggleVars(id, flag)), ToggleVars(id, b)) == items
  {
    var r := SetCompleted(SetCompleted(items, ToggleVars(id, flag)), ToggleVars(id, b));
    forall i | 0 <= i < |items|
      ensures r[i] == items[i]
    {
    }
  }

  /** The optimistic updater as written: it only rewrites the list when
      the company is found at a position greater than zero. */
  function OptimisticAsWritten(vars: ToggleVars): Option<seq<ChecklistItem>> -> Option<seq<ChecklistItem>> {
    (cached: Option<seq<ChecklistItem>>) =>
      if cached.None? then cached
      else if FindIndex(cached.value, vars.companyId) > 0 then Some(SetCompleted(cached.value, vars))
      else cached
  }

  /** The optimistic updater as evidently intended: rewrite the list
      whenever the company is in it. */
  function Optimistic(vars: ToggleVars): Option<seq<ChecklistItem>> -> Option<seq<ChecklistItem>> {
    (cached: Option<seq<ChecklistItem>>) =>
      if cached.None? then cached
      else if FindIndex(cached.value, vars.companyId) >= 0 then Some(SetCompleted(cached.value, vars))
      else cached
  }

  /** Rewriting or not makes no difference when the company is absent, so
      the intended updater always answers `SetCompleted` of the list. */
  lemma OptimisticSetsFlag(items: seq<ChecklistItem>, vars: ToggleVars)
    ensures Optimistic(vars)(Some(items)) == Some(SetCompleted(items, vars))
    ensures forall i | 0 <= i < |items| && items[i].companyId == vars.companyId ::
      Optimistic(vars)(Some(items)).value[i].completed == vars.completed
  {
    if FindIndex(items, vars.companyId) == -1 {
      assert SetCompleted(items, vars) == items;
    }
  }

  /** The two updaters agree except when the company is the first row,
      and they do disagree when that row shows the other flag. */
  lemma AsWrittenDiffersOnlyAtFirstRow(cached: Option<seq<ChecklistItem>>, vars: ToggleVars)
    ensures OptimisticAsWritten(vars)(cached) != Optimistic(vars)(cached) ==>
      cached.Some? && cached.value != [] && cached.value[0].companyId == vars.companyId
    ensures (cached.Some? && cached.value != [] && cached.value[0].companyId == vars.companyId &&
             cached.value[0].completed != vars.completed) ==>
      OptimisticAsWritten(vars)(cached) != Optimistic(vars)(cached)
  {
    if cached.Some? && cached.value != [] && cached.value[0].companyId == vars.companyId {
      assert SetCompleted(cached.value, vars)[0].completed == vars.completed;
    }
  }

  /** A one-row list whose row is ticked: the written updater leaves the
      box unticked until the list is fetched again. */
  lemma FirstRowNotToggled()
    ensures var it := ChecklistItem("c1", "Acme", "https://acme.example/jobs", None, 7, None,
                                    "2025-01-10", "", "", false);
            var vars := ToggleRequest(it);
            OptimisticAsWritten(vars)(Some([it])) == Some([it]) &&
            Optimistic(vars)(Some([it])) == Some([it.(completed := true)])
  {
    var it := ChecklistItem("c1", "Acme", "https://acme.example/jobs", None, 7, None,
                            "2025-01-10", "", "", false);
    assert FindIndex([it], it.companyId) == 0;
    assert SetCompleted([it], ToggleRequest(it)) == [it.(completed := true)];
  }

  /** `onMutate`: snapshot the list of the day, then apply an updater. */
  datatype Mutated = Mutated(cache: Cache, previousData: Option<seq<ChecklistItem>>)

  function OnMutateWith(c: Cache, date: string, u: Option<seq<ChecklistItem>> -> Option<seq<ChecklistItem>>): (r: Mutated)
    ensures r.previousData == GetQueryData(c, ByDate(date))
  {
    Mutated(SetQueryData(c, ByDate(date), u), GetQueryData(c, ByDate(date)))
  }

  /** `onMutate` with the updater as written: the day's list is rewritten
      only when the company sits past its first row; a company in the
      first row keeps its old flag, though the entry is set again. */
  function OnMutate(c: Cache, date: string, vars: ToggleVars): (r: Mutated)
    ensures r.previousData == GetQueryData(c, ByDate(date))
    ensures r.previousData.None? ==> r.cache == c
    ensures r.cache.Keys == c.Keys
    ensures forall k | k in c && k != ByDate(date) :: r.cache[k] == c[k]
    ensures r.previousData.Some? ==>
      var prev := r.previousData.value;
      r.cache[ByDate(date)] ==
        Entry(Some(if FindIndex(prev, vars.companyId) > 0 then SetCompleted(prev, vars) else prev), false)
  {
    OnMutateWith(c, date, OptimisticAsWritten(vars))
  }

  /** `onMutate` with the intended updater: every row of the company in
      the day's list shows the requested flag. */
  function OnMutateIntended(c: Cache, date: string, vars: ToggleVars): (r: Mutated)
    ensures r.previousData == GetQueryData(c, ByDate(date))
    ensures r.previousData.None? ==> r.cache == c
    ensures r.cache.Keys == c.Keys
    ensures forall k | k in c && k != ByDate(date) :: r.cache[k] == c[k]
    ensures r.previousData.Some? ==>
      r.cache[ByDate(date)] == Entry(Some(SetCompleted(r.previousData.value, vars)), false)
  {
    var prev := GetQueryData(c, ByDate(date));
    if prev.Some? then OptimisticSetsFlag(prev.value, vars); OnMutateWith(c, date, Optimistic(vars))
    else OnMutateWith(c, date, Optimistic(vars))
  }

  /** `onError`: put the snapshot back, when there was one. */
  function OnError(c: Cache, date: string, previousData: Option<seq<ChecklistItem>>): (r: Cache)
    ensures previousData.None? ==> r == c
    ensures previousData.Some? ==>
      r == c[ByDate(date) := Entry(previousData, false)]
  {
    if previousData.Some? then c[ByDate(date) := Entry(previousData, false)] else c
  }

  /** `onSettled`: the list of the day is stale, whatever happened. */
  function OnSettled(c: Cache, date: string): Cache {
    Invalidate(c, ByDate(date))
  }

  /** The server's answer to the toggle request. */
  datatype Outcome = Saved | Refused

  /** After `onMutate`: roll back on a refusal, then settle. */
  function Settle(m: Mutated, date: string, outcome: Outcome): Cache {
    var settled := if outcome == Saved then m.cache else OnError(m.cache, date, m.previousData);
    OnSettled(settled, date)
  }

  /** One toggle, from click to settle, with the updater as written. */
  function Toggle(c: Cache, date: string, vars: ToggleVars, outcome: Outcome): (r: Cache)
    ensures r.Keys == c.Keys
  {
    Settle(OnMutate(c, date, vars), date, outcome)
  }

  /** One toggle with the intended updater. */
  function ToggleIntended(c: Cache, date: string, vars: ToggleVars, outcome: Outcome): (r: Cache)
    ensures r.Keys == c.Keys
  {
    Settle(OnMutateIntended(c, date, vars), date, outcome)
  }

  /** A refused toggle, with either updater, leaves every cached list as it
      was, and only marks the lists of that day stale. */
  lemma RefusedToggleRollsBack(c: Cache, date: string, vars: ToggleVars)
    ensures Toggle(c, date, vars, Refused).Keys == c.Keys
    ensures forall k | k in c :: Toggle(c, date, vars, Refused)[k].data == c[k].data
    ensures forall k | k in c ::
      Toggle(c, date, vars, Refused)[k].invalidated == (c[k].invalidated || ByDate(date) <= k)
    ensures forall k | k in c :: ToggleIntended(c, date, vars, Refused)[k].data == c[k].data
    ensures forall k | k in c ::
      ToggleIntended(c, date, vars, Refused)[k].invalidated == (c[k].invalidated || ByDate(date) <= k)
  {
    RolledBack(c, date, OnMutate(c, date, vars));
    RolledBack(c, date, OnMutateIntended(c, date, vars));
  }

  /** Rolling back a snapshot taken by `onMutate` restores every list. */
  lemma RolledBack(c: Cache, date: string, m: Mutated)
    requires m.previousData == GetQueryData(c, ByDate(date))
    requires m.previousData.None? ==> m.cache == c
    requires m.cache.Keys == c.Keys
    requires forall k | k in c && k != ByDate(date) :: m.cache[k] == c[k]
    ensures var e := OnError(m.cache, date, m.previousData);
      e.Keys == c.Keys &&
      forall k | k in c :: e[k].data == c[k].data && (k != ByDate(date) ==> e[k].invalidated == c[k].invalidated)
  {
    var e := OnError(m.cache, date, m.previousData);
    if m.previousData.Some? {
      assert e.Keys == c.Keys;
      forall k | k in c
        ensures e[k].data == c[k].data && (k != ByDate(date) ==> e[k].invalidated == c[k].invalidated)
      {
        if k == ByDate(date) {
          assert c[k].data == m.previousData;
        }
      }
    }
  }

  /** A saved toggle keeps what the written updater left: the flag is set
      in the day's list when the company is past its first row, the list
      is unchanged otherwise, nothing else in the cache changes its data,
      and the day's lists are stale. */
  lemma SavedToggleKeepsFlag(c: Cache, date: string, vars: ToggleVars)
    ensures forall k | k in c && k != ByDate(date) :: Toggle(c, date, vars, Saved)[k].data == c[k].data
    ensures ByDate(date) in c && c[ByDate(date)].data.Some? ==>
      var items := c[ByDate(date)].data.value;
      Toggle(c, date, vars, Saved)[ByDate(date)] ==
        Entry(Some(if FindIndex(items, vars.companyId) > 0 then SetCompleted(items, vars) else items), true)
    ensures ByDate(date) in c && c[ByDate(date)].data.None? ==>
      Toggle(c, date, vars, Saved)[ByDate(date)] == c[ByDate(date)].(invalidated := true)
    ensures forall k | k in c && ByDate(date) <= k :: Toggle(c, date, vars, Saved)[k].invalidated
  {
  }

  /** The consequence of the written guard: when the company is the first
      row of the day's list, a saved toggle leaves that list as it was, so
      the box shows the old flag until the list is fetched again. */
  lemma SavedFirstRowKeepsOldFlag(c: Cache, date: string, vars: ToggleVars)
    requires ByDate(date) in c && c[ByDate(date)].data.Some?
    requires c[ByDate(date)].data.value != [] && c[ByDate(date)].data.value[0].companyId == vars.companyId
    ensures Toggle(c, date, vars, Saved)[ByDate(date)].data == c[ByDate(date)].data
  {
    assert FindIndex(c[ByDate(date)].data.value, vars.companyId) == 0;
  }

  /** A saved toggle with the intended updater: every row of the company
      shows the requested flag, nothing else in the cache changes its
      data, and the day's lists are stale. */
  lemma SavedIntendedToggleSetsFlag(c: Cache, date: string, vars: ToggleVars)
    ensures forall k | k in c && k != ByDate(date) :: ToggleIntended(c, date, vars, Saved)[k].data == c[k].data
    ensures ByDate(date) in c && c[ByDate(date)].data.Some? ==>
      ToggleIntended(c, date, vars, Saved)[ByDate(date)] ==
        Entry(Some(SetCompleted(c[ByDate(date)].data.value, vars)), true)
    ensures ByDate(date) in c && c[ByDate(date)].data.None? ==>
      ToggleIntended(c, date, vars, Saved)[ByDate(date)] == c[ByDate(date)].(invalidated := true)
    ensures forall k | k in c && ByDate(date) <= k :: ToggleIntended(c, date, vars, Saved)[k].invalidated
  {
  }

  /** `useSubmitChecklist`: on success the day's lists and every company
      query are stale; on failure nothing happens. */
  function SubmitSettled(c: Cache, date: string, outcome: Outcome): (r: Cache)
    ensures r.Keys == c.Keys
  {
    if outcome == Saved then Invalidate(Invalidate(c, ByDate(date)), CompaniesAll()) else c
  }

  /** Submitting never changes cached data; success marks exactly the
      day's lists and the company queries stale, failure nothing. */
  lemma SubmitOnlyInvalidates(c: Cache, date: string, outcome: Outcome)
    ensures forall k | k in c :: SubmitSettled(c, date, outcome)[k].data == c[k].data
    ensures outcome == Refused ==> SubmitSettled(c, date, outcome) == c
    ensures outcome == Saved ==> forall k | k in c ::
      SubmitSettled(c, date, outcome)[k].invalidated ==
        (c[k].invalidated || ByDate(date) <= k || CompaniesAll() <= k)
  {
  }
}
