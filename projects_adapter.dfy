/** The store side of the projects port (lib/clients/supabase/projects-adapter.ts):
    the rows it builds and the table operations and database functions it
    calls. `toProject` is the identity here, since the model's store holds
    `Project` values. */
module ProjectsAdapter {
  import opened Wrappers
  import opened Text
  import opened Errors
  import opened Domain
  import opened Ports
  import opened Payloads
  import opened Sorting
  import opened Database

  /** The cause `.single()` reports when an update matched no row. */
  const NO_SINGLE_ROW: string := "Cannot coerce the result to a single JSON object"

  /** The adapter's `buildSnapshotPayload`: trims and normalises, without
      checking the summary (the use case has already done so). */
  function StoreSnapshotPayload(input: SnapshotInput): (p: SnapshotPayload)
    ensures p.summary == Trim(input.summary) && IsTrimmed(p.summary)
    ensures IsNormalizedValue(p.snapshotLabel) && IsNormalizedValue(p.leftOut) && IsNormalizedValue(p.futureNote)
  {
    TrimFacts(input.summary);
    SnapshotPayload(
      Trim(input.summary),
      NormalizeSnapshotValue(input.snapshotLabel),
      NormalizeSnapshotValue(input.leftOut),
      NormalizeSnapshotValue(input.futureNote))
  }

  /** Whenever the use case's builder accepts a snapshot, the adapter's
      builder produces the same payload. */
  lemma StoreSnapshotPayloadAgrees(input: SnapshotInput)
    requires BuildSnapshotPayload(input).Ok?
    ensures StoreSnapshotPayload(input) == BuildSnapshotPayload(input).value
  {
  }

  /** The payload the use case hands over passes through the adapter's
      builder unchanged: normalising it a second time is a no-op. */
  lemma StoreSnapshotPayloadFixesNormalized(p: SnapshotPayload)
    requires IsNormalizedSnapshot(p)
    ensures StoreSnapshotPayload(AsInput(p)) == p
  {
    TrimOfTrimmed(p.summary);
    NormalizeSnapshotValueFixesNormalized(p.snapshotLabel);
    NormalizeSnapshotValueFixesNormalized(p.leftOut);
    NormalizeSnapshotValueFixesNormalized(p.futureNote);
  }

  /** `input.status ?? DEFAULT_STATUS`. */
  function InsertStatus(input: NewProjectInput<Status>): (s: Status)
    ensures input.status.Defined? ==> s == input.status.value
    ensures input.status.Undefined? ==> s == Active
  {
    match input.status
    case Undefined => DEFAULT_STATUS
    case Defined(s) => s
  }

  /** `buildProjectInsert`, with the row id the table's default gives and
      the current time. */
  function BuildProjectInsert(input: NewProjectInput<Status>, id: Id, now: Timestamp): (row: Project)
    ensures row.id == id && row.status == InsertStatus(input)
    ensures row.startDate.Some? <==> row.status == Active
    ensures row.startDate.Some? ==> row.startDate.value == now
    ensures row.finishDate.None? && row.lastReviewedAt.None?
    ensures row.name == Trim(input.name) && row.nextAction == Trim(input.nextAction)
    ensures row.narrativeLink == OrNull(input.narrativeLink) && row.whyNow == OrNull(input.whyNow)
            && row.finishDefinition == OrNull(input.finishDefinition)
  {
    var status := InsertStatus(input);
    Project(
      id,
      Trim(input.name),
      OrNull(input.narrativeLink),
      OrNull(input.whyNow),
      OrNull(input.finishDefinition),
      status,
      Trim(input.nextAction),
      if status == Active then Some(now) else None,
      None,
      None)
  }

  /** A new project built from accepted input keeps the trimmed name and
      next action the use case produced. */
  lemma InsertKeepsNormalizedText(raw: NewProjectInput<string>, id: Id, now: Timestamp)
    requires NormalizeProjectInput(raw).Ok?
    ensures BuildProjectInsert(NormalizeProjectInput(raw).value, id, now).name == Trim(raw.name)
    ensures BuildProjectInsert(NormalizeProjectInput(raw).value, id, now).nextAction == Trim(raw.nextAction)
  {
    TrimIdempotent(raw.name);
    TrimIdempotent(raw.nextAction);
  }

  /** A new project built from accepted input has the status it asked for,
      active by default, and a start date exactly when that is active. */
  lemma InsertKeepsRequestedStatus(raw: NewProjectInput<string>, id: Id, now: Timestamp)
    requires NormalizeProjectInput(raw).Ok?
    ensures StatusName(BuildProjectInsert(NormalizeProjectInput(raw).value, id, now).status) == RequestedStatus(raw)
    ensures BuildProjectInsert(NormalizeProjectInput(raw).value, id, now).startDate.Some?
            <==> RequestedStatus(raw) == "active"
  {
  }

  /** The name and next action of an update carry nothing to trim. */
  predicate TextsTrimmed<S>(u: UpdateProjectInput<S>) {
    (u.name.Defined? ==> IsTrimmed(u.name.value))
    && (u.nextAction.Defined? ==> IsTrimmed(u.nextAction.value))
  }

  /** `u` sets exactly the fields `input` sets: text trimmed, every other
      value as given. */
  predicate IsUpdateRowOf(u: UpdateProjectInput<Status>, input: UpdateProjectInput<Status>) {
    && (input.name.Undefined? ==> u.name.Undefined?)
    && (input.name.Defined? ==> u.name == Defined(Trim(input.name.value)))
    && u.narrativeLink == input.narrativeLink
    && u.whyNow == input.whyNow
    && u.finishDefinition == input.finishDefinition
    && u.status == input.status
    && (input.nextAction.Undefined? ==> u.nextAction.Undefined?)
    && (input.nextAction.Defined? ==> u.nextAction == Defined(Trim(input.nextAction.value)))
    && u.lastReviewedAt == input.lastReviewedAt
  }

  /** `buildProjectUpdate`: the update row holds only the fields present in
      the input, name and next action trimmed. */
  method BuildProjectUpdate(input: UpdateProjectInput<Status>) returns (u: UpdateProjectInput<Status>)
    ensures IsUpdateRowOf(u, input)
    ensures TextsTrimmed(u)
    ensures TextsTrimmed(input) ==> u == input
  {
    u := UpdateProjectInput(Undefined, Undefined, Undefined, Undefined, Undefined, Undefined, Undefined);

    if input.name.Defined? {
      TrimFacts(input.name.value);
      u := u.(name := Defined(Trim(input.name.value)));
    }

    if input.narrativeLink.Defined? {
      u := u.(narrativeLink := Defined(input.narrativeLink.value));
    }

    if input.whyNow.Defined? {
      u := u.(whyNow := Defined(input.whyNow.value));
    }

    if input.finishDefinition.Defined? {
      u := u.(finishDefinition := Defined(input.finishDefinition.value));
    }

    if input.status.Defined? {
      u := u.(status := Defined(input.status.value));
    }

    if input.nextAction.Defined? {
      TrimFacts(input.nextAction.value);
      u := u.(nextAction := Defined(Trim(input.nextAction.value)));
    }

    if input.lastReviewedAt.Defined? {
      u := u.(lastReviewedAt := Defined(input.lastReviewedAt.value));
    }

    if TextsTrimmed(input) {
      UpdateRowOfTrimmedInput(u, input);
    }
  }

  /** An input with nothing to trim is its own update row. */
  lemma UpdateRowOfTrimmedInput(u: UpdateProjectInput<Status>, input: UpdateProjectInput<Status>)
    requires IsUpdateRowOf(u, input) && TextsTrimmed(input)
    ensures u == input
  {
    if input.name.Defined? {
      TrimFacts(input.name.value);
    }
    if input.nextAction.Defined? {
      TrimFacts(input.nextAction.value);
    }
  }

  /** An update the use case normalised has nothing left to trim. */
  lemma NormalizedUpdateIsTrimmed(u: UpdateProjectInput<Status>, raw: UpdateProjectInput<string>)
    requires IsNormalizedUpdateOf(u, raw)
    ensures TextsTrimmed(u)
  {
    if raw.name.Defined? {
      TrimFacts(raw.name.value);
    }
    if raw.nextAction.Defined? {
      TrimFacts(raw.nextAction.value);
    }
  }

  /** `UPDATE projects SET …`: the fields the update row holds take its
      values; every other field, the id included, is left as stored. */
  function ApplyUpdate(p: Project, u: UpdateProjectInput<Status>): (q: Project)
    ensures q.id == p.id
    ensures q.name == (if u.name.Defined? then u.name.value else p.name)
    ensures q.narrativeLink == (if u.narrativeLink.Defined? then u.narrativeLink.value else p.narrativeLink)
    ensures q.whyNow == (if u.whyNow.Defined? then u.whyNow.value else p.whyNow)
    ensures q.finishDefinition == (if u.finishDefinition.Defined? then u.finishDefinition.value else p.finishDefinition)
    ensures q.status == (if u.status.Defined? then u.status.value else p.status)
    ensures q.nextAction == (if u.nextAction.Defined? then u.nextAction.value else p.nextAction)
    ensures q.lastReviewedAt == (if u.lastReviewedAt.Defined? then u.lastReviewedAt.value else p.lastReviewedAt)
    ensures q.startDate == p.startDate && q.finishDate == p.finishDate
  {
    p.(name := if u.name.Defined? then u.name.value else p.name,
       narrativeLink := if u.narrativeLink.Defined? then u.narrativeLink.value else p.narrativeLink,
       whyNow := if u.whyNow.Defined? then u.whyNow.value else p.whyNow,
       finishDefinition := if u.finishDefinition.Defined? then u.finishDefinition.value else p.finishDefinition,
       status := if u.status.Defined? then u.status.value else p.status,
       nextAction := if u.nextAction.Defined? then u.nextAction.value else p.nextAction,
       lastReviewedAt := if u.lastReviewedAt.Defined? then u.lastReviewedAt.value else p.lastReviewedAt)
  }

  /** An update that sets nothing leaves the project as it is. */
  lemma EmptyUpdateChangesNothing(p: Project, u: UpdateProjectInput<Status>)
    requires IsEmptyUpdate(u)
    ensures ApplyUpdate(p, u) == p
  {
  }

  /** Applying the same update twice is applying it once. */
  lemma ApplyUpdateIdempotent(p: Project, u: UpdateProjectInput<Status>)
    ensures ApplyUpdate(ApplyUpdate(p, u), u) == ApplyUpdate(p, u)
  {
  }

  /** The order `start_date desc nulls last`: every start date ranks above
      a missing one, later dates first. */
  function StartKey(p: Project): (k: int)
    ensures (k == 0) <==> p.startDate.None?
  {
    match p.startDate
    case None => 0
    case Some(t) => t + 1
  }

  /** In that order, a project never started comes after every started one,
      and started projects come latest first. */
  lemma StartOrderMeaning(r: seq<Project>)
    requires SortedDesc(r, StartKey)
    ensures forall i, j :: 0 <= i < j < |r| && r[i].startDate.None? ==> r[j].startDate.None?
    ensures forall i, j :: 0 <= i < j < |r| && r[j].startDate.Some? ==>
              r[i].startDate.Some? && r[i].startDate.value >= r[j].startDate.value
  {
    forall i, j | 0 <= i < j < |r| && r[j].startDate.Some?
      ensures r[i].startDate.Some? && r[i].startDate.value >= r[j].startDate.value
    {
      assert StartKey(r[i]) >= StartKey(r[j]);
    }
  }

  /** `fetchProjects`: every stored project once, ordered by start date,
      latest first, never-started last. */
  method FetchProjects(db: Db) returns (r: seq<Project>)
    requires db.Valid()
    ensures SortedDesc(r, StartKey)
    ensures |r| == |db.projects|
    ensures forall p :: p in r ==> p.id in db.projects && db.projects[p.id] == p
    ensures forall id :: id in db.projects ==> db.projects[id] in r
  {
    var rows := db.SelectProjects();
    r := SortDesc(rows, StartKey);
    assert |r| == |rows| by {
      assert |multiset(r)| == |multiset(rows)|;
    }
    forall p | p in r
      ensures p in rows
    {
      assert p in multiset(r);
    }
    forall id | id in db.projects
      ensures db.projects[id] in r
    {
      assert db.projects[id] in multiset(rows);
    }
  }

  /** `fetchProjectById`: the stored row, or null. */
  method FetchProjectById(db: Db, id: Id) returns (r: Option<Project>)
    requires db.Valid()
    ensures r.Some? <==> id in db.projects
    ensures r.Some? ==> r.value == db.projects[id] && r.value.id == id
  {
    if id in db.projects {
      return Some(db.projects[id]);
    }
    return None;
  }

  /** `createProject`: the cap-checked database function is used exactly
      when the caller asks for the cap and the row is active; otherwise the
      row is inserted plainly. A cap refusal comes back wrapped as a failed
      creation. */
  method CreateProject(db: Db, input: NewProjectInput<Status>, enforceActiveCap: bool, maxActive: nat,
                       newId: Id, now: Timestamp)
    returns (r: Result<Project, Error>)
    requires db.Valid() && newId !in db.projects
    modifies db
    ensures db.Valid()
    ensures unchanged(db`snapshots, db`decisions, db`drafts)
    ensures var row := BuildProjectInsert(input, newId, now);
            if enforceActiveCap && row.status == Active && old(ActiveCount(db.projects)) >= maxActive then
              r == Err(StoreFailed("create project", CAP_SENTINEL)) && db.projects == old(db.projects)
            else
              r == Ok(row) && db.projects == old(db.projects)[newId := row]
    ensures r.Ok? && enforceActiveCap && old(ActiveCount(db.projects)) <= maxActive ==>
              ActiveCount(db.projects) <= maxActive
  {
    var row := BuildProjectInsert(input, newId, now);
    ActiveCountAfterSet(db.projects, newId, row);
    if enforceActiveCap && row.status == Active {
      var reply := db.CreateWithActiveCap(row, maxActive);
      match reply {
        case Err(message) =>
          return Err(StoreFailed("create project", message));
        case Ok(created) =>
          return Ok(created);
      }
    }
    db.projects := db.projects[newId := row];
    return Ok(row);
  }

  /** `updateProject`: sets the fields of the update row on the stored
      project; `.single()` fails when no row has the id. */
  method UpdateProject(db: Db, id: Id, update: UpdateProjectInput<Status>) returns (r: Result<Project, Error>)
    requires db.Valid()
    modifies db
    ensures db.Valid()
    ensures unchanged(db`snapshots, db`decisions, db`drafts)
    ensures id !in old(db.projects) ==> r == Err(StoreFailed("update project", NO_SINGLE_ROW)) && db.projects == old(db.projects)
    ensures id in old(db.projects) ==>
              exists u :: IsUpdateRowOf(u, update)
                && r == Ok(ApplyUpdate(old(db.projects)[id], u))
                && db.projects == old(db.projects)[id := r.value]
    ensures id in old(db.projects) && TextsTrimmed(update) ==>
              r == Ok(ApplyUpdate(old(db.projects)[id], update))
              && db.projects == old(db.projects)[id := r.value]
  {
    var u := BuildProjectUpdate(update);
    if id !in db.projects {
      return Err(StoreFailed("update project", NO_SINGLE_ROW));
    }
    var row := ApplyUpdate(db.projects[id], u);
    db.projects := db.projects[id := row];
    return Ok(row);
  }

  /** `freezeProjectWithSnapshot`: no row back means the project was no
      longer active. */
  method FreezeProjectWithSnapshot(db: Db, id: Id, snapshot: SnapshotInput) returns (r: Result<Project, Error>)
    requires db.Valid()
    modifies db
    ensures db.Valid()
    ensures unchanged(db`decisions, db`drafts)
    ensures (id !in old(db.projects) || old(db.projects)[id].status != Active) ==>
              r == Err(StatusChangedBeforeUpdate) && unchanged(db)
    ensures id in old(db.projects) && old(db.projects)[id].status == Active ==>
              r == Ok(FrozenProject(old(db.projects)[id]))
              && db.projects == old(db.projects)[id := r.value]
              && db.snapshots == old(db.snapshots) + [SnapshotRow(id, FreezeSnapshot, StoreSnapshotPayload(snapshot))]
  {
    var reply := db.FreezeWithSnapshot(id, StoreSnapshotPayload(snapshot));
    if reply.None? {
      return Err(StatusChangedBeforeUpdate);
    }
    return Ok(reply.value);
  }

  /** `finishProjectWithSnapshot`: no row back means the project was
      already archived. */
  method FinishProjectWithSnapshot(db: Db, id: Id, snapshot: SnapshotInput, now: Timestamp)
    returns (r: Result<Project, Error>)
    requires db.Valid()
    modifies db
    ensures db.Valid()
    ensures unchanged(db`decisions, db`drafts)
    ensures (id !in old(db.projects) || old(db.projects)[id].status == Archived) ==>
              r == Err(StatusChangedBeforeUpdate) && unchanged(db)
    ensures id in old(db.projects) && old(db.projects)[id].status != Archived ==>
              r == Ok(FinishedProject(old(db.projects)[id], now))
              && db.projects == old(db.projects)[id := r.value]
              && db.snapshots == old(db.snapshots) + [SnapshotRow(id, FinishSnapshot, StoreSnapshotPayload(snapshot))]
  {
    var reply := db.FinishWithSnapshot(id, StoreSnapshotPayload(snapshot), now);
    if reply.None? {
      return Err(StatusChangedBeforeUpdate);
    }
    return Ok(reply.value);
  }

  /** `launchProjectWithActiveCap`: the cap sentinel is passed on as it
      is, any other raised error is wrapped, and no row back means the
      project was no longer frozen. */
  method LaunchProjectWithActiveCap(db: Db, id: Id, maxActive: nat, now: Timestamp)
    returns (r: Result<Project, Error>)
    requires db.Valid()
    modifies db
    ensures db.Valid()
    ensures unchanged(db`snapshots, db`decisions, db`drafts)
    ensures (id !in old(db.projects) || old(db.projects)[id].status != Frozen) ==>
              r == Err(StatusChangedBeforeUpdate) && unchanged(db)
    ensures id in old(db.projects) && old(db.projects)[id].status == Frozen && old(ActiveCount(db.projects)) >= maxActive ==>
              r == Err(ActiveCapReached) && unchanged(db)
    ensures id in old(db.projects) && old(db.projects)[id].status == Frozen && old(ActiveCount(db.projects)) < maxActive ==>
              r == Ok(LaunchedProject(old(db.projects)[id], now))
              && db.projects == old(db.projects)[id := r.value]
              && ActiveCount(db.projects) == old(ActiveCount(db.projects)) + 1 <= maxActive
  {
    var reply := db.LaunchWithActiveCap(id, maxActive, now);
    match reply {
      case Row(p) =>
        return Ok(p);
      case NoRow =>
        return Err(StatusChangedBeforeUpdate);
      case Raised(message) =>
        return Err(LaunchFailure(message));
    }
  }

  /** `archiveProject`: archives the project only while its stored status
      is still the one the caller saw, and touches nothing else. */
  method ArchiveProject(db: Db, id: Id, expectedStatus: Status) returns (r: Option<Project>)
    requires db.Valid()
    modifies db
    ensures db.Valid()
    ensures unchanged(db`snapshots, db`decisions, db`drafts)
    ensures r.Some? <==> id in old(db.projects) && old(db.projects)[id].status == expectedStatus
    ensures r.None? ==> db.projects == old(db.projects)
    ensures r.Some? ==> r.value == ArchivedProject(old(db.projects)[id]) && db.projects == old(db.projects)[id := r.value]
  {
    if id in db.projects && db.projects[id].status == expectedStatus {
      var archived := ArchivedProject(db.projects[id]);
      db.projects := db.projects[id := archived];
      return Some(archived);
    }
    return None;
  }

  /** `overrideActiveCapWithFreeze`: normalises the snapshot and trims the
      decision before the one database call; no row back is a failure. */
  method OverrideActiveCapWithFreeze(db: Db, input: OverrideInput, now: Timestamp) returns (r: Result<Project, Error>)
    requires db.Valid()
    modifies db
    ensures db.Valid()
    ensures unchanged(db`drafts)
    ensures !OverrideApplies(old(db.projects), input.launchProjectId, input.freezeProjectId) ==>
              r == Err(OverrideNoData) && unchanged(db)
    ensures OverrideApplies(old(db.projects), input.launchProjectId, input.freezeProjectId) ==>
              r == Ok(LaunchedProject(old(db.projects)[input.launchProjectId], now))
              && db.projects == old(db.projects)[input.freezeProjectId := FrozenProject(old(db.projects)[input.freezeProjectId])]
                                                [input.launchProjectId := r.value]
              && ActiveCount(db.projects) == old(ActiveCount(db.projects))
              && db.snapshots == old(db.snapshots)
                   + [SnapshotRow(input.freezeProjectId, FreezeSnapshot, StoreSnapshotPayload(input.snapshot))]
              && db.decisions == old(db.decisions)
                   + [DecisionRow(input.launchProjectId, Trim(input.decision.reason), Trim(input.decision.tradeOff))]
  {
    var payload := StoreSnapshotPayload(input.snapshot);
    var reply := db.OverrideWithFreeze(input.launchProjectId, input.freezeProjectId, payload,
                                       Trim(input.decision.reason), Trim(input.decision.tradeOff),
                                       input.maxActive, now);
    if reply.None? {
      return Err(OverrideNoData);
    }
    return Ok(reply.value);
  }

  /** The project a restart inserts: a frozen copy of the archived one's
      name, link, motivation and finish definition, never started, with a
      new next action. */
  function RestartedProject(source: Project, id: Id, nextAction: string): (q: Project)
    ensures q.id == id && q.status == Frozen
    ensures q.name == source.name && q.narrativeLink == source.narrativeLink
            && q.whyNow == source.whyNow && q.finishDefinition == source.finishDefinition
    ensures q.nextAction == Trim(nextAction)
    ensures q.startDate.None? && q.finishDate.None? && q.lastReviewedAt.None?
  {
    Project(id, source.name, source.narrativeLink, source.whyNow, source.finishDefinition,
            Frozen, Trim(nextAction), None, None, None)
  }

  /** `restartArchivedProject`: only an archived project restarts, as a new
      frozen row; the archived row stays as it is. */
  method RestartArchivedProject(db: Db, projectId: Id, nextAction: string, newId: Id) returns (r: Result<Project, Error>)
    requires db.Valid() && newId !in db.projects
    modifies db
    ensures db.Valid()
    ensures unchanged(db`snapshots, db`decisions, db`drafts)
    ensures projectId !in old(db.projects) ==> r == Err(ProjectNotFound) && db.projects == old(db.projects)
    ensures projectId in old(db.projects) && old(db.projects)[projectId].status != Archived ==>
              r == Err(OnlyArchivedRestart) && db.projects == old(db.projects)
    ensures projectId in old(db.projects) && old(db.projects)[projectId].status == Archived ==>
              r == Ok(RestartedProject(old(db.projects)[projectId], newId, nextAction))
              && db.projects == old(db.projects)[newId := r.value]
              && db.projects[projectId] == old(db.projects)[projectId]
    ensures ActiveCount(db.projects) == old(ActiveCount(db.projects))
  {
    if projectId !in db.projects {
      return Err(ProjectNotFound);
    }
    var source := db.projects[projectId];
    if source.status != Archived {
      return Err(OnlyArchivedRestart);
    }
    var row := RestartedProject(source, newId, nextAction);
    ActiveCountAfterInsert(db.projects, newId, row);
    db.projects := db.projects[newId := row];
    return Ok(row);
  }

  /** `deleteArchivedProject`: removes the row only if it is archived, and
      says whether it did. */
  method DeleteArchivedProject(db: Db, id: Id) returns (deleted: bool)
    requires db.Valid()
    modifies db
    ensures db.Valid()
    ensures unchanged(db`snapshots, db`decisions, db`drafts)
    ensures deleted <==> id in old(db.projects) && old(db.projects)[id].status == Archived
    ensures deleted ==> db.projects == old(db.projects) - {id}
    ensures !deleted ==> db.projects == old(db.projects)
    ensures ActiveCount(db.projects) == old(ActiveCount(db.projects))
  {
    if id in db.projects && db.projects[id].status == Archived {
      ActiveCountAfterRemove(db.projects, id);
      db.projects := db.projects - {id};
      return true;
    }
    return false;
  }
}
