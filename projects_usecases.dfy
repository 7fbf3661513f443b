/** The lifecycle engine (lib/usecases/projects.ts): every use case
    validates its input and the stored state, then drives the store through
    the projects port. The port is the `Db` each method receives. */
module ProjectsUsecases {
  import opened Wrappers
  import opened Text
  import opened Errors
  import opened Domain
  import opened Ports
  import opened Payloads
  import opened Database
  import opened ProjectsAdapter

  const ACTIVE_PROJECT_LIMIT: nat := 3

  datatype LifecycleAction = Launch | Freeze | Archive | Finish

  /** The action as the messages spell it. */
  function ActionName(a: LifecycleAction): string {
    match a
    case Launch => "launch"
    case Freeze => "freeze"
    case Archive => "archive"
    case Finish => "finish"
  }

  /** `ACTION_ALLOWED_STATUSES`: the statuses each action may start from.
      Every action starts somewhere, and none starts from `archived`. */
  function AllowedStatuses(a: LifecycleAction): (r: seq<Status>)
    ensures r != []
    ensures Archived !in r
  {
    match a
    case Launch => [Frozen]
    case Freeze => [Active]
    case Archive => [Active, Frozen]
    case Finish => [Active, Frozen]
  }

  /** The status each action leads to: never one it may start from, and
      `active` only for a launch. */
  function TargetStatus(a: LifecycleAction): (s: Status)
    ensures s !in AllowedStatuses(a)
    ensures s == Active <==> a == Launch
  {
    match a
    case Launch => Active
    case Freeze => Frozen
    case Archive | Finish => Archived
  }

  /** The actions that record a snapshot. */
  predicate NeedsSnapshot(a: LifecycleAction) {
    a == Freeze || a == Finish
  }

  /** The stored project after an accepted action: its status becomes the
      action's target; a launch stamps the first start and a finish the
      first finish; nothing else changes. */
  function Transitioned(a: LifecycleAction, p: Project, now: Timestamp): (q: Project)
    ensures q.status == TargetStatus(a)
    ensures q.(status := p.status, startDate := p.startDate, finishDate := p.finishDate) == p
    ensures a != Launch ==> q.startDate == p.startDate
    ensures a != Finish ==> q.finishDate == p.finishDate
  {
    match a
    case Launch => LaunchedProject(p, now)
    case Freeze => FrozenProject(p)
    case Archive => ArchivedProject(p)
    case Finish => FinishedProject(p, now)
  }

  /** The error a lifecycle action fails with before anything is written,
      if any: a missing id, an unknown project, a status the action may not
      start from, then a missing or blank snapshot where one is needed. */
  function LifecycleRejection(m: map<Id, Project>, id: Id, a: LifecycleAction, snapshot: Option<SnapshotInput>)
    : (r: Option<Error>)
    ensures id == [] ==> r == Some(ProjectIdRequired)
    ensures id != [] && id !in m ==> r == Some(ProjectNotFound)
    ensures id != [] && id in m && m[id].status !in AllowedStatuses(a) ==>
              r == Some(CannotApply(ActionName(a), StatusName(m[id].status)))
    ensures id != [] && id in m && m[id].status in AllowedStatuses(a) && NeedsSnapshot(a) && snapshot.None? ==>
              r == Some(SnapshotRequired)
    ensures id != [] && id in m && m[id].status in AllowedStatuses(a) && NeedsSnapshot(a) && snapshot.Some?
            && AllSpace(snapshot.value.summary) ==>
              r == Some(SummaryRequired)
    ensures r.None? <==>
              id != [] && id in m && m[id].status in AllowedStatuses(a)
              && (NeedsSnapshot(a) ==> snapshot.Some? && !AllSpace(snapshot.value.summary))
    ensures r.Some? && r.value !in {ProjectIdRequired, ProjectNotFound, SnapshotRequired, SummaryRequired} ==>
              r.value.CannotApply?
  {
    if id == [] then Some(ProjectIdRequired)
    else if id !in m then Some(ProjectNotFound)
    else if m[id].status !in AllowedStatuses(a) then Some(CannotApply(ActionName(a), StatusName(m[id].status)))
    else if NeedsSnapshot(a) && snapshot.None? then Some(SnapshotRequired)
    else if NeedsSnapshot(a) && BuildSnapshotPayload(snapshot.value).Err? then Some(SummaryRequired)
    else None
  }

  /** The snapshot row an accepted freeze or finish records. */
  function SnapshotRecord(a: LifecycleAction, id: Id, snapshot: Option<SnapshotInput>): seq<SnapshotRow> {
    if NeedsSnapshot(a) && snapshot.Some? && BuildSnapshotPayload(snapshot.value).Ok? then
      [SnapshotRow(id, if a == Freeze then FreezeSnapshot else FinishSnapshot, BuildSnapshotPayload(snapshot.value).value)]
    else []
  }

  /** An accepted action other than a launch never adds an active project. */
  lemma TransitionKeepsCap(m: map<Id, Project>, id: Id, a: LifecycleAction, now: Timestamp)
    requires id in m && m[id].status in AllowedStatuses(a) && a != Launch
    ensures ActiveCount(m[id := Transitioned(a, m[id], now)]) <= ActiveCount(m)
  {
    ActiveCountAfterSet(m, id, Transitioned(a, m[id], now));
  }

  /** `createProject`: normalises the input, then creates the project,
      asking for the active cap exactly when the new project is active. */
  method CreateProject(db: Db, input: NewProjectInput<string>, newId: Id, now: Timestamp)
    returns (r: Result<Project, Error>)
    requires db.Valid() && newId !in db.projects
    modifies db
    ensures db.Valid()
    ensures unchanged(db`snapshots, db`decisions, db`drafts)
    ensures NormalizeProjectInput(input).Err? ==>
              r == Err(NormalizeProjectInput(input).error) && db.projects == old(db.projects)
    ensures NormalizeProjectInput(input).Ok? ==>
              var row := BuildProjectInsert(NormalizeProjectInput(input).value, newId, now);
              if row.status == Active && old(ActiveCount(db.projects)) >= ACTIVE_PROJECT_LIMIT then
                r == Err(StoreFailed("create project", CAP_SENTINEL)) && db.projects == old(db.projects)
              else
                r == Ok(row) && db.projects == old(db.projects)[newId := row]
    ensures old(ActiveCount(db.projects)) <= ACTIVE_PROJECT_LIMIT ==> ActiveCount(db.projects) <= ACTIVE_PROJECT_LIMIT
  {
    var normalized := NormalizeProjectInput(input);
    if normalized.Err? {
      return Err(normalized.error);
    }
    var enforceActiveCap := normalized.value.status == Defined(Active);
    var row := BuildProjectInsert(normalized.value, newId, now);
    if row.status != Active {
      ActiveCountAfterInsert(db.projects, newId, row);
    }
    r := ProjectsAdapter.CreateProject(db, normalized.value, enforceActiveCap, ACTIVE_PROJECT_LIMIT, newId, now);
  }

  /** The error `updateProject` fails with before the store is reached, if
      any: a missing id, then the checks of the fields present (name, status,
      next action), then an update that names no field. */
  function UpdateRejection(id: Id, updates: UpdateProjectInput<string>): (r: Option<Error>)
    ensures r.None? <==>
              id != [] && UpdateNameOk(updates) && UpdateStatusOk(updates) && UpdateNextActionOk(updates)
              && !IsEmptyUpdate(updates)
    ensures id == [] ==> r == Some(ProjectIdRequired)
    ensures id != [] && !UpdateNameOk(updates) ==> r == Some(NameRequired)
    ensures (id != [] && UpdateNameOk(updates) && UpdateStatusOk(updates) && UpdateNextActionOk(updates)
             && IsEmptyUpdate(updates)) ==> r == Some(NoProjectUpdates)
  {
    if id == [] then Some(ProjectIdRequired)
    else if !UpdateNameOk(updates) then Some(NameRequired)
    else if !UpdateStatusOk(updates) then Some(InvalidStatus(updates.status.value))
    else if !UpdateNextActionOk(updates) then Some(AssertNextAction(updates.nextAction.value).error)
    else if IsEmptyUpdate(updates) then Some(NoProjectUpdates)
    else None
  }

  /** `updateProject`: checks the id, validates only the fields present,
      refuses an empty update, then stores the normalised fields. */
  method UpdateProject(db: Db, id: Id, updates: UpdateProjectInput<string>) returns (r: Result<Project, Error>)
    requires db.Valid()
    modifies db
    ensures db.Valid()
    ensures unchanged(db`snapshots, db`decisions, db`drafts)
    ensures UpdateRejection(id, updates).Some? ==>
              r == Err(UpdateRejection(id, updates).value) && db.projects == old(db.projects)
    ensures UpdateRejection(id, updates).None? && id !in old(db.projects) ==>
              r == Err(StoreFailed("update project", NO_SINGLE_ROW)) && db.projects == old(db.projects)
    ensures UpdateRejection(id, updates).None? && id in old(db.projects) ==>
              exists u :: IsNormalizedUpdateOf(u, updates)
                && r == Ok(ApplyUpdate(old(db.projects)[id], u))
                && db.projects == old(db.projects)[id := r.value]
  {
    if id == [] {
      return Err(ProjectIdRequired);
    }
    var update := NormalizeProjectUpdates(updates);
    if update.Err? {
      return Err(update.error);
    }
    NormalizedUpdateEmptiness(update.value, updates);
    if IsEmptyUpdate(update.value) {
      return Err(NoProjectUpdates);
    }
    NormalizedUpdateIsTrimmed(update.value, updates);
    r := ProjectsAdapter.UpdateProject(db, id, update.value);
  }

  /** `updateProject` applies no active cap: an accepted update that sets
      an inactive project's status to `active` adds one active project,
      whatever the count already is. */
  lemma UpdateCanActivate(m: map<Id, Project>, id: Id, updates: UpdateProjectInput<string>,
                          u: UpdateProjectInput<Status>)
    requires id in m && m[id].status != Active
    requires updates.status == Defined("active") && IsNormalizedUpdateOf(u, updates)
    ensures UpdateStatusOk(updates)
    ensures ActiveCount(m[id := ApplyUpdate(m[id], u)]) == ActiveCount(m) + 1
  {
    StatusRoundTrip(u.status.value);
    ActiveCountAfterSet(m, id, ApplyUpdate(m[id], u));
  }

  /** `fetchProjectById`: a missing id is refused; otherwise the stored
      project, or null. */
  method FetchProjectById(db: Db, id: Id) returns (r: Result<Option<Project>, Error>)
    requires db.Valid()
    ensures id == [] ==> r == Err(ProjectIdRequired)
    ensures id != [] ==> r.Ok? && (r.value.Some? <==> id in db.projects)
    ensures r.Ok? && r.value.Some? ==> r.value.value == db.projects[id] && r.value.value.id == id
  {
    if id == [] {
      return Err(ProjectIdRequired);
    }
    var project := ProjectsAdapter.FetchProjectById(db, id);
    return Ok(project);
  }

  /** `applyLifecycleAction`: the project must exist and be in a status the
      action may start from; freeze and finish need a snapshot with a
      summary; launch goes through the active cap; archive is conditional on
      the status just read. Nothing is written unless every check passes. */
  method ApplyLifecycleAction(db: Db, id: Id, action: LifecycleAction, snapshot: Option<SnapshotInput>, now: Timestamp)
    returns (r: Result<Project, Error>)
    requires db.Valid()
    modifies db
    ensures db.Valid()
    ensures unchanged(db`decisions, db`drafts)
    ensures LifecycleRejection(old(db.projects), id, action, snapshot).Some? ==>
              r == Err(LifecycleRejection(old(db.projects), id, action, snapshot).value) && unchanged(db)
    ensures LifecycleRejection(old(db.projects), id, action, snapshot).None?
            && action == Launch && old(ActiveCount(db.projects)) >= ACTIVE_PROJECT_LIMIT ==>
              r == Err(ActiveCapReached) && unchanged(db)
    ensures LifecycleRejection(old(db.projects), id, action, snapshot).None?
            && !(action == Launch && old(ActiveCount(db.projects)) >= ACTIVE_PROJECT_LIMIT) ==>
              r == Ok(Transitioned(action, old(db.projects)[id], now))
              && db.projects == old(db.projects)[id := r.value]
              && db.snapshots == old(db.snapshots) + SnapshotRecord(action, id, snapshot)
    ensures old(ActiveCount(db.projects)) <= ACTIVE_PROJECT_LIMIT ==> ActiveCount(db.projects) <= ACTIVE_PROJECT_LIMIT
  {
    var found := FetchProjectById(db, id);
    if found.Err? {
      return Err(found.error);
    }
    if found.value.None? {
      return Err(ProjectNotFound);
    }
    var project := found.value.value;

    if project.status !in AllowedStatuses(action) {
      return Err(CannotApply(ActionName(action), StatusName(project.status)));
    }

    if action == Freeze || action == Finish {
      if snapshot.None? {
        return Err(SnapshotRequired);
      }
      var payload := BuildSnapshotPayload(snapshot.value);
      if payload.Err? {
        return Err(payload.error);
      }
      StoreSnapshotPayloadFixesNormalized(payload.value);
      TransitionKeepsCap(db.projects, id, action, now);
      if action == Freeze {
        r := FreezeProjectWithSnapshot(db, id, AsInput(payload.value));
      } else {
        r := FinishProjectWithSnapshot(db, id, AsInput(payload.value), now);
      }
      return;
    }

    if action == Launch {
      r := LaunchProjectWithActiveCap(db, id, ACTIVE_PROJECT_LIMIT, now);
      return;
    }

    TransitionKeepsCap(db.projects, id, action, now);
    var archived := ArchiveProject(db, id, project.status);
    r := if archived.Some? then Ok(archived.value) else Err(StatusChangedBeforeUpdate);
  }

  /** The error `overrideActiveCap` fails with before the store is reached,
      if any: a missing id, the same project twice, then a blank summary,
      reason or trade-off, in that order. */
  function OverrideRejection(launchId: Id, freezeId: Id, snapshot: SnapshotInput, decision: DecisionInput)
    : (r: Option<Error>)
    ensures launchId == [] || freezeId == [] ==> r == Some(ProjectIdRequired)
    ensures launchId != [] && freezeId != [] && launchId == freezeId ==> r == Some(OverrideNeedsTwoProjects)
    ensures r.None? <==>
              launchId != [] && freezeId != [] && launchId != freezeId
              && !AllSpace(snapshot.summary) && !AllSpace(decision.reason) && !AllSpace(decision.tradeOff)
    ensures launchId != [] && freezeId != [] && launchId != freezeId ==>
              (AllSpace(snapshot.summary) ==> r == Some(SummaryRequired))
              && (!AllSpace(snapshot.summary) && AllSpace(decision.reason) ==> r == Some(ReasonRequired))
              && (!AllSpace(snapshot.summary) && !AllSpace(decision.reason) && AllSpace(decision.tradeOff) ==>
                    r == Some(TradeOffRequired))
  {
    if launchId == [] || freezeId == [] then Some(ProjectIdRequired)
    else if launchId == freezeId then Some(OverrideNeedsTwoProjects)
    else if BuildSnapshotPayload(snapshot).Err? then Some(BuildSnapshotPayload(snapshot).error)
    else if BuildDecisionPayload(decision).Err? then Some(BuildDecisionPayload(decision).error)
    else None
  }

  /** `overrideActiveCap`: after the checks, one store call freezes the
      active project with its snapshot and launches the frozen one with the
      decision, at limit 3; the number of active projects does not change. */
  method OverrideActiveCap(db: Db, launchProjectId: Id, freezeProjectId: Id, snapshot: SnapshotInput,
                           decision: DecisionInput, now: Timestamp)
    returns (r: Result<Project, Error>)
    requires db.Valid()
    modifies db
    ensures db.Valid()
    ensures unchanged(db`drafts)
    ensures OverrideRejection(launchProjectId, freezeProjectId, snapshot, decision).Some? ==>
              r == Err(OverrideRejection(launchProjectId, freezeProjectId, snapshot, decision).value) && unchanged(db)
    ensures OverrideRejection(launchProjectId, freezeProjectId, snapshot, decision).None?
            && !OverrideApplies(old(db.projects), launchProjectId, freezeProjectId) ==>
              r == Err(OverrideNoData) && unchanged(db)
    ensures OverrideRejection(launchProjectId, freezeProjectId, snapshot, decision).None?
            && OverrideApplies(old(db.projects), launchProjectId, freezeProjectId) ==>
              r == Ok(LaunchedProject(old(db.projects)[launchProjectId], now))
              && db.projects == old(db.projects)[freezeProjectId := FrozenProject(old(db.projects)[freezeProjectId])]
                                                [launchProjectId := r.value]
              && db.snapshots == old(db.snapshots)
                   + [SnapshotRow(freezeProjectId, FreezeSnapshot, BuildSnapshotPayload(snapshot).value)]
              && db.decisions == old(db.decisions)
                   + [DecisionRow(launchProjectId, BuildDecisionPayload(decision).value.reason,
                                  BuildDecisionPayload(decision).value.tradeOff)]
    ensures ActiveCount(db.projects) == old(ActiveCount(db.projects))
  {
    if launchProjectId == [] || freezeProjectId == [] {
      return Err(ProjectIdRequired);
    }
    if launchProjectId == freezeProjectId {
      return Err(OverrideNeedsTwoProjects);
    }
    var snapshotPayload := BuildSnapshotPayload(snapshot);
    if snapshotPayload.Err? {
      return Err(snapshotPayload.error);
    }
    var decisionPayload := BuildDecisionPayload(decision);
    if decisionPayload.Err? {
      return Err(decisionPayload.error);
    }
    StoreSnapshotPayloadFixesNormalized(snapshotPayload.value);
    TrimFacts(decisionPayload.value.reason);
    TrimFacts(decisionPayload.value.tradeOff);
    var input := OverrideInput(launchProjectId, freezeProjectId, AsInput(snapshotPayload.value),
                               DecisionInput(decisionPayload.value.reason, decisionPayload.value.tradeOff),
                               ACTIVE_PROJECT_LIMIT);
    r := OverrideActiveCapWithFreeze(db, input, now);
  }

  /** The error `restartArchivedProject` fails with before the store is
      written, if any: a missing id, a bad next action, an unknown project,
      a project that is not archived, a stored name that is blank. */
  function RestartRejection(m: map<Id, Project>, id: Id, nextAction: string): (r: Option<Error>)
    ensures id == [] ==> r == Some(ProjectIdRequired)
    ensures id != [] && AssertNextAction(nextAction).Fail? ==> r == Some(AssertNextAction(nextAction).error)
    ensures id != [] && AssertNextAction(nextAction) == Pass && id !in m ==> r == Some(ProjectNotFound)
    ensures id != [] && AssertNextAction(nextAction) == Pass && id in m && m[id].status != Archived ==>
              r == Some(OnlyArchivedRestart)
    ensures r.None? <==>
              id != [] && AssertNextAction(nextAction) == Pass && id in m && m[id].status == Archived
              && !AllSpace(m[id].name)
  {
    if id == [] then Some(ProjectIdRequired)
    else if AssertNextAction(nextAction).Fail? then Some(AssertNextAction(nextAction).error)
    else if id !in m then Some(ProjectNotFound)
    else if m[id].status != Archived then Some(OnlyArchivedRestart)
    else if AssertProjectName(m[id].name).Fail? then Some(NameRequired)
    else None
  }

  /** `restartArchivedProject`: validates the next action first, then needs
      an archived project, and starts a new frozen cycle from it; the
      archived project stays. */
  method RestartArchivedProject(db: Db, id: Id, nextAction: string, newId: Id) returns (r: Result<Project, Error>)
    requires db.Valid() && newId !in db.projects
    modifies db
    ensures db.Valid()
    ensures unchanged(db`snapshots, db`decisions, db`drafts)
    ensures RestartRejection(old(db.projects), id, nextAction).Some? ==>
              r == Err(RestartRejection(old(db.projects), id, nextAction).value) && db.projects == old(db.projects)
    ensures RestartRejection(old(db.projects), id, nextAction).None? ==>
              r == Ok(RestartedProject(old(db.projects)[id], newId, nextAction))
              && db.projects == old(db.projects)[newId := r.value]
    ensures r.Ok? ==> r.value.nextAction != [] && IsTrimmed(r.value.nextAction)
                      && |r.value.nextAction| <= MAX_NEXT_ACTION_LENGTH
    ensures ActiveCount(db.projects) == old(ActiveCount(db.projects))
  {
    if id == [] {
      return Err(ProjectIdRequired);
    }
    var check := AssertNextAction(nextAction);
    if check.Fail? {
      return Err(check.error);
    }
    // The id is known to be present here, so the use case's own fetch
    // reduces to the port's.
    var found := ProjectsAdapter.FetchProjectById(db, id);
    if found.None? {
      return Err(ProjectNotFound);
    }
    var project := found.value;
    if project.status != Archived {
      return Err(OnlyArchivedRestart);
    }
    var nameCheck := AssertProjectName(project.name);
    if nameCheck.Fail? {
      return Err(nameCheck.error);
    }
    TrimFacts(nextAction);
    r := ProjectsAdapter.RestartArchivedProject(db, id, nextAction, newId);
  }

  /** The error `deleteArchivedProject` fails with before the store is
      written, if any. */
  function DeleteRejection(m: map<Id, Project>, id: Id): (r: Option<Error>)
    ensures r.None? <==> id != [] && id in m && m[id].status == Archived
    ensures id != [] && id in m && m[id].status != Archived ==> r == Some(OnlyArchivedDelete)
    ensures id != [] && id !in m ==> r == Some(ProjectNotFound)
  {
    if id == [] then Some(ProjectIdRequired)
    else if id !in m then Some(ProjectNotFound)
    else if m[id].status != Archived then Some(OnlyArchivedDelete)
    else None
  }

  /** `deleteArchivedProject`: only an archived project is deleted; a store
      that deleted nothing is reported as a status change. */
  method DeleteArchivedProject(db: Db, id: Id) returns (r: Outcome<Error>)
    requires db.Valid()
    modifies db
    ensures db.Valid()
    ensures unchanged(db`snapshots, db`decisions, db`drafts)
    ensures DeleteRejection(old(db.projects), id).Some? ==>
              r == Fail(DeleteRejection(old(db.projects), id).value) && db.projects == old(db.projects)
    ensures DeleteRejection(old(db.projects), id).None? ==>
              r == Pass && db.projects == old(db.projects) - {id}
    ensures ActiveCount(db.projects) == old(ActiveCount(db.projects))
  {
    var found := FetchProjectById(db, id);
    if found.Err? {
      return Fail(found.error);
    }
    if found.value.None? {
      return Fail(ProjectNotFound);
    }
    if found.value.value.status != Archived {
      return Fail(OnlyArchivedDelete);
    }
    var deleted := ProjectsAdapter.DeleteArchivedProject(db, id);
    r := if deleted then Pass else Fail(StatusChangedBeforeDeletion);
  }
}
