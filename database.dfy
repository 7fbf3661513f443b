/** The stored state the adapters work on: the projects, snapshots and
    decisions tables and the repository drafts table, and the database
    functions whose SQL bodies are not part of this model
    (`create_project_with_active_cap`, `launch_project_with_active_cap`,
    `freeze_project_with_snapshot`, `finish_project_with_snapshot`,
    `override_active_cap_with_freeze`,
    `convert_repo_draft_to_project_service`). Each of those is one atomic
    method whose contract is an ASSUMPTION shaped by what the TypeScript
    callers handle: a row when the transition applies, no row when the
    project is not in the state the transition needs, and the raised
    message `ACTIVE_CAP_REACHED` when a launch would exceed the cap. */
module Database {
  import opened Wrappers
  import opened Errors
  import opened Domain
  import opened Ports
  import opened Payloads

  datatype SnapshotKind = FreezeSnapshot | FinishSnapshot

  /** A row of `project_snapshots`. */
  datatype SnapshotRow = SnapshotRow(projectId: Id, kind: SnapshotKind, payload: SnapshotPayload)

  /** A row of `project_decisions`, recorded against the launched project. */
  datatype DecisionRow = DecisionRow(projectId: Id, reason: string, tradeOff: string)

  /** What the launch function answers: the launched row, no row, or a
      raised error carrying a message. */
  datatype Reply<T> = Row(value: T) | NoRow | Raised(message: string)

  /** The projects currently active. */
  function ActiveIds(m: map<Id, Project>): set<Id> {
    set id | id in m && m[id].status == Active
  }

  function ActiveCount(m: map<Id, Project>): nat {
    |ActiveIds(m)|
  }

  /** The projects of a list with the given status, in list order
      (`projects.filter((project) => project.status === s)`): each one kept
      as often as it occurs, every other project dropped. */
  function WithStatus(ps: seq<Project>, s: Status): (r: seq<Project>)
    ensures forall p :: multiset(r)[p] == if p.status == s then multiset(ps)[p] else 0
    ensures forall p :: p in r <==> p in ps && p.status == s
    ensures |r| <= |ps|
    decreases |ps|
  {
    if ps == [] then []
    else
      assert ps == [ps[0]] + ps[1..];
      (if ps[0].status == s then [ps[0]] else []) + WithStatus(ps[1..], s)
  }

  /** A launched project: active, with its start date set on first launch. */
  function LaunchedProject(p: Project, now: Timestamp): (q: Project)
    ensures q.status == Active && q.startDate.Some?
    ensures p.startDate.Some? ==> q.startDate == p.startDate
    ensures q.(status := p.status, startDate := p.startDate) == p
  {
    p.(status := Active, startDate := if p.startDate.None? then Some(now) else p.startDate)
  }

  /** A frozen project; nothing else about it changes. */
  function FrozenProject(p: Project): (q: Project)
    ensures q.status == Frozen && q.(status := p.status) == p
  {
    p.(status := Frozen)
  }

  /** A finished project: archived, with its finish date set on first finish. */
  function FinishedProject(p: Project, now: Timestamp): (q: Project)
    ensures q.status == Archived && q.finishDate.Some?
    ensures p.finishDate.Some? ==> q.finishDate == p.finishDate
    ensures q.(status := p.status, finishDate := p.finishDate) == p
  {
    p.(status := Archived, finishDate := if p.finishDate.None? then Some(now) else p.finishDate)
  }

  /** An archived project; nothing else about it changes. */
  function ArchivedProject(p: Project): (q: Project)
    ensures q.status == Archived && q.(status := p.status) == p
  {
    p.(status := Archived)
  }

  /** Replacing one row changes the active count by what that row's status
      contributes before and after. */
  lemma ActiveCountAfterSet(m: map<Id, Project>, k: Id, v: Project)
    ensures ActiveCount(m[k := v]) ==
            ActiveCount(m) - (if k in m && m[k].status == Active then 1 else 0)
                           + (if v.status == Active then 1 else 0)
  {
    var before := ActiveIds(m) - {k};
    assert ActiveIds(m[k := v]) == if v.status == Active then before + {k} else before;
    if k in m && m[k].status == Active {
      assert ActiveIds(m) == before + {k};
    } else {
      assert ActiveIds(m) == before;
    }
  }

  /** Removing a row that is not active leaves the active count alone. */
  lemma ActiveCountAfterRemove(m: map<Id, Project>, k: Id)
    requires k in m && m[k].status != Active
    ensures ActiveCount(m - {k}) == ActiveCount(m)
  {
    assert ActiveIds(m - {k}) == ActiveIds(m);
  }

  /** Adding a project that is not active leaves the active count alone. */
  lemma ActiveCountAfterInsert(m: map<Id, Project>, k: Id, v: Project)
    requires k !in m && v.status != Active
    ensures ActiveCount(m[k := v]) == ActiveCount(m)
  {
    ActiveCountAfterSet(m, k, v);
  }

  /** Launching a frozen project adds exactly one active project. */
  lemma LaunchAddsOneActive(m: map<Id, Project>, id: Id, now: Timestamp)
    requires id in m && m[id].status == Frozen
    ensures ActiveCount(m[id := LaunchedProject(m[id], now)]) == ActiveCount(m) + 1
  {
    ActiveCountAfterSet(m, id, LaunchedProject(m[id], now));
  }

  /** The override swap (freeze one active project, launch one frozen
      project) leaves the number of active projects unchanged. */
  lemma OverrideKeepsActiveCount(m: map<Id, Project>, launchId: Id, freezeId: Id, now: Timestamp)
    requires launchId in m && m[launchId].status == Frozen
    requires freezeId in m && m[freezeId].status == Active
    ensures ActiveCount(m[freezeId := FrozenProject(m[freezeId])][launchId := LaunchedProject(m[launchId], now)]) == ActiveCount(m)
  {
    var m1 := m[freezeId := FrozenProject(m[freezeId])];
    ActiveCountAfterSet(m, freezeId, FrozenProject(m[freezeId]));
    ActiveCountAfterSet(m1, launchId, LaunchedProject(m[launchId], now));
  }

  /** No two drafts share an id, and no user has two drafts of one
      repository (the `user_id, github_repo_id` uniqueness the upsert relies
      on). */
  predicate DraftsWellFormed(t: seq<RepoDraft>) {
    forall i, j :: 0 <= i < j < |t| ==>
      t[i].id != t[j].id && (t[i].userId != t[j].userId || t[i].githubRepoId != t[j].githubRepoId)
  }

  /** The position of the user's draft with the given id, if there is one. */
  function FindDraft(t: seq<RepoDraft>, userId: string, id: Id): (r: Option<nat>)
    ensures r.Some? ==> r.value < |t| && t[r.value].id == id && t[r.value].userId == userId
    ensures r.None? ==> forall i :: 0 <= i < |t| ==> !(t[i].id == id && t[i].userId == userId)
    decreases |t|
  {
    if t == [] then None
    else
      var last := |t| - 1;
      var earlier := FindDraft(t[..last], userId, id);
      if earlier.Some? then earlier
      else if t[last].id == id && t[last].userId == userId then Some(last)
      else None
  }

  /** The position of the user's draft of the given repository, if any. */
  function FindRepo(t: seq<RepoDraft>, userId: string, repoId: int): (r: Option<nat>)
    ensures r.Some? ==> r.value < |t| && t[r.value].userId == userId && t[r.value].githubRepoId == repoId
    ensures r.None? ==> forall i :: 0 <= i < |t| ==> !(t[i].userId == userId && t[i].githubRepoId == repoId)
    decreases |t|
  {
    if t == [] then None
    else
      var last := |t| - 1;
      var earlier := FindRepo(t[..last], userId, repoId);
      if earlier.Some? then earlier
      else if t[last].userId == userId && t[last].githubRepoId == repoId then Some(last)
      else None
  }

  /** A row of an upsert into `repo_drafts`: every column but the id and
      the conversion columns. */
  datatype DraftUpsert = DraftUpsert(
    userId: string,
    githubRepoId: int,
    fullName: string,
    htmlUrl: string,
    description: Option<string>,
    visibility: string,
    defaultBranch: string,
    pushedAt: Option<string>,
    topics: Option<seq<string>>,
    importedAt: Timestamp)

  /** The stored draft's columns agree with every column of the upserted row. */
  predicate Carries(d: RepoDraft, u: DraftUpsert) {
    d.userId == u.userId && d.githubRepoId == u.githubRepoId && d.fullName == u.fullName
    && d.htmlUrl == u.htmlUrl && d.description == u.description && d.visibility == u.visibility
    && d.defaultBranch == u.defaultBranch && d.pushedAt == u.pushedAt && d.topics == u.topics
    && d.importedAt == u.importedAt
  }

  /** No two rows of one upsert share the conflict key. */
  predicate UniqueKeys(rows: seq<DraftUpsert>) {
    forall i, j :: 0 <= i < j < |rows| ==>
      rows[i].userId != rows[j].userId || rows[i].githubRepoId != rows[j].githubRepoId
  }

  /** `ON CONFLICT (user_id, github_repo_id) DO UPDATE` for one row: an
      existing draft takes the row's columns and keeps its id and conversion
      columns; otherwise a new, unconverted draft is appended. */
  function UpsertOne(t: seq<RepoDraft>, u: DraftUpsert, newId: Id): (r: seq<RepoDraft>)
    ensures |r| == |t| <==> FindRepo(t, u.userId, u.githubRepoId).Some?
    ensures |r| == |t| || |r| == |t| + 1
    ensures FindRepo(t, u.userId, u.githubRepoId).Some? ==>
              var i := FindRepo(t, u.userId, u.githubRepoId).value;
              Carries(r[i], u) && r[i].id == t[i].id && r[i].convertedProjectId == t[i].convertedProjectId
              && (forall k :: 0 <= k < |t| && k != i ==> r[k] == t[k])
    ensures FindRepo(t, u.userId, u.githubRepoId).None? ==>
              r[..|t|] == t && Carries(r[|t|], u) && r[|t|].id == newId && r[|t|].convertedProjectId.None?
  {
    match FindRepo(t, u.userId, u.githubRepoId)
    case Some(i) =>
      t[i := t[i].(fullName := u.fullName, htmlUrl := u.htmlUrl, description := u.description,
                   visibility := u.visibility, defaultBranch := u.defaultBranch,
                   pushedAt := u.pushedAt, topics := u.topics, importedAt := u.importedAt)]
    case None =>
      t + [RepoDraft(newId, u.userId, u.githubRepoId, u.fullName, u.htmlUrl, u.description,
                     u.visibility, u.defaultBranch, u.pushedAt, u.topics, u.importedAt, None, None)]
  }

  /** The upsert of a whole batch, one row after the other; `newIds` are the
      ids the table's default would give rows that turn out new. */
  function ApplyUpsert(t: seq<RepoDraft>, rows: seq<DraftUpsert>, newIds: seq<Id>): (r: seq<RepoDraft>)
    requires |newIds| == |rows|
    ensures |t| <= |r| <= |t| + |rows|
    decreases |rows|
  {
    if rows == [] then t
    else ApplyUpsert(UpsertOne(t, rows[0], newIds[0]), rows[1..], newIds[1..])
  }

  /** `r` extends `t` without touching any stored draft's identity or
      conversion columns, and what it adds is unconverted. */
  predicate KeepsConversions(t: seq<RepoDraft>, r: seq<RepoDraft>) {
    |t| <= |r|
    && (forall i :: 0 <= i < |t| ==>
          r[i].id == t[i].id && r[i].userId == t[i].userId && r[i].githubRepoId == t[i].githubRepoId
          && r[i].convertedProjectId == t[i].convertedProjectId && r[i].convertedAt == t[i].convertedAt)
    && (forall i :: |t| <= i < |r| ==> r[i].convertedProjectId.None? && r[i].convertedAt.None?)
  }

  /** Re-importing never touches a draft's id, owner, repository or
      conversion columns. */
  lemma {:induction false} UpsertKeepsConversions(t: seq<RepoDraft>, rows: seq<DraftUpsert>, newIds: seq<Id>)
    requires |newIds| == |rows|
    ensures KeepsConversions(t, ApplyUpsert(t, rows, newIds))
    decreases |rows|
  {
    if rows != [] {
      var t1 := UpsertOne(t, rows[0], newIds[0]);
      assert KeepsConversions(t, t1);
      UpsertKeepsConversions(t1, rows[1..], newIds[1..]);
    }
  }

  /** Only the drafts of the importing user change. */
  lemma {:induction false} UpsertTouchesOnlyOwner(t: seq<RepoDraft>, rows: seq<DraftUpsert>, newIds: seq<Id>, userId: string)
    requires |newIds| == |rows|
    requires forall k :: 0 <= k < |rows| ==> rows[k].userId == userId
    ensures var r := ApplyUpsert(t, rows, newIds);
            |t| <= |r| && forall i :: 0 <= i < |t| && t[i].userId != userId ==> r[i] == t[i]
    decreases |rows|
  {
    if rows != [] {
      var t1 := UpsertOne(t, rows[0], newIds[0]);
      UpsertTouchesOnlyOwner(t1, rows[1..], newIds[1..], userId);
    }
  }

  /** The ids a batch may give to new drafts: distinct, and unused. */
  predicate FreshIds(t: seq<RepoDraft>, newIds: seq<Id>) {
    (forall i, j :: 0 <= i < j < |newIds| ==> newIds[i] != newIds[j])
    && (forall i, k :: 0 <= i < |newIds| && 0 <= k < |t| ==> newIds[i] != t[k].id)
  }

  /** One upserted row keeps the table's uniqueness constraints. */
  lemma UpsertOneKeepsWellFormed(t: seq<RepoDraft>, u: DraftUpsert, newId: Id)
    requires DraftsWellFormed(t)
    requires forall k :: 0 <= k < |t| ==> t[k].id != newId
    ensures DraftsWellFormed(UpsertOne(t, u, newId))
  {
  }

  /** A batch upsert keeps the table's uniqueness constraints. */
  lemma {:induction false} UpsertKeepsWellFormed(t: seq<RepoDraft>, rows: seq<DraftUpsert>, newIds: seq<Id>)
    requires |newIds| == |rows|
    requires DraftsWellFormed(t) && FreshIds(t, newIds)
    ensures DraftsWellFormed(ApplyUpsert(t, rows, newIds))
    decreases |rows|
  {
    if rows != [] {
      var t1 := UpsertOne(t, rows[0], newIds[0]);
      UpsertOneKeepsWellFormed(t, rows[0], newIds[0]);
      assert FreshIds(t1, newIds[1..]) by {
        forall i, k | 0 <= i < |newIds[1..]| && 0 <= k < |t1|
          ensures newIds[1..][i] != t1[k].id
        {
          if k < |t| {
            assert t1[k].id == t[k].id;
          } else {
            assert t1[k].id == newIds[0];
          }
        }
      }
      UpsertKeepsWellFormed(t1, rows[1..], newIds[1..]);
    }
  }

  /** Some stored draft carries the row. */
  predicate Stored(t: seq<RepoDraft>, u: DraftUpsert) {
    exists j :: 0 <= j < |t| && Carries(t[j], u)
  }

  /** Upserting a row with a different key leaves a stored row stored. */
  lemma UpsertOneKeepsStored(t: seq<RepoDraft>, u: DraftUpsert, v: DraftUpsert, newId: Id)
    requires Stored(t, v)
    requires u.userId != v.userId || u.githubRepoId != v.githubRepoId
    ensures Stored(UpsertOne(t, u, newId), v)
  {
    var j :| 0 <= j < |t| && Carries(t[j], v);
    var r := UpsertOne(t, u, newId);
    assert r[j] == t[j];
  }

  /** After a batch without repeated keys, every row of it is stored. */
  lemma {:induction false} UpsertStoresEveryRow(t: seq<RepoDraft>, rows: seq<DraftUpsert>, newIds: seq<Id>)
    requires |newIds| == |rows|
    requires UniqueKeys(rows)
    ensures forall k :: 0 <= k < |rows| ==> Stored(ApplyUpsert(t, rows, newIds), rows[k])
    decreases |rows|
  {
    if rows != [] {
      var t1 := UpsertOne(t, rows[0], newIds[0]);
      assert Stored(t1, rows[0]) by {
        var found := FindRepo(t, rows[0].userId, rows[0].githubRepoId);
        if found.Some? {
          assert Carries(t1[found.value], rows[0]);
        } else {
          assert Carries(t1[|t|], rows[0]);
        }
      }
      StoredSurvivesUpsert(t1, rows[1..], newIds[1..], rows[0]);
      UpsertStoresEveryRow(t1, rows[1..], newIds[1..]);
      forall k | 1 <= k < |rows|
        ensures Stored(ApplyUpsert(t, rows, newIds), rows[k])
      {
        assert rows[k] == rows[1..][k - 1];
      }
    }
  }

  /** A stored row stays stored through a batch that never repeats its key. */
  lemma {:induction false} StoredSurvivesUpsert(t: seq<RepoDraft>, rows: seq<DraftUpsert>, newIds: seq<Id>, v: DraftUpsert)
    requires |newIds| == |rows|
    requires Stored(t, v)
    requires forall k :: 0 <= k < |rows| ==> rows[k].userId != v.userId || rows[k].githubRepoId != v.githubRepoId
    ensures Stored(ApplyUpsert(t, rows, newIds), v)
    decreases |rows|
  {
    if rows != [] {
      UpsertOneKeepsStored(t, rows[0], v, newIds[0]);
      StoredSurvivesUpsert(UpsertOne(t, rows[0], newIds[0]), rows[1..], newIds[1..], v);
    }
  }

  class Db {
    var projects: map<Id, Project>
    var snapshots: seq<SnapshotRow>
    var decisions: seq<DecisionRow>
    var drafts: seq<RepoDraft>

    /** Every project is stored under its own id; the drafts table keeps its
        uniqueness constraints. */
    ghost predicate Valid()
      reads this
    {
      (forall id :: id in projects ==> projects[id].id == id)
      && DraftsWellFormed(drafts)
    }

    constructor ()
      ensures Valid()
      ensures projects == map[] && snapshots == [] && decisions == [] && drafts == []
    {
      projects := map[];
      snapshots := [];
      decisions := [];
      drafts := [];
    }

    /** `select *` from `projects`: every stored row once, in no particular
        order. */
    method SelectProjects() returns (rows: seq<Project>)
      requires Valid()
      ensures |rows| == |projects|
      ensures forall p :: p in rows ==> p.id in projects && projects[p.id] == p
      ensures forall id :: id in projects ==> projects[id] in rows
    {
      rows := [];
      var left := projects.Keys;
      while left != {}
        invariant left <= projects.Keys
        invariant |rows| + |left| == |projects|
        invariant forall p :: p in rows ==> p.id in projects && projects[p.id] == p && p.id !in left
        invariant forall id :: id in projects && id !in left ==> projects[id] in rows
        decreases left
      {
        var id :| id in left;
        rows := rows + [projects[id]];
        left := left - {id};
      }
    }

    /** `create_project_with_active_cap` (assumed): inserts the row unless
        the active count has reached `maxActive`. */
    method CreateWithActiveCap(row: Project, maxActive: nat) returns (r: Result<Project, string>)
      requires Valid() && row.id !in projects
      modifies this
      ensures Valid()
      ensures old(ActiveCount(projects)) >= maxActive ==> r == Err(CAP_SENTINEL) && unchanged(this)
      ensures old(ActiveCount(projects)) < maxActive ==>
                r == Ok(row) && projects == old(projects)[row.id := row]
                && snapshots == old(snapshots) && decisions == old(decisions) && drafts == old(drafts)
    {
      if ActiveCount(projects) >= maxActive {
        return Err(CAP_SENTINEL);
      }
      projects := projects[row.id := row];
      return Ok(row);
    }

    /** `launch_project_with_active_cap` (assumed): a frozen project becomes
        active unless the active count has reached `maxActive`. */
    method LaunchWithActiveCap(id: Id, maxActive: nat, now: Timestamp) returns (r: Reply<Project>)
      requires Valid()
      modifies this
      ensures Valid()
      ensures (id !in old(projects) || old(projects)[id].status != Frozen) ==> r == NoRow && unchanged(this)
      ensures id in old(projects) && old(projects)[id].status == Frozen && old(ActiveCount(projects)) >= maxActive ==>
                r == Raised(CAP_SENTINEL) && unchanged(this)
      ensures id in old(projects) && old(projects)[id].status == Frozen && old(ActiveCount(projects)) < maxActive ==>
                r == Row(LaunchedProject(old(projects)[id], now))
                && projects == old(projects)[id := r.value]
                && ActiveCount(projects) == old(ActiveCount(projects)) + 1 <= maxActive
                && snapshots == old(snapshots) && decisions == old(decisions) && drafts == old(drafts)
    {
      if id !in projects || projects[id].status != Frozen {
        return NoRow;
      }
      if ActiveCount(projects) >= maxActive {
        return Raised(CAP_SENTINEL);
      }
      LaunchAddsOneActive(projects, id, now);
      var launched := LaunchedProject(projects[id], now);
      projects := projects[id := launched];
      return Row(launched);
    }

    /** `freeze_project_with_snapshot` (assumed): an active project becomes
        frozen and its freeze snapshot is recorded, together. */
    method FreezeWithSnapshot(id: Id, payload: SnapshotPayload) returns (r: Option<Project>)
      requires Valid()
      modifies this
      ensures Valid()
      ensures (id !in old(projects) || old(projects)[id].status != Active) ==> r == None && unchanged(this)
      ensures id in old(projects) && old(projects)[id].status == Active ==>
                r == Some(FrozenProject(old(projects)[id]))
                && projects == old(projects)[id := r.value]
                && snapshots == old(snapshots) + [SnapshotRow(id, FreezeSnapshot, payload)]
                && decisions == old(decisions) && drafts == old(drafts)
    {
      if id !in projects || projects[id].status != Active {
        return None;
      }
      var frozen := FrozenProject(projects[id]);
      projects := projects[id := frozen];
      snapshots := snapshots + [SnapshotRow(id, FreezeSnapshot, payload)];
      return Some(frozen);
    }

    /** `finish_project_with_snapshot` (assumed): an active or frozen project
        is archived, its finish date set on first finish, and its finish
        snapshot recorded, together. */
    method FinishWithSnapshot(id: Id, payload: SnapshotPayload, now: Timestamp) returns (r: Option<Project>)
      requires Valid()
      modifies this
      ensures Valid()
      ensures (id !in old(projects) || old(projects)[id].status == Archived) ==> r == None && unchanged(this)
      ensures id in old(projects) && old(projects)[id].status != Archived ==>
                r == Some(FinishedProject(old(projects)[id], now))
                && projects == old(projects)[id := r.value]
                && snapshots == old(snapshots) + [SnapshotRow(id, FinishSnapshot, payload)]
                && decisions == old(decisions) && drafts == old(drafts)
    {
      if id !in projects || projects[id].status == Archived {
        return None;
      }
      var finished := FinishedProject(projects[id], now);
      projects := projects[id := finished];
      snapshots := snapshots + [SnapshotRow(id, FinishSnapshot, payload)];
      return Some(finished);
    }

    /** `override_active_cap_with_freeze` (assumed): freezes the active
        project (recording its snapshot) and launches the frozen one
        (recording the decision) in one step, and answers the launched
        project; otherwise nothing happens. What the function does with
        `maxActive` is not known; the swap keeps the active count. */
    method OverrideWithFreeze(launchId: Id, freezeId: Id, payload: SnapshotPayload,
                              reason: string, tradeOff: string, maxActive: nat, now: Timestamp)
      returns (r: Option<Project>)
      requires Valid()
      modifies this
      ensures Valid()
      ensures !OverrideApplies(old(projects), launchId, freezeId) ==> r == None && unchanged(this)
      ensures OverrideApplies(old(projects), launchId, freezeId) ==>
                r == Some(LaunchedProject(old(projects)[launchId], now))
                && projects == old(projects)[freezeId := FrozenProject(old(projects)[freezeId])][launchId := r.value]
                && ActiveCount(projects) == old(ActiveCount(projects))
                && snapshots == old(snapshots) + [SnapshotRow(freezeId, FreezeSnapshot, payload)]
                && decisions == old(decisions) + [DecisionRow(launchId, reason, tradeOff)]
                && drafts == old(drafts)
    {
      if !OverrideApplies(projects, launchId, freezeId) {
        return None;
      }
      OverrideKeepsActiveCount(projects, launchId, freezeId, now);
      var launched := LaunchedProject(projects[launchId], now);
      projects := projects[freezeId := FrozenProject(projects[freezeId])][launchId := launched];
      snapshots := snapshots + [SnapshotRow(freezeId, FreezeSnapshot, payload)];
      decisions := decisions + [DecisionRow(launchId, reason, tradeOff)];
      return Some(launched);
    }

    /** `convert_repo_draft_to_project_service` (assumed): the user's
        unconverted draft becomes a new frozen project linked to the
        repository, and the draft is marked converted, together; the answer
        is the new project's id. */
    method ConvertDraft(draftId: Id, userId: string, name: string, nextAction: string,
                        finishDefinition: Option<string>, newId: Id, now: Timestamp)
      returns (r: Option<Id>)
      requires Valid() && newId !in projects
      modifies this
      ensures Valid()
      ensures (FindDraft(old(drafts), userId, draftId).None?
               || old(drafts)[FindDraft(old(drafts), userId, draftId).value].convertedProjectId.Some?) ==>
                r == None && unchanged(this)
      ensures FindDraft(old(drafts), userId, draftId).Some?
              && old(drafts)[FindDraft(old(drafts), userId, draftId).value].convertedProjectId.None? ==>
                var i := FindDraft(old(drafts), userId, draftId).value;
                r == Some(newId)
                && projects == old(projects)[newId := ConvertedProject(old(drafts)[i], newId, name, nextAction, finishDefinition)]
                && drafts == old(drafts)[i := old(drafts)[i].(convertedProjectId := Some(newId), convertedAt := Some(now))]
                && snapshots == old(snapshots) && decisions == old(decisions)
    {
      var found := FindDraft(drafts, userId, draftId);
      if found.None? || drafts[found.value].convertedProjectId.Some? {
        return None;
      }
      var i := found.value;
      var draft := drafts[i];
      projects := projects[newId := ConvertedProject(draft, newId, name, nextAction, finishDefinition)];
      drafts := drafts[i := draft.(convertedProjectId := Some(newId), convertedAt := Some(now))];
      return Some(newId);
    }
  }

  /** Both projects exist, differ, and are in the states the override swaps. */
  predicate OverrideApplies(m: map<Id, Project>, launchId: Id, freezeId: Id) {
    launchId != freezeId && launchId in m && freezeId in m
    && m[launchId].status == Frozen && m[freezeId].status == Active
  }

  /** The project a converted draft becomes (assumed): frozen, never
      started, linked to the repository's page. */
  function ConvertedProject(d: RepoDraft, id: Id, name: string, nextAction: string,
                            finishDefinition: Option<string>): Project
  {
    Project(id, name, Some(d.htmlUrl), None, finishDefinition, Frozen, nextAction, None, None, None)
  }
}
