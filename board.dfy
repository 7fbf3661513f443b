/** The project board (app/protected/page.tsx): projects grouped by status,
    the lifecycle controls each status offers and the handler each control
    calls, and the drafts still waiting for conversion. */
module Board {
  import opened Wrappers
  import opened Errors
  import opened Domain
  import opened Ports
  import opened Database
  import opened ProjectsUsecases

  /** The three columns of the board. */
  datatype Grouped = Grouped(active: seq<Project>, frozen: seq<Project>, archived: seq<Project>)

  /** `groupProjects`: one filter per status. */
  function GroupProjects(ps: seq<Project>): (g: Grouped)
    ensures forall p :: p in g.active <==> p in ps && p.status == Active
    ensures forall p :: p in g.frozen <==> p in ps && p.status == Frozen
    ensures forall p :: p in g.archived <==> p in ps && p.status == Archived
  {
    Grouped(WithStatus(ps, Active), WithStatus(ps, Frozen), WithStatus(ps, Archived))
  }

  /** The three columns together hold the list exactly: every project, as
      often as it occurs, in exactly one column. */
  lemma GroupsPartition(ps: seq<Project>)
    ensures var g := GroupProjects(ps);
            multiset(g.active) + multiset(g.frozen) + multiset(g.archived) == multiset(ps)
  {
    var g := GroupProjects(ps);
    forall p
      ensures (multiset(g.active) + multiset(g.frozen) + multiset(g.archived))[p] == multiset(ps)[p]
    {
      match p.status
      case Active =>
      case Frozen =>
      case Archived =>
    }
  }

  /** The three counts in the header add up to the number of projects. */
  lemma GroupCountsSum(ps: seq<Project>)
    ensures var g := GroupProjects(ps);
            |g.active| + |g.frozen| + |g.archived| == |ps|
  {
    var g := GroupProjects(ps);
    GroupsPartition(ps);
    assert |multiset(g.active) + multiset(g.frozen) + multiset(g.archived)| == |multiset(ps)|;
  }

  /** `ACTIONS_BY_STATUS`: the lifecycle buttons a project in each status
      shows. A status offers an action exactly where the engine accepts it,
      each at most once (the action is the button's key), and an archived
      project gets no lifecycle button. */
  function ActionsByStatus(s: Status): (r: seq<LifecycleAction>)
    ensures forall a :: a in r <==> s in AllowedStatuses(a)
    ensures forall i, j :: 0 <= i < j < |r| ==> r[i] != r[j]
    ensures r == [] <==> s == Archived
  {
    match s
    case Active => [Freeze, Archive, Finish]
    case Frozen => [Launch, Archive, Finish]
    case Archived => []
  }

  /** `SNAPSHOT_ACTIONS`. */
  const SNAPSHOT_ACTIONS: set<LifecycleAction> := {Freeze, Finish}

  /** The button, and so the handler, an action is wired to. */
  datatype Control =
    | OverrideLaunchButton   // handleLaunchAction, or the override ritual
    | SnapshotActionButton   // handleSnapshotAction, with a snapshot
    | LifecycleActionButton  // handleLifecycleAction, without a snapshot

  /** The dispatch of the action buttons: launch goes to the override
      button, freeze and finish, exactly the actions that need a snapshot,
      to the snapshot button, and archive to the plain one. */
  function ControlFor(a: LifecycleAction): (c: Control)
    ensures c == OverrideLaunchButton <==> a == Launch
    ensures c == SnapshotActionButton <==> NeedsSnapshot(a)
    ensures c == LifecycleActionButton <==> a == Archive
  {
    if a == Launch then OverrideLaunchButton
    else if a in SNAPSHOT_ACTIONS then SnapshotActionButton
    else LifecycleActionButton
  }

  /** The restart and delete buttons appear on archived projects only. */
  predicate ShowsRestartAndDelete(p: Project) {
    p.status == Archived
  }

  /** The restart and delete buttons appear exactly where the engine does
      not refuse them for the project's status. */
  lemma ArchivedControlsMatchGuards(m: map<Id, Project>, p: Project, nextAction: string)
    requires p.id != [] && p.id in m && m[p.id] == p
    ensures ShowsRestartAndDelete(p) <==> DeleteRejection(m, p.id).None?
    ensures !ShowsRestartAndDelete(p) ==>
              DeleteRejection(m, p.id) == Some(OnlyArchivedDelete)
              && RestartRejection(m, p.id, nextAction) != None
    ensures ShowsRestartAndDelete(p) ==> RestartRejection(m, p.id, nextAction) != Some(OnlyArchivedRestart)
  {
  }

  /** A draft the board lists as waiting: one without a converted project
      id (an empty id counts as none). */
  predicate IsPending(d: RepoDraft) {
    d.convertedProjectId.None? || d.convertedProjectId.value == []
  }

  /** `pendingDrafts`: the drafts not yet converted, in the order given,
      each kept as often as it occurs. */
  function PendingDrafts(ds: seq<RepoDraft>): (r: seq<RepoDraft>)
    ensures forall d :: multiset(r)[d] == if IsPending(d) then multiset(ds)[d] else 0
    ensures forall d :: d in r <==> d in ds && IsPending(d)
    ensures |r| <= |ds|
    decreases |ds|
  {
    if ds == [] then []
    else
      assert ds == [ds[0]] + ds[1..];
      (if IsPending(ds[0]) then [ds[0]] else []) + PendingDrafts(ds[1..])
  }
}
