/** The weekly review (components/review-gate.tsx): the active projects are
    shown for review, and each decision either replaces the next action or
    freezes or finishes the project, stamping the review time. */
module ReviewGate {
  import opened Wrappers
  import opened Errors
  import opened Domain
  import opened Ports
  import opened Text
  import opened Payloads
  import opened Database
  import opened ProjectsAdapter
  import opened ProjectsUsecases

  /** `ReviewProject`: what the review shows of a project. */
  datatype ReviewProject = ReviewProject(
    id: Id,
    name: string,
    nextAction: string,
    lastReviewedAt: Option<Timestamp>)

  function ReviewView(p: Project): ReviewProject {
    ReviewProject(p.id, p.name, p.nextAction, p.lastReviewedAt)
  }

  /** The active projects of a list, in list order, as the review shows
      them (`filter` then `map`): element by element the views of the
      list's active projects, so each appears as often as in the list. */
  function ActiveReviewList(ps: seq<Project>): (r: seq<ReviewProject>)
    ensures |r| == |WithStatus(ps, Active)|
    ensures forall i :: 0 <= i < |r| ==> r[i] == ReviewView(WithStatus(ps, Active)[i])
    ensures forall v :: v in r <==> exists p :: p in ps && p.status == Active && v == ReviewView(p)
  {
    var w := WithStatus(ps, Active);
    var r := seq(|w|, i requires 0 <= i < |w| => ReviewView(w[i]));
    assert forall v :: v in r ==> exists p :: p in ps && p.status == Active && v == ReviewView(p) by {
      forall v | v in r
        ensures exists p :: p in ps && p.status == Active && v == ReviewView(p)
      {
        var i :| 0 <= i < |r| && r[i] == v;
        assert w[i] in w;
      }
    }
    assert forall p :: p in ps && p.status == Active ==> ReviewView(p) in r by {
      forall p | p in ps && p.status == Active
        ensures ReviewView(p) in r
      {
        var i :| 0 <= i < |w| && w[i] == p;
        assert r[i] == ReviewView(p);
      }
    }
    r
  }

  /** `fetchActiveReviewProjects`: every active project, and nothing else. */
  method FetchActiveReviewProjects(db: Db) returns (r: seq<ReviewProject>)
    requires db.Valid()
    ensures |r| <= |db.projects|
    ensures forall v :: v in r <==>
              exists id :: id in db.projects && db.projects[id].status == Active && v == ReviewView(db.projects[id])
  {
    var projects := FetchProjects(db);
    r := ActiveReviewList(projects);
    forall v | v in r
      ensures exists id :: id in db.projects && db.projects[id].status == Active && v == ReviewView(db.projects[id])
    {
      var p :| p in projects && p.status == Active && v == ReviewView(p);
      assert db.projects[p.id] == p;
    }
    forall id | id in db.projects && db.projects[id].status == Active
      ensures ReviewView(db.projects[id]) in r
    {
      assert db.projects[id] in projects;
    }
  }

  /** `ReviewDecisionAction`. */
  datatype ReviewDecisionAction = NextActionDecision | FreezeDecision | FinishDecision

  /** `ReviewDecisionPayload`: both fields may be left out. */
  datatype ReviewDecisionPayload = ReviewDecisionPayload(
    nextAction: Optional<string>,
    snapshot: Optional<SnapshotInput>)

  /** The lifecycle action a freeze or finish decision runs. */
  function LifecycleOf(action: ReviewDecisionAction): (a: LifecycleAction)
    requires action != NextActionDecision
    ensures NeedsSnapshot(a)
  {
    if action == FreezeDecision then Freeze else Finish
  }

  /** `requireUserContext`: a session with a user id. */
  predicate SignedIn(session: Option<UserContext>) {
    session.Some? && session.value.userId != []
  }

  /** The update a next-action decision asks for. */
  function NextActionReview(text: string, reviewedAt: Timestamp): UpdateProjectInput<string> {
    UpdateProjectInput(Undefined, Undefined, Undefined, Undefined, Undefined, Defined(text), Defined(Some(reviewedAt)))
  }

  /** The update that records the review time after a lifecycle decision. */
  function ReviewStamp(reviewedAt: Timestamp): UpdateProjectInput<string> {
    UpdateProjectInput(Undefined, Undefined, Undefined, Undefined, Undefined, Undefined, Defined(Some(reviewedAt)))
  }

  /** A next-action review changes exactly the next action, trimmed, and
      the review time. */
  lemma NextActionReviewEffect(p: Project, u: UpdateProjectInput<Status>, text: string, reviewedAt: Timestamp)
    requires IsNormalizedUpdateOf(u, NextActionReview(text, reviewedAt))
    ensures ApplyUpdate(p, u) == p.(nextAction := Trim(text), lastReviewedAt := Some(reviewedAt))
  {
  }

  /** The review stamp changes exactly the review time. */
  lemma ReviewStampEffect(p: Project, u: UpdateProjectInput<Status>, reviewedAt: Timestamp)
    requires IsNormalizedUpdateOf(u, ReviewStamp(reviewedAt))
    ensures ApplyUpdate(p, u) == p.(lastReviewedAt := Some(reviewedAt))
  {
  }

  /** The outcome of a store call whose value is not needed. */
  function Completion<T>(r: Result<T, Error>): (o: Outcome<Error>)
    ensures o.Pass? <==> r.Ok?
    ensures r.Err? ==> o == Fail(r.error)
  {
    match r
    case Ok(_) => Pass
    case Err(e) => Fail(e)
  }

  /** `applyReviewDecision`: a signed-in caller either replaces the next
      action and stamps the review in one update, or runs a freeze or
      finish with its snapshot and, only once that succeeds, stamps the
      review with the time taken at the start. `reviewedAt` is the server's
      clock read before any call; `now` is the store's clock, with which the
      database stamps a first finish. */
  method ApplyReviewDecision(db: Db, session: Option<UserContext>, projectId: Id, action: ReviewDecisionAction,
                             payload: ReviewDecisionPayload, reviewedAt: Timestamp, now: Timestamp)
    returns (r: Outcome<Error>)
    requires db.Valid()
    modifies db
    ensures db.Valid()
    ensures unchanged(db`decisions, db`drafts)
    ensures !SignedIn(session) ==> r == Fail(NotAuthenticated) && unchanged(db)
    ensures SignedIn(session) && action == NextActionDecision
            && (payload.nextAction.Undefined? || payload.nextAction.value == []) ==>
              r == Fail(NextActionRequired) && unchanged(db)
    ensures SignedIn(session) && action == NextActionDecision
            && payload.nextAction.Defined? && payload.nextAction.value != [] ==>
              var text := payload.nextAction.value;
              db.snapshots == old(db.snapshots)
              && (projectId == [] ==> r == Fail(ProjectIdRequired) && db.projects == old(db.projects))
              && (projectId != [] && AssertNextAction(text).Fail? ==>
                    r == Fail(AssertNextAction(text).error) && db.projects == old(db.projects))
              && (projectId != [] && AssertNextAction(text) == Pass && projectId !in old(db.projects) ==>
                    r == Fail(StoreFailed("update project", NO_SINGLE_ROW)) && db.projects == old(db.projects))
              && (projectId != [] && AssertNextAction(text) == Pass && projectId in old(db.projects) ==>
                    r == Pass
                    && db.projects == old(db.projects)[projectId :=
                         old(db.projects)[projectId].(nextAction := Trim(text), lastReviewedAt := Some(reviewedAt))])
    ensures SignedIn(session) && action != NextActionDecision && payload.snapshot.Undefined? ==>
              r == Fail(SnapshotRequired) && unchanged(db)
    ensures SignedIn(session) && action != NextActionDecision && payload.snapshot.Defined? ==>
              var a := LifecycleOf(action);
              var rejection := LifecycleRejection(old(db.projects), projectId, a, Some(payload.snapshot.value));
              (rejection.Some? ==> r == Fail(rejection.value) && unchanged(db))
              && (rejection.None? ==>
                    r == Pass
                    && db.projects == old(db.projects)[projectId :=
                         Transitioned(a, old(db.projects)[projectId], now).(lastReviewedAt := Some(reviewedAt))]
                    && db.snapshots == old(db.snapshots) + SnapshotRecord(a, projectId, Some(payload.snapshot.value)))
    ensures ActiveCount(db.projects) <= old(ActiveCount(db.projects))
  {
    if !SignedIn(session) {
      return Fail(NotAuthenticated);
    }

    if action == NextActionDecision {
      if payload.nextAction.Undefined? || payload.nextAction.value == [] {
        return Fail(NextActionRequired);
      }
      var text := payload.nextAction.value;
      if projectId in db.projects {
        var p := db.projects[projectId];
        forall u | IsNormalizedUpdateOf(u, NextActionReview(text, reviewedAt))
          ensures ApplyUpdate(p, u) == p.(nextAction := Trim(text), lastReviewedAt := Some(reviewedAt))
        {
          NextActionReviewEffect(p, u, text, reviewedAt);
        }
        ActiveCountAfterSet(db.projects, projectId, p.(nextAction := Trim(text), lastReviewedAt := Some(reviewedAt)));
      }
      var updated := ProjectsUsecases.UpdateProject(db, projectId, NextActionReview(text, reviewedAt));
      return Completion(updated);
    }

    if payload.snapshot.Undefined? {
      return Fail(SnapshotRequired);
    }
    var a := LifecycleOf(action);
    if projectId in db.projects && db.projects[projectId].status in AllowedStatuses(a) {
      TransitionKeepsCap(db.projects, projectId, a, now);
    }
    var applied := ApplyLifecycleAction(db, projectId, a, Some(payload.snapshot.value), now);
    if applied.Err? {
      return Fail(applied.error);
    }
    forall u | IsNormalizedUpdateOf(u, ReviewStamp(reviewedAt))
      ensures ApplyUpdate(db.projects[projectId], u) == db.projects[projectId].(lastReviewedAt := Some(reviewedAt))
    {
      ReviewStampEffect(db.projects[projectId], u, reviewedAt);
    }
    ActiveCountAfterSet(db.projects, projectId, db.projects[projectId].(lastReviewedAt := Some(reviewedAt)));
    var stamped := ProjectsUsecases.UpdateProject(db, projectId, ReviewStamp(reviewedAt));
    r := Completion(stamped);
  }
}
