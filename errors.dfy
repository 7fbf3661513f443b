/** Every failure of the core is a plain `Error` carrying a message; each
    constructor below stands for one message the source throws, and
    `Message` gives its text. */
module Errors {

  /** The message the database raises, and the adapter passes on verbatim,
      when a launch would exceed the active cap. */
  const CAP_SENTINEL: string := "ACTIVE_CAP_REACHED"

  datatype Error =
    // lib/domain/project.ts
    | InvalidStatus(text: string)
    | NameRequired
    | NextActionEmpty
    | NextActionTooLong
    // lib/usecases/projects.ts
    | SummaryRequired
    | ReasonRequired
    | TradeOffRequired
    | ProjectIdRequired
    | NoProjectUpdates
    | ProjectNotFound
    | CannotApply(action: string, status: string)
    | SnapshotRequired
    | StatusChangedBeforeUpdate
    | OverrideNeedsTwoProjects
    | OnlyArchivedRestart
    | OnlyArchivedDelete
    | StatusChangedBeforeDeletion
    // lib/clients/supabase/projects-adapter.ts
    | ActiveCapReached
    | StoreFailed(what: string, cause: string)
    | OverrideNoData
    // lib/clients/supabase/repo-drafts-adapter.ts, lib/usecases/github-drafts.ts
    | MissingUserId
    | NotAuthenticated
    | DraftConversionFailed
    // components/review-gate.tsx
    | NextActionRequired

  /** The text of the thrown `Error`. */
  function Message(e: Error): string {
    match e
    case InvalidStatus(text) => "Invalid project status: " + text
    case NameRequired => "Project name is required."
    case NextActionEmpty => "Next action must not be empty."
    case NextActionTooLong => "Next action must be at most 140 characters."
    case SummaryRequired => "Snapshot summary is required."
    case ReasonRequired => "Decision reason is required."
    case TradeOffRequired => "Decision trade-off is required."
    case ProjectIdRequired => "Project id is required."
    case NoProjectUpdates => "No project updates provided."
    case ProjectNotFound => "Project not found."
    case CannotApply(action, status) => "Cannot " + action + " a " + status + " project."
    case SnapshotRequired => "Snapshot is required for this action."
    case StatusChangedBeforeUpdate =>
      "Project status changed before update; please refresh and try again."
    case OverrideNeedsTwoProjects => "Override requires two different projects."
    case OnlyArchivedRestart => "Only archived projects can be restarted."
    case OnlyArchivedDelete => "Only archived projects can be deleted."
    case StatusChangedBeforeDeletion =>
      "Project status changed before deletion; please refresh and try again."
    case ActiveCapReached => CAP_SENTINEL
    case StoreFailed(what, cause) => "Failed to " + what + ": " + cause
    case OverrideNoData => "Override failed; no data returned."
    case MissingUserId => "Missing user id."
    case NotAuthenticated => "Not authenticated."
    case DraftConversionFailed => "Draft conversion failed."
    case NextActionRequired => "Next action is required."
  }

  /** What the launch button tests to offer the override flow instead of a
      plain failure. */
  predicate IsActiveCapError(e: Error) {
    Message(e) == CAP_SENTINEL
  }

  /** The sentinel is distinguishable: no other error carries its message. */
  lemma CapErrorIsDistinct(e: Error)
    ensures IsActiveCapError(e) <==> e == ActiveCapReached
  {
    match e {
      case InvalidStatus(text) =>
        assert Message(e)[0] == "Invalid project status: "[0];
      case CannotApply(action, status) =>
        assert Message(e)[0] == "Cannot "[0];
      case StoreFailed(what, cause) =>
        assert Message(e)[0] == "Failed to "[0];
      case _ =>
    }
  }

  /** How the adapter turns an error the launch function raised into the
      error it throws: the sentinel passes through, anything else is wrapped. */
  function LaunchFailure(dbMessage: string): (e: Error)
    ensures e == ActiveCapReached <==> dbMessage == CAP_SENTINEL
    ensures dbMessage != CAP_SENTINEL ==> Message(e) == "Failed to launch project: " + dbMessage
  {
    if dbMessage == CAP_SENTINEL then ActiveCapReached
    else StoreFailed("launch project", dbMessage)
  }
}
