/** The record shapes the use cases exchange with the storage adapters
    (lib/usecases/ports/projects.ts and lib/usecases/ports/repo-drafts.ts). */
module Ports {
  import opened Wrappers
  import opened Domain

  /** `ProjectSnapshotInput`; an optional field that is undefined and one
      that is null are treated alike by every reader, so both are `None`. */
  datatype SnapshotInput = SnapshotInput(
    summary: string,
    snapshotLabel: Option<string>,
    leftOut: Option<string>,
    futureNote: Option<string>)

  /** `OverrideDecisionInput`. */
  datatype DecisionInput = DecisionInput(reason: string, tradeOff: string)

  /** `OverrideActiveCapInput`. */
  datatype OverrideInput = OverrideInput(
    launchProjectId: Id,
    freezeProjectId: Id,
    snapshot: SnapshotInput,
    decision: DecisionInput,
    maxActive: nat)

  /** The caller's identity; an empty `userId` means nobody is signed in. */
  datatype UserContext = UserContext(userId: string)

  /** A repository imported from GitHub, not yet (or already) converted. */
  datatype RepoDraft = RepoDraft(
    id: Id,
    userId: string,
    githubRepoId: int,
    fullName: string,
    htmlUrl: string,
    description: Option<string>,
    visibility: string,
    defaultBranch: string,
    pushedAt: Option<string>,
    topics: Option<seq<string>>,
    importedAt: Timestamp,
    convertedProjectId: Option<Id>,
    convertedAt: Option<Timestamp>)

  /** `RepoDraftImport`: the repository metadata fetched from GitHub. */
  datatype RepoDraftImport = RepoDraftImport(
    githubRepoId: int,
    fullName: string,
    htmlUrl: string,
    description: Option<string>,
    visibility: string,
    defaultBranch: string,
    pushedAt: Option<string>,
    topics: Optional<Option<seq<string>>>)

  /** `RepoDraftConversionInput`. */
  datatype RepoDraftConversionInput = RepoDraftConversionInput(
    name: string,
    nextAction: string,
    finishDefinition: Optional<Option<string>>)
}
