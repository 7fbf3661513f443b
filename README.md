# pcengine lifecycle engine in Dafny

This project models the project lifecycle engine of pcengine, a tracker for a small portfolio of
personal projects. Each project is `active`, `frozen` or `archived`. The engine enforces four rules:

- A launch, or a new active project, is refused once 3 projects are active.
- A freeze or a finish records a snapshot, and the snapshot's summary may not be blank.
- Archive and delete are conditional writes on the status just read.
- An override swaps one active project for one frozen one and records the decision.

Besides the engine, the model covers:

- the import of GitHub repositories as drafts, and their conversion into projects;
- the weekly review that freezes, finishes or re-plans active projects;
- the board that groups projects and wires each lifecycle button to its handler.

Layout, one module per source file or concept:

| file | module | models |
|---|---|---|
| `wrappers.dfy` | `Wrappers` | `Option` (null), `Optional` (an optional property), `Result`, `Outcome` (a validator that may throw) |
| `text.dfy` | `Text` | `String.prototype.trim` over ECMAScript white space and line terminators |
| `errors.dfy` | `Errors` | one constructor per thrown message; `Message` gives the literal text |
| `domain.dfy` | `Domain` | lib/domain/project.ts |
| `ports.dfy` | `Ports` | the record shapes of lib/usecases/ports |
| `payloads.dfy` | `Payloads` | the pure normalisers of lib/usecases/projects.ts |
| `sorting.dfy` | `Sorting` | the `ORDER BY … DESC` the adapters ask for |
| `database.dfy` | `Database` | the tables (`class Db`) and the database functions whose SQL bodies are not part of this model |
| `projects_adapter.dfy` | `ProjectsAdapter` | lib/clients/supabase/projects-adapter.ts |
| `projects_usecases.dfy` | `ProjectsUsecases` | lib/usecases/projects.ts |
| `drafts_adapter.dfy` | `RepoDraftsAdapter` | lib/clients/supabase/repo-drafts-adapter.ts |
| `github_drafts.dfy` | `GithubDrafts` | lib/usecases/github-drafts.ts |
| `review_gate.dfy` | `ReviewGate` | components/review-gate.tsx |
| `board.dfy` | `Board` | app/protected/page.tsx |

How the store is modelled:

- **The store is one `Db` object.** It holds projects as a `map<Id, Project>`, snapshots and decisions as `seq`s, and drafts as a `seq<RepoDraft>`. Every port method takes it and states its effect with `modifies db`. `Db.Valid()` holds two facts:
  - every project is stored under its own id;
  - the drafts table keeps its uniqueness constraints.
- **Hidden database functions are assumed.** The SQL bodies of these functions are not part of the repository:
  - `create_project_with_active_cap`
  - `launch_project_with_active_cap`
  - `freeze_project_with_snapshot` and `finish_project_with_snapshot`
  - `override_active_cap_with_freeze`
  - `convert_repo_draft_to_project_service`

  Each is an atomic `Db` method. Its contract is an **assumption** that says what the TypeScript relies on: which rows it answers with, the cap it raises, and the snapshot or decision row it appends. It is not a statement about the SQL.
- **Inputs from the environment are parameters.** Timestamps (the store's clock `now`, and the server's clock `reviewedAt` in the review gate) and the ids the tables' defaults generate (`newId`, `newIds`) are passed in. Their freshness is a precondition.

Every use case that can change the projects table states the cap invariant:
`old(ActiveCount(db.projects)) <= 3 ==> ActiveCount(db.projects) <= 3`.
Most state the stronger fact that the count does not change at all.

## Model

| member | source | states |
|---|---|---|
| Text.Trim | lib/domain/project.ts:56 | `trim()` never lengthens a string; with `TrimShape` it removes exactly the white space at both ends |
| Text.TrimShape | lib/domain/project.ts:56 | a trimmed string has no white space at either end, is no longer than the input, and is a contiguous piece of it |
| Text.TrimIdempotent | lib/usecases/projects.ts:58 | trimming twice is trimming once |
| Text.BlankIffAllSpace | lib/domain/project.ts:46 | `trim().length === 0` holds exactly for strings made only of white space |
| Text.TrimIgnoresPadding | lib/domain/project.ts:56 | white space added around a string does not change its trimmed form |
| Errors.CapErrorIsDistinct | lib/clients/supabase/projects-adapter.ts:254-256 | the message `ACTIVE_CAP_REACHED` belongs to the cap error and to no other error |
| Errors.LaunchFailure | lib/clients/supabase/projects-adapter.ts:254-259 | a database error whose message is the sentinel is rethrown as the sentinel; any other becomes "Failed to launch project: " + message |
| Domain.StatusName | lib/domain/project.ts:1 | every status is spelled as one of `PROJECT_STATUSES` |
| Domain.AssertProjectStatus | lib/domain/project.ts:37-43 | accepts exactly "active", "frozen" and "archived", narrowing to that status; any other text fails with "Invalid project status: " + text |
| Domain.StatusRoundTrip | lib/domain/project.ts:1-3 | checking a status's own spelling gives that status back |
| Domain.AssertProjectName | lib/domain/project.ts:45-49 | fails with "Project name is required." exactly when the name is empty or all white space |
| Domain.AssertNextAction | lib/domain/project.ts:51-67 | passes exactly when the trimmed text has 1 to 140 characters; "must not be empty" exactly when it is all white space; "at most 140" exactly when the trimmed length exceeds 140 |
| Domain.NextActionLimitIsInclusive | lib/domain/project.ts:62-66 | a next action with nothing to trim is accepted exactly when its length is at most 140 (140 passes) |
| Domain.NextActionIgnoresPadding | lib/domain/project.ts:56-62 | surrounding white space changes neither the next-action verdict nor the name verdict |
| Payloads.NormalizeSnapshotValue | lib/usecases/projects.ts:43-50 | null exactly for a missing or blank value, otherwise the trimmed value; the result is always normalised |
| Payloads.NormalizeSnapshotValueIdempotent | lib/usecases/projects.ts:43-50 | normalising a snapshot value twice equals normalising it once |
| Payloads.BuildSnapshotPayload | lib/usecases/projects.ts:52-63 | fails with "Snapshot summary is required." exactly when the summary is blank; otherwise the summary is trimmed and label, left-out and future note are normalised |
| Payloads.BuildSnapshotPayloadIdempotent | lib/usecases/projects.ts:52-63 | building a payload from a built payload gives the same payload |
| Payloads.BuildSnapshotPayloadFixesNormalized | lib/usecases/projects.ts:52-63 | a payload that is already normalised is its own result |
| Payloads.BuildDecisionPayload | lib/usecases/projects.ts:65-81 | the reason is checked before the trade-off; it fails exactly when either is blank; on success both are trimmed and non-empty |
| Payloads.NormalizeProjectInput | lib/usecases/projects.ts:83-98 | name checked, then next action, then status (default "active"); on success name and next action are trimmed and the optional texts are set or null |
| Payloads.DefaultStatusIsActive | lib/usecases/projects.ts:87-88 | an input without a status is normalised to `active` |
| Payloads.NormalizeProjectUpdates | lib/usecases/projects.ts:100-135 | only the fields present are checked, in the order name, status, next action; the first failure is the error; on success the update carries exactly the present fields, normalised |
| Payloads.NormalizedUpdateEmptiness | lib/usecases/projects.ts:100-135 | the normalised update is empty exactly when the input named no field |
| Sorting.SortDesc | lib/clients/supabase/projects-adapter.ts:146-158 | the result is ordered by the key, largest first, and is a permutation of the input |
| Database.ActiveCountAfterSet | lib/usecases/projects.ts:29 | replacing one row changes the active count by what that row contributes before and after |
| Database.LaunchAddsOneActive | lib/clients/supabase/projects-adapter.ts:245-268 | launching a frozen project adds exactly one active project |
| Database.OverrideKeepsActiveCount | lib/clients/supabase/projects-adapter.ts:287-313 | freezing one active project and launching one frozen project leaves the active count unchanged |
| Database.FindDraft | lib/clients/supabase/repo-drafts-adapter.ts:94-99 | finds the position of the draft with that id and owner, or reports that none exists |
| Database.FindRepo | lib/clients/supabase/repo-drafts-adapter.ts:58-60 | finds the user's draft of that repository (the upsert conflict key), or reports that none exists |
| Database.UpsertOne | lib/clients/supabase/repo-drafts-adapter.ts:58-60 | one row on `ON CONFLICT (user_id, github_repo_id) DO UPDATE`: an existing draft with the key takes the row's columns and keeps its id and conversion, every other draft is untouched; without one, a new unconverted draft with the fresh id is appended |
| Database.ApplyUpsert | lib/clients/supabase/repo-drafts-adapter.ts:58-60 | a batch upsert keeps every stored draft and adds at most one draft per row |
| Database.UpsertKeepsConversions | lib/clients/supabase/repo-drafts-adapter.ts:45-60 | an upsert never changes a stored draft's id, owner, repository, `converted_project_id` or `converted_at`; the drafts it adds are unconverted |
| Database.UpsertTouchesOnlyOwner | lib/clients/supabase/repo-drafts-adapter.ts:45-60 | an upsert of one user's rows leaves every other user's drafts as they were |
| Database.UpsertKeepsWellFormed | lib/clients/supabase/repo-drafts-adapter.ts:58-60 | an upsert with fresh ids keeps draft ids unique and `(user_id, github_repo_id)` unique |
| Database.UpsertStoresEveryRow | lib/clients/supabase/repo-drafts-adapter.ts:45-60 | after an upsert of a batch without duplicate keys, every row's columns are stored |
| Database.StoredSurvivesUpsert | lib/clients/supabase/repo-drafts-adapter.ts:58-60 | a stored row stays stored through an upsert of other keys |
| Database.Db.SelectProjects | lib/clients/supabase/projects-adapter.ts:146-151 | every stored project appears, each under its own id, and the row count equals the table size |
| Database.Db.CreateWithActiveCap | lib/clients/supabase/projects-adapter.ts:119-131 | (assumed) raises `ACTIVE_CAP_REACHED` and inserts nothing when the active count is already at the limit; otherwise inserts the row |
| Database.Db.LaunchWithActiveCap | lib/clients/supabase/projects-adapter.ts:245-268 | (assumed) no row for a missing or non-frozen project; the sentinel at the cap; otherwise the project becomes active with its first start date stamped |
| Database.Db.FreezeWithSnapshot | lib/clients/supabase/projects-adapter.ts:193-217 | (assumed) no row unless the project is active; otherwise it is frozen and one freeze snapshot is appended |
| Database.Db.FinishWithSnapshot | lib/clients/supabase/projects-adapter.ts:219-243 | (assumed) no row for a missing or archived project; otherwise it is archived with its first finish date stamped, and one finish snapshot is appended |
| Database.Db.OverrideWithFreeze | lib/clients/supabase/projects-adapter.ts:287-313 | (assumed) when both projects exist, differ, the first is frozen and the second active, the two are swapped and one snapshot and one decision are appended; otherwise nothing happens |
| Database.Db.ConvertDraft | lib/clients/supabase/repo-drafts-adapter.ts:117-126 | (assumed) the caller's unconverted draft becomes a frozen project linked to its repository URL and is marked converted, together; a missing or converted draft changes nothing |
| ProjectsAdapter.StoreSnapshotPayload | lib/clients/supabase/projects-adapter.ts:45-61 | the adapter's payload has the trimmed summary and normalised optional values |
| ProjectsAdapter.StoreSnapshotPayloadAgrees | lib/clients/supabase/projects-adapter.ts:54-61 | on every snapshot the use case accepts, the adapter builds the same payload as the use case |
| ProjectsAdapter.StoreSnapshotPayloadFixesNormalized | lib/clients/supabase/projects-adapter.ts:54-61 | the payload the use case hands over passes through the adapter's normalisation unchanged |
| ProjectsAdapter.BuildProjectInsert | lib/clients/supabase/projects-adapter.ts:63-77 | status defaults to active; start date set exactly when active; finish date and last review null; name and next action trimmed; optional texts or null |
| ProjectsAdapter.InsertKeepsNormalizedText | lib/clients/supabase/projects-adapter.ts:63-77 | a row built from accepted input keeps the use case's trimmed name and next action |
| ProjectsAdapter.InsertKeepsRequestedStatus | lib/clients/supabase/projects-adapter.ts:63-77 | a row built from accepted input has the requested status (active by default) and a start date exactly when that is active |
| ProjectsAdapter.BuildProjectUpdate | lib/clients/supabase/projects-adapter.ts:79-111 | the update row holds exactly the fields present, with name and next action trimmed; an input with nothing to trim is returned as it is |
| ProjectsAdapter.NormalizedUpdateIsTrimmed | lib/usecases/projects.ts:100-135 | an update the use case normalised has nothing left to trim |
| ProjectsAdapter.ApplyUpdate | lib/clients/supabase/projects-adapter.ts:160-176 | each field the update holds takes its value; every absent field, the id and both dates stay as stored |
| ProjectsAdapter.EmptyUpdateChangesNothing | lib/clients/supabase/projects-adapter.ts:79-111 | an update that sets no field leaves the project unchanged |
| ProjectsAdapter.ApplyUpdateIdempotent | lib/clients/supabase/projects-adapter.ts:160-176 | applying the same update twice is applying it once |
| ProjectsAdapter.StartKey | lib/clients/supabase/projects-adapter.ts:151 | the sort key of `start_date desc nulls last`: a project has the lowest key exactly when it was never started |
| ProjectsAdapter.StartOrderMeaning | lib/clients/supabase/projects-adapter.ts:150-151 | in `start_date desc nulls last` order, never-started projects come after every started one, and later starts come first |
| ProjectsAdapter.FetchProjects | lib/clients/supabase/projects-adapter.ts:146-158 | every stored project exactly once, ordered by start date, latest first, never-started last |
| ProjectsAdapter.FetchProjectById | lib/clients/supabase/projects-adapter.ts:178-191 | the stored project with that id, or null when there is none |
| ProjectsAdapter.CreateProject | lib/clients/supabase/projects-adapter.ts:114-144 | the cap-checked path is taken only when asked for and the row is active; at the cap it fails with "Failed to create project: ACTIVE_CAP_REACHED" and inserts nothing; otherwise the built row is inserted |
| ProjectsAdapter.UpdateProject | lib/clients/supabase/projects-adapter.ts:160-176 | a missing row fails; otherwise the stored project takes the update row's fields |
| ProjectsAdapter.FreezeProjectWithSnapshot | lib/clients/supabase/projects-adapter.ts:193-217 | no row from the database becomes "Project status changed before update; …"; otherwise the frozen project |
| ProjectsAdapter.FinishProjectWithSnapshot | lib/clients/supabase/projects-adapter.ts:219-243 | no row from the database becomes "Project status changed before update; …"; otherwise the finished project |
| ProjectsAdapter.LaunchProjectWithActiveCap | lib/clients/supabase/projects-adapter.ts:245-268 | the sentinel is rethrown verbatim, other errors are wrapped, and a launched project is returned |
| ProjectsAdapter.ArchiveProject | lib/clients/supabase/projects-adapter.ts:270-285 | only the status changes, to archived, and only when the stored status equals the expected one; otherwise null and nothing changes |
| ProjectsAdapter.OverrideActiveCapWithFreeze | lib/clients/supabase/projects-adapter.ts:287-313 | the snapshot is normalised and reason and trade-off trimmed before the single database call; no row fails with "Override failed; no data returned." |
| ProjectsAdapter.RestartedProject | lib/clients/supabase/projects-adapter.ts:335-348 | the new cycle is frozen, copies name, link, why-now and finish definition, has the trimmed next action and no dates |
| ProjectsAdapter.RestartArchivedProject | lib/clients/supabase/projects-adapter.ts:315-361 | the source must exist and be archived; a new frozen row is inserted and the source is untouched; the active count does not change |
| ProjectsAdapter.DeleteArchivedProject | lib/clients/supabase/projects-adapter.ts:363-378 | removes the row exactly when it is archived and answers true exactly then |
| ProjectsUsecases.AllowedStatuses | lib/usecases/projects.ts:23-28 | every action may start from some status, and no action starts from archived |
| ProjectsUsecases.TargetStatus | lib/usecases/projects.ts:199-234 | an action never leads to a status it may start from, and only a launch leads to active |
| ProjectsUsecases.Transitioned | lib/usecases/projects.ts:199-234 | an accepted action sets the target status, stamps the first start (launch) or first finish (finish), and changes nothing else |
| ProjectsUsecases.LifecycleRejection | lib/usecases/projects.ts:189-213 | the checks run in order: id required, "Project not found.", "Cannot <action> a <status> project.", snapshot required, then summary required (each stated on its own); an action passes exactly when the project exists in an allowed status and, for freeze or finish, comes with a non-blank summary |
| ProjectsUsecases.TransitionKeepsCap | lib/usecases/projects.ts:199-234 | no accepted action other than launch adds an active project |
| ProjectsUsecases.CreateProject | lib/usecases/projects.ts:141-152 | invalid input fails before any write; the cap (limit 3) applies exactly when the new project is active; otherwise the built row is stored |
| ProjectsUsecases.UpdateRejection | lib/usecases/projects.ts:154-167 | an empty id fails first; then the present fields are checked; then an update naming no field fails with "No project updates provided." |
| ProjectsUsecases.UpdateProject | lib/usecases/projects.ts:154-170 | a rejected update writes nothing; otherwise the stored project takes exactly the normalised fields |
| ProjectsUsecases.UpdateCanActivate | lib/usecases/projects.ts:154-170 | an update that sets an inactive project to active adds one active project, with no cap check |
| ProjectsUsecases.FetchProjectById | lib/usecases/projects.ts:172-181 | an empty id fails; otherwise the stored project or null |
| ProjectsUsecases.ApplyLifecycleAction | lib/usecases/projects.ts:183-235 | a rejected action writes nothing; a launch at the cap fails with the sentinel; otherwise the project is transitioned and freeze and finish append their snapshot; the cap invariant is kept |
| ProjectsUsecases.OverrideRejection | lib/usecases/projects.ts:244-253 | missing id, then equal ids, are refused before any payload check; then summary, reason and trade-off are checked in that order |
| ProjectsUsecases.OverrideActiveCap | lib/usecases/projects.ts:237-262 | after the checks, one store call swaps the two projects and records the snapshot and the decision; the active count is unchanged |
| ProjectsUsecases.RestartRejection | lib/usecases/projects.ts:269-285 | id first, then the next action (before any read), then existence, then archived status, then the stored name |
| ProjectsUsecases.RestartArchivedProject | lib/usecases/projects.ts:264-288 | a rejected restart writes nothing; otherwise a new frozen cycle with a valid, trimmed next action is inserted; the active count is unchanged |
| ProjectsUsecases.DeleteRejection | lib/usecases/projects.ts:294-306 | a delete passes the checks exactly when the project exists and is archived |
| ProjectsUsecases.DeleteArchivedProject | lib/usecases/projects.ts:290-315 | only an archived project is removed; a store that removes nothing fails with "Project status changed before deletion; …" |
| RepoDraftsAdapter.UpsertRow | lib/clients/supabase/repo-drafts-adapter.ts:45-56 | each row carries the caller's id, the repository id, the import time, and the topics or null |
| RepoDraftsAdapter.UpsertPayload | lib/clients/supabase/repo-drafts-adapter.ts:45-56 | one row per imported repository, in order, each built from that repository |
| RepoDraftsAdapter.PayloadKeysUnique | lib/clients/supabase/repo-drafts-adapter.ts:58-60 | the payload's conflict keys are unique exactly when no repository appears twice in the batch |
| RepoDraftsAdapter.UpsertRepoDrafts | lib/clients/supabase/repo-drafts-adapter.ts:34-67 | an empty batch returns 0 before the user check; an empty user id fails; otherwise the batch is upserted on `(user_id, github_repo_id)` and its length returned, with conversions kept and other users untouched |
| RepoDraftsAdapter.OwnedBy | lib/clients/supabase/repo-drafts-adapter.ts:78 | keeps exactly the drafts of the given user, each as often as it occurs in the table |
| RepoDraftsAdapter.FetchRepoDrafts | lib/clients/supabase/repo-drafts-adapter.ts:69-86 | an empty user id fails; otherwise exactly the caller's drafts, newest import first |
| RepoDraftsAdapter.FetchRepoDraftById | lib/clients/supabase/repo-drafts-adapter.ts:88-106 | an empty user id fails; a draft is returned exactly when one has both that id and that owner |
| RepoDraftsAdapter.ConvertRepoDraft | lib/clients/supabase/repo-drafts-adapter.ts:108-137 | an empty user id fails; name and next action are trimmed; no project id back fails with "Draft conversion failed."; the active count is unchanged |
| GithubDrafts.RequireUserContext | lib/usecases/github-drafts.ts:13-19 | passes the context through exactly when it has a user id; otherwise "Not authenticated." |
| GithubDrafts.UpsertRepoDrafts | lib/usecases/github-drafts.ts:21-31 | an empty batch returns 0 without a user check or a write; otherwise the user is checked, then the port's result is returned |
| GithubDrafts.FetchRepoDrafts | lib/usecases/github-drafts.ts:33-38 | the user is checked before the store; the result is the port's: the caller's drafts, each once per stored row, newest import first |
| GithubDrafts.FetchRepoDraftById | lib/usecases/github-drafts.ts:40-46 | the user is checked before the store; the result is the port's |
| GithubDrafts.ConvertRepoDraft | lib/usecases/github-drafts.ts:48-55 | the user is checked before the store; the result is the port's |
| GithubDrafts.ConvertTwice | lib/usecases/github-drafts.ts:48-55 | when a conversion succeeds, converting the same draft again fails and creates no second project |
| ReviewGate.ActiveReviewList | components/review-gate.tsx:23-30 | element by element the list's active projects in list order, each reduced to id, name, next action and last review |
| ReviewGate.FetchActiveReviewProjects | components/review-gate.tsx:20-31 | the review shows exactly the stored active projects |
| ReviewGate.NextActionReviewEffect | components/review-gate.tsx:58-61 | a next-action decision changes exactly the next action (trimmed) and the review time |
| ReviewGate.ReviewStampEffect | components/review-gate.tsx:72-74 | the review stamp changes exactly the review time |
| ReviewGate.ApplyReviewDecision | components/review-gate.tsx:43-75 | sign-in first; a next-action decision without text fails, otherwise one update sets next action and review time; a freeze or finish needs a snapshot, runs the action first, and only after it succeeds stamps the review with the time taken at the start; the first finish date comes from the store's own clock |
| Database.WithStatus | app/protected/page.tsx:137-139 | keeps exactly the projects with that status, each as often as it occurs in the list |
| Board.GroupProjects | app/protected/page.tsx:135-141 | each column holds exactly the projects of its status |
| Board.GroupsPartition | app/protected/page.tsx:135-141 | the three columns together hold every project exactly as often as the list does |
| Board.GroupCountsSum | app/protected/page.tsx:286-288 | the three header counts add up to the number of projects |
| Board.ActionsByStatus | app/protected/page.tsx:53-57 | a status offers an action exactly when the engine allows that action from that status, each action at most once; archived offers none |
| Board.ControlFor | app/protected/page.tsx:194-218 | launch goes to the override button; freeze and finish, exactly the actions that need a snapshot, go to the snapshot button; archive goes to the plain button |
| Board.ArchivedControlsMatchGuards | app/protected/page.tsx:223-234 | restart and delete are shown exactly for the projects whose status the engine's restart and delete accept |
| Board.PendingDrafts | app/protected/page.tsx:302 | keeps exactly the drafts without a converted project id, each as often as it occurs |

## Left out

- Transport and database failures are not modelled: network errors, Postgres errors, and the `Failed to …: <message>` wrappers around them. Two are kept: an update of a missing row (`.single()`) and an import batch that names one key twice.
- The `.single()` text "Cannot coerce the result to a single JSON object" depends on the PostgREST version.
- Concurrency is out of scope: every store call is one atomic step. The "status changed before update/deletion" errors can therefore never arise after the use case's own read. They are kept as the outcome of a store call that changes nothing.
- The SQL bodies of the six database functions named above are not part of this model. Their contracts are assumptions. In particular, whether `override_active_cap_with_freeze` uses `max_active` is not known; the model's override needs no cap check, because the swap keeps the count.
- "Project creation failed; no data returned." and "Project restart failed; no data returned." cannot arise: the model's insert always returns the inserted row.
- The `typeof … !== "string"` checks, including "Next action must be a string.", are left out. The model's types rule such input out.
- Domain.AssertNextAction: lengths count Unicode scalar values, while JavaScript counts UTF-16 code units, so a next action with characters outside the Basic Multilingual Plane can be measured differently.
- `toProject` and `toRepoDraft` are the identity, since the store holds `Project` and `RepoDraft` values. Timestamps are opaque naturals.
- The thin use case `fetchProjects` and the board's server actions (`handleLifecycleAction`, `handleLaunchAction`, `handleSnapshotAction`, `handleOverrideRitual`, `handleRestartCycle`, `handleDeleteProject`) are one-line delegations. They are not modelled separately: the board's dispatch is modelled by `Board.ControlFor`.
- Left out as UI and I/O: the React components, the review overlay's week and staleness logic, OAuth and the GitHub HTTP calls, the new-project form page, and the authentication wrappers. The review gate's sign-in is a `session` parameter.
- ProjectsUsecases.UpdateProject: like the source, it applies no active cap to a status change (`UpdateCanActivate`), so it carries no cap invariant. No caller in the repository sets a status through it.
- RepoDraftsAdapter.ConvertRepoDraft: the code does not validate name or next action before conversion. What the database function checks is not known, so the model accepts any text.

Behaviour of the code as written that the model keeps:

- the default status of a new project is `active`;
- on create, an empty optional text is stored as given, not nulled (only `?? null` applies);
- the cap error on create is wrapped as "Failed to create project: ACTIVE_CAP_REACHED";
- a failed conversion reports "Draft conversion failed." rather than a dedicated already-converted error;
- the conversion RPC called (`convert_repo_draft_to_project_service`) is not the one declared in the database types.
