/** The project entity, its three statuses and the field validators
    (lib/domain/project.ts). The validators are functions: they have no
    effect besides the error they may throw. */
module Domain {
  import opened Wrappers
  import opened Text
  import opened Errors

  /** An opaque row identifier; the empty string stands for a missing id. */
  type Id = string

  /** An instant. The database stores ISO-8601 strings, whose order is the
      order of the instants; the model keeps only that order. */
  type Timestamp = nat

  datatype Status = Active | Frozen | Archived

  const PROJECT_STATUSES: seq<string> := ["active", "frozen", "archived"]

  const MAX_NEXT_ACTION_LENGTH: nat := 140

  /** A stored project, in the wider shape the adapter reads: the start date
      is null until the first launch and the review time is nullable. */
  datatype Project = Project(
    id: Id,
    name: string,
    narrativeLink: Option<string>,
    whyNow: Option<string>,
    finishDefinition: Option<string>,
    status: Status,
    nextAction: string,
    startDate: Option<Timestamp>,
    finishDate: Option<Timestamp>,
    lastReviewedAt: Option<Timestamp>)

  /** `NewProjectInput`, with the type `S` of its status: raw text as it
      arrives from a form, or a checked `Status`. */
  datatype NewProjectInput<S> = NewProjectInput(
    name: string,
    narrativeLink: Optional<Option<string>>,
    whyNow: Optional<Option<string>>,
    finishDefinition: Optional<Option<string>>,
    status: Optional<S>,
    nextAction: string)

  /** `UpdateProjectInput`, including the `lastReviewedAt` field its callers
      set; every field may be left out. */
  datatype UpdateProjectInput<S> = UpdateProjectInput(
    name: Optional<string>,
    narrativeLink: Optional<Option<string>>,
    whyNow: Optional<Option<string>>,
    finishDefinition: Optional<Option<string>>,
    status: Optional<S>,
    nextAction: Optional<string>,
    lastReviewedAt: Optional<Option<Timestamp>>)

  /** The status as the database and the messages spell it. */
  function StatusName(s: Status): (name: string)
    ensures name in PROJECT_STATUSES
  {
    match s
    case Active => "active"
    case Frozen => "frozen"
    case Archived => "archived"
  }

  /** `assertProjectStatus`: accepts exactly the three known statuses, and
      gives the status it narrowed the text to. */
  function AssertProjectStatus(text: string): (r: Result<Status, Error>)
    ensures r.Ok? <==> text in PROJECT_STATUSES
    ensures r.Ok? ==> StatusName(r.value) == text
    ensures r.Err? ==> r.error == InvalidStatus(text)
  {
    if text == "active" then Ok(Active)
    else if text == "frozen" then Ok(Frozen)
    else if text == "archived" then Ok(Archived)
    else Err(InvalidStatus(text))
  }

  /** Spelling a status and checking the spelling gives the status back. */
  lemma StatusRoundTrip(s: Status)
    ensures AssertProjectStatus(StatusName(s)) == Ok(s)
  {
  }

  /** `assertProjectName`: rejects a name that is empty or only white space. */
  function AssertProjectName(name: string): (r: Outcome<Error>)
    ensures r.Fail? <==> AllSpace(name)
    ensures r.Fail? ==> r.error == NameRequired
  {
    BlankIffAllSpace(name);
    if IsBlank(name) then Fail(NameRequired) else Pass
  }

  /** `assertNextAction`: the trimmed text must be non-empty and at most
      `MAX_NEXT_ACTION_LENGTH` characters long. */
  function AssertNextAction(text: string): (r: Outcome<Error>)
    ensures r == Pass <==> 0 < |Trim(text)| <= MAX_NEXT_ACTION_LENGTH
    ensures r == Fail(NextActionEmpty) <==> AllSpace(text)
    ensures r == Fail(NextActionTooLong) <==> |Trim(text)| > MAX_NEXT_ACTION_LENGTH
  {
    BlankIffAllSpace(text);
    var trimmed := Trim(text);
    if |trimmed| == 0 then Fail(NextActionEmpty)
    else if |trimmed| > MAX_NEXT_ACTION_LENGTH then Fail(NextActionTooLong)
    else Pass
  }

  /** The length limit is inclusive: a next action with nothing to trim is
      accepted exactly when it has at most 140 characters. */
  lemma NextActionLimitIsInclusive(s: string)
    requires IsTrimmed(s) && s != []
    ensures AssertNextAction(s) == Pass <==> |s| <= MAX_NEXT_ACTION_LENGTH
    ensures AssertNextAction(s) == Fail(NextActionTooLong) <==> |s| > MAX_NEXT_ACTION_LENGTH
  {
    TrimOfTrimmed(s);
  }

  /** White space around a next action counts neither for emptiness nor
      toward the limit. */
  lemma NextActionIgnoresPadding(a: string, s: string, b: string)
    requires AllSpace(a) && AllSpace(b)
    ensures AssertNextAction(a + s + b) == AssertNextAction(s)
    ensures AssertProjectName(a + s + b) == AssertProjectName(s)
  {
    TrimIgnoresPadding(a, s, b);
    BlankIffAllSpace(a + s + b);
    BlankIffAllSpace(s);
  }
}
