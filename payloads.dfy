/** The normalisers of lib/usecases/projects.ts: snapshot and decision
    payloads, and the checked, trimmed forms of new-project and update
    input that the use cases hand to the store. */
module Payloads {
  import opened Wrappers
  import opened Text
  import opened Errors
  import opened Domain
  import opened Ports

  const DEFAULT_STATUS: Status := Active

  /** What a freeze or finish records. */
  datatype SnapshotPayload = SnapshotPayload(
    summary: string,
    snapshotLabel: Option<string>,
    leftOut: Option<string>,
    futureNote: Option<string>)

  /** Why a launch went over the active cap. */
  datatype DecisionPayload = DecisionPayload(reason: string, tradeOff: string)

  /** An optional text as stored: absent, or non-empty with nothing to trim. */
  predicate IsNormalizedValue(v: Option<string>) {
    v.None? || (v.value != [] && IsTrimmed(v.value))
  }

  /** A snapshot as stored: a non-empty trimmed summary and normalised
      optional fields. */
  predicate IsNormalizedSnapshot(p: SnapshotPayload) {
    p.summary != [] && IsTrimmed(p.summary)
    && IsNormalizedValue(p.snapshotLabel) && IsNormalizedValue(p.leftOut) && IsNormalizedValue(p.futureNote)
  }

  /** The payload read back as the input type the store ports accept. */
  function AsInput(p: SnapshotPayload): SnapshotInput {
    SnapshotInput(p.summary, p.snapshotLabel, p.leftOut, p.futureNote)
  }

  /** `normalizeSnapshotValue`: an absent or blank value becomes null,
      anything else is trimmed. */
  function NormalizeSnapshotValue(value: Option<string>): (r: Option<string>)
    ensures r.None? <==> value.None? || AllSpace(value.value)
    ensures r.Some? ==> r.value == Trim(value.value)
    ensures IsNormalizedValue(r)
  {
    match value
    case None => None
    case Some(text) =>
      BlankIffAllSpace(text);
      TrimShape(text);
      var trimmed := Trim(text);
      if |trimmed| > 0 then Some(trimmed) else None
  }

  /** Normalising a value twice is normalising it once. */
  lemma NormalizeSnapshotValueIdempotent(value: Option<string>)
    ensures NormalizeSnapshotValue(NormalizeSnapshotValue(value)) == NormalizeSnapshotValue(value)
  {
    if value.Some? {
      TrimIdempotent(value.value);
    }
  }

  /** `buildSnapshotPayload` of the use cases: a blank summary is rejected,
      otherwise every field is normalised. */
  function BuildSnapshotPayload(input: SnapshotInput): (r: Result<SnapshotPayload, Error>)
    ensures r.Err? <==> AllSpace(input.summary)
    ensures r.Err? ==> r.error == SummaryRequired
    ensures r.Ok? ==> IsNormalizedSnapshot(r.value) && r.value.summary == Trim(input.summary)
    ensures r.Ok? ==> r.value.snapshotLabel == NormalizeSnapshotValue(input.snapshotLabel)
                      && r.value.leftOut == NormalizeSnapshotValue(input.leftOut)
                      && r.value.futureNote == NormalizeSnapshotValue(input.futureNote)
  {
    BlankIffAllSpace(input.summary);
    TrimShape(input.summary);
    if IsBlank(input.summary) then Err(SummaryRequired)
    else Ok(SnapshotPayload(
      Trim(input.summary),
      NormalizeSnapshotValue(input.snapshotLabel),
      NormalizeSnapshotValue(input.leftOut),
      NormalizeSnapshotValue(input.futureNote)))
  }

  /** A normalised value passes through the normaliser unchanged. */
  lemma NormalizeSnapshotValueFixesNormalized(v: Option<string>)
    requires IsNormalizedValue(v)
    ensures NormalizeSnapshotValue(v) == v
  {
    if v.Some? {
      TrimOfTrimmed(v.value);
    }
  }

  /** A normalised snapshot passes through the builder unchanged. */
  lemma BuildSnapshotPayloadFixesNormalized(p: SnapshotPayload)
    requires IsNormalizedSnapshot(p)
    ensures BuildSnapshotPayload(AsInput(p)) == Ok(p)
  {
    TrimOfTrimmed(p.summary);
    NormalizeSnapshotValueFixesNormalized(p.snapshotLabel);
    NormalizeSnapshotValueFixesNormalized(p.leftOut);
    NormalizeSnapshotValueFixesNormalized(p.futureNote);
  }

  /** Building a snapshot payload twice is building it once. */
  lemma BuildSnapshotPayloadIdempotent(input: SnapshotInput)
    requires BuildSnapshotPayload(input).Ok?
    ensures BuildSnapshotPayload(AsInput(BuildSnapshotPayload(input).value)) == BuildSnapshotPayload(input)
  {
    BuildSnapshotPayloadFixesNormalized(BuildSnapshotPayload(input).value);
  }

  /** `buildDecisionPayload`: the reason is checked first, then the
      trade-off; both are stored trimmed. */
  function BuildDecisionPayload(input: DecisionInput): (r: Result<DecisionPayload, Error>)
    ensures AllSpace(input.reason) ==> r == Err(ReasonRequired)
    ensures !AllSpace(input.reason) && AllSpace(input.tradeOff) ==> r == Err(TradeOffRequired)
    ensures r.Ok? <==> !AllSpace(input.reason) && !AllSpace(input.tradeOff)
    ensures r.Ok? ==> r.value.reason != [] && IsTrimmed(r.value.reason) && r.value.reason == Trim(input.reason)
    ensures r.Ok? ==> r.value.tradeOff != [] && IsTrimmed(r.value.tradeOff) && r.value.tradeOff == Trim(input.tradeOff)
  {
    BlankIffAllSpace(input.reason);
    BlankIffAllSpace(input.tradeOff);
    TrimShape(input.reason);
    TrimShape(input.tradeOff);
    if IsBlank(input.reason) then Err(ReasonRequired)
    else if IsBlank(input.tradeOff) then Err(TradeOffRequired)
    else Ok(DecisionPayload(Trim(input.reason), Trim(input.tradeOff)))
  }

  /** The status text a new project asks for, `"active"` when left out. */
  function RequestedStatus(input: NewProjectInput<string>): string {
    match input.status
    case Undefined => StatusName(DEFAULT_STATUS)
    case Defined(s) => s
  }

  /** `normalizeProjectInput`: the name is checked, then the next action,
      then the status (defaulting to active); the result carries trimmed text,
      nulls for the optional fields left out, and the checked status. */
  function NormalizeProjectInput(input: NewProjectInput<string>): (r: Result<NewProjectInput<Status>, Error>)
    ensures AllSpace(input.name) ==> r == Err(NameRequired)
    ensures !AllSpace(input.name) && AssertNextAction(input.nextAction).Fail? ==>
              r == Err(AssertNextAction(input.nextAction).error)
    ensures (!AllSpace(input.name) && AssertNextAction(input.nextAction) == Pass
             && RequestedStatus(input) !in PROJECT_STATUSES) ==> r == Err(InvalidStatus(RequestedStatus(input)))
    ensures r.Ok? <==> !AllSpace(input.name) && AssertNextAction(input.nextAction) == Pass
                       && RequestedStatus(input) in PROJECT_STATUSES
    ensures r.Ok? ==> r.value.status.Defined? && StatusName(r.value.status.value) == RequestedStatus(input)
    ensures r.Ok? ==> r.value.name == Trim(input.name) && r.value.nextAction == Trim(input.nextAction)
    ensures r.Ok? ==> r.value.narrativeLink == Defined(OrNull(input.narrativeLink))
                      && r.value.whyNow == Defined(OrNull(input.whyNow))
                      && r.value.finishDefinition == Defined(OrNull(input.finishDefinition))
  {
    match AssertProjectName(input.name)
    case Fail(e) => Err(e)
    case Pass =>
      match AssertNextAction(input.nextAction)
      case Fail(e) => Err(e)
      case Pass =>
        match AssertProjectStatus(RequestedStatus(input))
        case Err(e) => Err(e)
        case Ok(status) =>
          Ok(NewProjectInput(
            Trim(input.name),
            Defined(OrNull(input.narrativeLink)),
            Defined(OrNull(input.whyNow)),
            Defined(OrNull(input.finishDefinition)),
            Defined(status),
            Trim(input.nextAction)))
  }

  /** A project created without a status is created active. */
  lemma DefaultStatusIsActive(input: NewProjectInput<string>)
    requires input.status.Undefined?
    requires NormalizeProjectInput(input).Ok?
    ensures NormalizeProjectInput(input).value.status == Defined(Active)
  {
    StatusRoundTrip(Active);
  }

  /** `Object.keys(update).length === 0`. */
  predicate IsEmptyUpdate<S>(u: UpdateProjectInput<S>) {
    u.name.Undefined? && u.narrativeLink.Undefined? && u.whyNow.Undefined?
    && u.finishDefinition.Undefined? && u.status.Undefined? && u.nextAction.Undefined?
    && u.lastReviewedAt.Undefined?
  }

  predicate UpdateNameOk(input: UpdateProjectInput<string>) {
    input.name.Defined? ==> !AllSpace(input.name.value)
  }

  predicate UpdateStatusOk(input: UpdateProjectInput<string>) {
    input.status.Defined? ==> input.status.value in PROJECT_STATUSES
  }

  predicate UpdateNextActionOk(input: UpdateProjectInput<string>) {
    input.nextAction.Defined? ==> AssertNextAction(input.nextAction.value) == Pass
  }

  /** `u` carries exactly the fields of `input`, normalised: text trimmed,
      nullable fields `?? null`, status checked. */
  predicate IsNormalizedUpdateOf(u: UpdateProjectInput<Status>, input: UpdateProjectInput<string>) {
    && (input.name.Undefined? ==> u.name.Undefined?)
    && (input.name.Defined? ==> u.name == Defined(Trim(input.name.value)))
    && (input.narrativeLink.Undefined? ==> u.narrativeLink.Undefined?)
    && (input.narrativeLink.Defined? ==> u.narrativeLink == Defined(input.narrativeLink.value))
    && (input.whyNow.Undefined? ==> u.whyNow.Undefined?)
    && (input.whyNow.Defined? ==> u.whyNow == Defined(input.whyNow.value))
    && (input.finishDefinition.Undefined? ==> u.finishDefinition.Undefined?)
    && (input.finishDefinition.Defined? ==> u.finishDefinition == Defined(input.finishDefinition.value))
    && (input.status.Undefined? ==> u.status.Undefined?)
    && (input.status.Defined? ==> u.status.Defined? && StatusName(u.status.value) == input.status.value)
    && (input.nextAction.Undefined? ==> u.nextAction.Undefined?)
    && (input.nextAction.Defined? ==> u.nextAction == Defined(Trim(input.nextAction.value)))
    && (input.lastReviewedAt.Undefined? ==> u.lastReviewedAt.Undefined?)
    && (input.lastReviewedAt.Defined? ==> u.lastReviewedAt == Defined(input.lastReviewedAt.value))
  }

  /** `normalizeProjectUpdates`: builds the update field by field, checking
      only the fields present, in the order name, status, next action. */
  method NormalizeProjectUpdates(input: UpdateProjectInput<string>) returns (r: Result<UpdateProjectInput<Status>, Error>)
    ensures !UpdateNameOk(input) ==> r == Err(NameRequired)
    ensures UpdateNameOk(input) && !UpdateStatusOk(input) ==> r == Err(InvalidStatus(input.status.value))
    ensures UpdateNameOk(input) && UpdateStatusOk(input) && !UpdateNextActionOk(input) ==>
              r == Err(AssertNextAction(input.nextAction.value).error)
    ensures r.Ok? <==> UpdateNameOk(input) && UpdateStatusOk(input) && UpdateNextActionOk(input)
    ensures r.Ok? ==> IsNormalizedUpdateOf(r.value, input)
  {
    var update: UpdateProjectInput<Status> :=
      UpdateProjectInput(Undefined, Undefined, Undefined, Undefined, Undefined, Undefined, Undefined);

    if input.name.Defined? {
      if AssertProjectName(input.name.value).Fail? {
        return Err(NameRequired);
      }
      update := update.(name := Defined(Trim(input.name.value)));
    }

    if input.narrativeLink.Defined? {
      update := update.(narrativeLink := Defined(input.narrativeLink.value));
    }

    if input.whyNow.Defined? {
      update := update.(whyNow := Defined(input.whyNow.value));
    }

    if input.finishDefinition.Defined? {
      update := update.(finishDefinition := Defined(input.finishDefinition.value));
    }

    if input.status.Defined? {
      var checked := AssertProjectStatus(input.status.value);
      if checked.Err? {
        return Err(checked.error);
      }
      update := update.(status := Defined(checked.value));
    }

    if input.nextAction.Defined? {
      var checked := AssertNextAction(input.nextAction.value);
      if checked.Fail? {
        return Err(checked.error);
      }
      update := update.(nextAction := Defined(Trim(input.nextAction.value)));
    }

    if input.lastReviewedAt.Defined? {
      update := update.(lastReviewedAt := Defined(input.lastReviewedAt.value));
    }

    return Ok(update);
  }

  /** An update is empty after normalisation exactly when the input named no
      field at all. */
  lemma NormalizedUpdateEmptiness(u: UpdateProjectInput<Status>, input: UpdateProjectInput<string>)
    requires IsNormalizedUpdateOf(u, input)
    ensures IsEmptyUpdate(u) <==> IsEmptyUpdate(input)
  {
  }
}
