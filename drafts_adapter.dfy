/** The repository-drafts port over the store
    (lib/clients/supabase/repo-drafts-adapter.ts): every call is scoped to the
    caller's user id; the import is an upsert keyed on the user and the
    repository. */
module RepoDraftsAdapter {
  import opened Wrappers
  import opened Text
  import opened Errors
  import opened Domain
  import opened Ports
  import opened Sorting
  import opened Database

  /** What the database answers when one upsert names the same key twice. */
  const ROW_AFFECTED_TWICE: string := "ON CONFLICT DO UPDATE command cannot affect row a second time"

  /** The row one imported repository becomes: the caller's id, the
      repository's metadata, topics or null, and the import time. */
  function UpsertRow(userId: string, d: RepoDraftImport, now: Timestamp): (u: DraftUpsert)
    ensures u.userId == userId && u.githubRepoId == d.githubRepoId && u.importedAt == now
    ensures u.topics == OrNull(d.topics)
  {
    DraftUpsert(userId, d.githubRepoId, d.fullName, d.htmlUrl, d.description, d.visibility,
                d.defaultBranch, d.pushedAt, OrNull(d.topics), now)
  }

  /** The upsert payload: one row per imported repository, in order. */
  function UpsertPayload(userId: string, drafts: seq<RepoDraftImport>, now: Timestamp): (rows: seq<DraftUpsert>)
    ensures |rows| == |drafts|
    ensures forall k :: 0 <= k < |rows| ==> rows[k] == UpsertRow(userId, drafts[k], now)
  {
    seq(|drafts|, k requires 0 <= k < |drafts| => UpsertRow(userId, drafts[k], now))
  }

  /** No repository is imported twice in one batch. */
  predicate DistinctRepos(drafts: seq<RepoDraftImport>) {
    forall i, j :: 0 <= i < j < |drafts| ==> drafts[i].githubRepoId != drafts[j].githubRepoId
  }

  /** The payload can be upserted in one statement exactly when no
      repository appears twice in the batch. */
  lemma PayloadKeysUnique(userId: string, drafts: seq<RepoDraftImport>, now: Timestamp)
    ensures UniqueKeys(UpsertPayload(userId, drafts, now)) <==> DistinctRepos(drafts)
  {
    var rows := UpsertPayload(userId, drafts, now);
    if !DistinctRepos(drafts) {
      var i, j :| 0 <= i < j < |drafts| && drafts[i].githubRepoId == drafts[j].githubRepoId;
      assert rows[i].userId == rows[j].userId && rows[i].githubRepoId == rows[j].githubRepoId;
    }
  }

  /** `upsertRepoDrafts`: an empty batch imports nothing and needs no user;
      otherwise the batch is upserted on `(user_id, github_repo_id)` and its
      length returned. Re-imported drafts get fresh metadata and keep their
      id and conversion. */
  method UpsertRepoDrafts(db: Db, context: UserContext, drafts: seq<RepoDraftImport>, newIds: seq<Id>, now: Timestamp)
    returns (r: Result<nat, Error>)
    requires db.Valid() && |newIds| == |drafts| && FreshIds(db.drafts, newIds)
    modifies db
    ensures db.Valid()
    ensures unchanged(db`projects, db`snapshots, db`decisions)
    ensures drafts == [] ==> r == Ok(0) && db.drafts == old(db.drafts)
    ensures drafts != [] && context.userId == [] ==> r == Err(MissingUserId) && db.drafts == old(db.drafts)
    ensures drafts != [] && context.userId != [] && !DistinctRepos(drafts) ==>
              r == Err(StoreFailed("import drafts", ROW_AFFECTED_TWICE)) && db.drafts == old(db.drafts)
    ensures drafts != [] && context.userId != [] && DistinctRepos(drafts) ==>
              r == Ok(|drafts|)
              && db.drafts == ApplyUpsert(old(db.drafts), UpsertPayload(context.userId, drafts, now), newIds)
    ensures r.Ok? ==>
              var payload := UpsertPayload(context.userId, drafts, now);
              KeepsConversions(old(db.drafts), db.drafts)
              && (forall k :: 0 <= k < |payload| ==> Stored(db.drafts, payload[k]))
              && (forall i :: 0 <= i < |old(db.drafts)| && old(db.drafts)[i].userId != context.userId ==>
                    db.drafts[i] == old(db.drafts)[i])
  {
    if drafts == [] {
      return Ok(0);
    }
    if context.userId == [] {
      return Err(MissingUserId);
    }
    var payload := UpsertPayload(context.userId, drafts, now);
    PayloadKeysUnique(context.userId, drafts, now);
    if !UniqueKeys(payload) {
      return Err(StoreFailed("import drafts", ROW_AFFECTED_TWICE));
    }
    UpsertKeepsWellFormed(db.drafts, payload, newIds);
    UpsertKeepsConversions(db.drafts, payload, newIds);
    UpsertStoresEveryRow(db.drafts, payload, newIds);
    UpsertTouchesOnlyOwner(db.drafts, payload, newIds, context.userId);
    db.drafts := ApplyUpsert(db.drafts, payload, newIds);
    return Ok(|payload|);
  }

  /** The user's drafts (`.eq("user_id", …)`), in table order, each kept as
      often as it occurs. */
  function OwnedBy(t: seq<RepoDraft>, userId: string): (r: seq<RepoDraft>)
    ensures forall d :: multiset(r)[d] == if d.userId == userId then multiset(t)[d] else 0
    ensures forall d :: d in r <==> d in t && d.userId == userId
    ensures |r| <= |t|
    decreases |t|
  {
    if t == [] then []
    else
      assert t == [t[0]] + t[1..];
      (if t[0].userId == userId then [t[0]] else []) + OwnedBy(t[1..], userId)
  }

  function ImportedAtKey(d: RepoDraft): int {
    d.importedAt
  }

  /** `fetchRepoDrafts`: the caller's drafts, most recently imported first. */
  method FetchRepoDrafts(db: Db, context: UserContext) returns (r: Result<seq<RepoDraft>, Error>)
    requires db.Valid()
    ensures context.userId == [] ==> r == Err(MissingUserId)
    ensures context.userId != [] ==> r.Ok?
    ensures r.Ok? ==> SortedDesc(r.value, ImportedAtKey)
                      && multiset(r.value) == multiset(OwnedBy(db.drafts, context.userId))
                      && (forall d :: d in r.value <==> d in db.drafts && d.userId == context.userId)
  {
    if context.userId == [] {
      return Err(MissingUserId);
    }
    var owned := OwnedBy(db.drafts, context.userId);
    var sorted := SortDesc(owned, ImportedAtKey);
    assert forall d :: d in sorted <==> d in multiset(sorted);
    return Ok(sorted);
  }

  /** `fetchRepoDraftById`: the caller's draft with that id, or null; a
      draft of another user is not found. */
  method FetchRepoDraftById(db: Db, context: UserContext, id: Id) returns (r: Result<Option<RepoDraft>, Error>)
    requires db.Valid()
    ensures context.userId == [] ==> r == Err(MissingUserId)
    ensures context.userId != [] ==>
              r.Ok? && (r.value.Some? <==> exists d :: d in db.drafts && d.id == id && d.userId == context.userId)
    ensures r.Ok? && r.value.Some? ==>
              r.value.value in db.drafts && r.value.value.id == id && r.value.value.userId == context.userId
  {
    if context.userId == [] {
      return Err(MissingUserId);
    }
    var found := FindDraft(db.drafts, context.userId, id);
    if found.None? {
      return Ok(None);
    }
    return Ok(Some(db.drafts[found.value]));
  }

  /** `convertRepoDraft`: asks the conversion function, with the name and
      next action trimmed and the finish definition or null, to turn the
      caller's unconverted draft into a frozen project; no project id back
      is a failure. */
  method ConvertRepoDraft(db: Db, context: UserContext, id: Id, input: RepoDraftConversionInput,
                          newId: Id, now: Timestamp)
    returns (r: Result<Id, Error>)
    requires db.Valid() && newId !in db.projects && newId != []
    modifies db
    ensures db.Valid()
    ensures unchanged(db`snapshots, db`decisions)
    ensures context.userId == [] ==> r == Err(MissingUserId) && unchanged(db)
    ensures context.userId != [] ==>
              var found := FindDraft(old(db.drafts), context.userId, id);
              if found.None? || old(db.drafts)[found.value].convertedProjectId.Some? then
                r == Err(DraftConversionFailed) && unchanged(db)
              else
                var d := old(db.drafts)[found.value];
                r == Ok(newId)
                && db.projects == old(db.projects)[newId := ConvertedProject(d, newId, Trim(input.name),
                                                     Trim(input.nextAction), OrNull(input.finishDefinition))]
                && db.drafts == old(db.drafts)[found.value := d.(convertedProjectId := Some(newId),
                                                                 convertedAt := Some(now))]
    ensures ActiveCount(db.projects) == old(ActiveCount(db.projects))
  {
    if context.userId == [] {
      return Err(MissingUserId);
    }
    var found := FindDraft(db.drafts, context.userId, id);
    if found.Some? && db.drafts[found.value].convertedProjectId.None? {
      var d := db.drafts[found.value];
      ActiveCountAfterInsert(db.projects, newId,
        ConvertedProject(d, newId, Trim(input.name), Trim(input.nextAction), OrNull(input.finishDefinition)));
    }
    var projectId := db.ConvertDraft(id, context.userId, Trim(input.name), Trim(input.nextAction),
                                     OrNull(input.finishDefinition), newId, now);
    r := if projectId.Some? && projectId.value != [] then Ok(projectId.value) else Err(DraftConversionFailed);
  }
}
