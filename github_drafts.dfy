/** The draft use cases (lib/usecases/github-drafts.ts): each one requires a
    signed-in caller and delegates to the repository-drafts port. */
module GithubDrafts {
  import opened Wrappers
  import opened Text
  import opened Errors
  import opened Domain
  import opened Ports
  import opened Sorting
  import opened Database
  import RepoDraftsAdapter

  /** `requireUserContext`: a context without a user id is refused. */
  function RequireUserContext(context: UserContext): (r: Result<UserContext, Error>)
    ensures r.Ok? <==> context.userId != []
    ensures r.Ok? ==> r.value == context
    ensures r.Err? ==> r.error == NotAuthenticated
  {
    if context.userId == [] then Err(NotAuthenticated) else Ok(context)
  }

  /** `upsertRepoDrafts`: an empty batch returns 0 before the caller is
      checked; otherwise an anonymous caller is refused and the port
      imports the batch. */
  method UpsertRepoDrafts(db: Db, context: UserContext, drafts: seq<RepoDraftImport>, newIds: seq<Id>, now: Timestamp)
    returns (r: Result<nat, Error>)
    requires db.Valid() && |newIds| == |drafts| && FreshIds(db.drafts, newIds)
    modifies db
    ensures db.Valid()
    ensures unchanged(db`projects, db`snapshots, db`decisions)
    ensures drafts == [] ==> r == Ok(0) && db.drafts == old(db.drafts)
    ensures drafts != [] && context.userId == [] ==> r == Err(NotAuthenticated) && db.drafts == old(db.drafts)
    ensures drafts != [] && context.userId != [] && !RepoDraftsAdapter.DistinctRepos(drafts) ==>
              r == Err(StoreFailed("import drafts", RepoDraftsAdapter.ROW_AFFECTED_TWICE))
              && db.drafts == old(db.drafts)
    ensures drafts != [] && context.userId != [] && RepoDraftsAdapter.DistinctRepos(drafts) ==>
              r == Ok(|drafts|)
              && db.drafts == ApplyUpsert(old(db.drafts), RepoDraftsAdapter.UpsertPayload(context.userId, drafts, now), newIds)
              && KeepsConversions(old(db.drafts), db.drafts)
  {
    if drafts == [] {
      return Ok(0);
    }
    var user := RequireUserContext(context);
    if user.Err? {
      return Err(user.error);
    }
    r := RepoDraftsAdapter.UpsertRepoDrafts(db, user.value, drafts, newIds, now);
  }

  /** `fetchRepoDrafts`: the signed-in caller's drafts, newest import first. */
  method FetchRepoDrafts(db: Db, context: UserContext) returns (r: Result<seq<RepoDraft>, Error>)
    requires db.Valid()
    ensures context.userId == [] ==> r == Err(NotAuthenticated)
    ensures context.userId != [] ==> r.Ok?
    ensures r.Ok? ==> SortedDesc(r.value, RepoDraftsAdapter.ImportedAtKey)
                      && multiset(r.value) == multiset(RepoDraftsAdapter.OwnedBy(db.drafts, context.userId))
                      && (forall d :: d in r.value <==> d in db.drafts && d.userId == context.userId)
  {
    var user := RequireUserContext(context);
    if user.Err? {
      return Err(user.error);
    }
    r := RepoDraftsAdapter.FetchRepoDrafts(db, user.value);
  }

  /** `fetchRepoDraftById`: the signed-in caller's draft with that id, or
      null. */
  method FetchRepoDraftById(db: Db, context: UserContext, id: Id) returns (r: Result<Option<RepoDraft>, Error>)
    requires db.Valid()
    ensures context.userId == [] ==> r == Err(NotAuthenticated)
    ensures context.userId != [] ==>
              r.Ok? && (r.value.Some? <==> exists d :: d in db.drafts && d.id == id && d.userId == context.userId)
    ensures r.Ok? && r.value.Some? ==>
              r.value.value in db.drafts && r.value.value.id == id && r.value.value.userId == context.userId
  {
    var user := RequireUserContext(context);
    if user.Err? {
      return Err(user.error);
    }
    r := RepoDraftsAdapter.FetchRepoDraftById(db, user.value, id);
  }

  /** `convertRepoDraft`: the signed-in caller's unconverted draft becomes a
      frozen project, once. */
  method ConvertRepoDraft(db: Db, context: UserContext, id: Id, input: RepoDraftConversionInput,
                          newId: Id, now: Timestamp)
    returns (r: Result<Id, Error>)
    requires db.Valid() && newId !in db.projects && newId != []
    modifies db
    ensures db.Valid()
    ensures unchanged(db`snapshots, db`decisions)
    ensures context.userId == [] ==> r == Err(NotAuthenticated) && unchanged(db)
    ensures context.userId != [] ==>
              var found := FindDraft(old(db.drafts), context.userId, id);
              if found.None? || old(db.drafts)[found.value].convertedProjectId.Some? then
                r == Err(DraftConversionFailed) && unchanged(db)
              else
                var d := old(db.drafts)[found.value];
                r == Ok(newId)
                && db.projects == old(db.projects)[newId := ConvertedProject(d, newId, Trim(input.name),
                                                     Trim(input.nextAction), OrNull(input.finishDefinition))]
                && db.drafts == old(db.drafts)[found.value := d.(convertedProjectId := Some(newId),
                                                                 convertedAt := Some(now))]
    ensures ActiveCount(db.projects) == old(ActiveCount(db.projects))
  {
    var user := RequireUserContext(context);
    if user.Err? {
      return Err(user.error);
    }
    r := RepoDraftsAdapter.ConvertRepoDraft(db, user.value, id, input, newId, now);
  }

  /** Converting the same draft a second time fails and changes nothing:
      the first conversion left it marked. */
  method ConvertTwice(db: Db, context: UserContext, id: Id, input: RepoDraftConversionInput,
                      firstId: Id, secondId: Id, now: Timestamp)
    returns (first: Result<Id, Error>, second: Result<Id, Error>)
    requires db.Valid() && firstId !in db.projects && secondId !in db.projects
    requires firstId != [] && secondId != [] && firstId != secondId
    modifies db
    ensures first.Ok? ==> second == Err(DraftConversionFailed)
    ensures first.Ok? ==> db.projects.Keys == old(db.projects.Keys) + {firstId}
  {
    first := ConvertRepoDraft(db, context, id, input, firstId, now);
    second := ConvertRepoDraft(db, context, id, input, secondId, now);
  }
}
