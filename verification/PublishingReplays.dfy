/**
 * Submissions and rollbacks that find a release again instead of adding one,
 * and what follows from it over whole runs.
 */
module PublishingReplays {
  import opened Options
  import opened Json
  import opened Stamping
  import opened Publishing
  import opened PublishingHistory
  import opened PublishingSafety
  import opened PublishingTheorems
  import Versions

  // ---------------------------------------------------------------- a version that is taken

  /** The version that a submission of the manifest asks for: its own, or the next one. */
  function Wanted(env: Env, rs: seq<Release>, t: TenantId, manifest: Value): Option<string> {
    if !HasTruthy(manifest, "version") then NextVersion(env, rs, t)
    else match Get(manifest, "version")
      case Some(Str(version)) => Some(version)
      case _ => None
  }

  /** The version it asks for is that of row i. */
  predicate Names(env: Env, rs: seq<Release>, t: TenantId, manifest: Value, i: ReleaseId) {
    i < |rs| && rs[i].tenant == t && Wanted(env, rs, t, manifest) == Some(rs[i].version)
  }

  /** Stamped as the release, the manifest is the release's bytes again. */
  predicate Matches(env: Env, r: Release, manifest: Value)
    requires manifest.Obj?
  {
    env.checksum(Stamp(manifest, r.version, r.build)) == r.checksum
  }

  function AllocationOf(r: Release, manifest: Value): Allocation
    requires manifest.Obj?
  {
    Allocation(r.version, r.build, Stamp(manifest, r.version, r.build), r.checksum)
  }

  lemma RequestsAgain(env: Env, rs: seq<Release>, t: TenantId, manifest: Value, i: ReleaseId, next: string)
    requires manifest.Obj? && i < |rs| && ByVersion(rs, t, rs[i].version, |rs|) == Some(i)
    ensures AllocateRequested(env, rs, t, manifest, rs[i].version, next)
         == if Matches(env, rs[i], manifest) then Ok(AllocationOf(rs[i], manifest)) else Err(VersionConflict)
  {
  }

  lemma AllocatesWanted(env: Env, rs: seq<Release>, t: TenantId, manifest: Value, version: string, next: string)
    requires manifest.Obj? && Wanted(env, rs, t, manifest) == Some(version)
    requires Versions.IsVersion(version) && NextVersion(env, rs, t) == Some(next)
    ensures AllocateVersion(env, rs, t, manifest) == AllocateRequested(env, rs, t, manifest, version, next)
  {
    if HasTruthy(manifest, "version") {
      AllocatesRequested(env, rs, t, manifest, version, next);
    } else {
      AllocatesUnversioned(env, rs, t, manifest, next);
    }
  }

  /** Asking for a taken version is granted exactly for the bytes that have it, with their build number. */
  lemma AllocatesAgain(env: Env, rs: seq<Release>, t: TenantId, manifest: Value, i: ReleaseId)
    requires History(env, rs) && manifest.Obj? && Names(env, rs, t, manifest, i)
    ensures AllocateVersion(env, rs, t, manifest)
         == if Matches(env, rs[i], manifest) then Ok(AllocationOf(rs[i], manifest)) else Err(VersionConflict)
  {
    StoredVersionsAreValid(env, rs, t);
    FoundByVersion(env, rs, t, i);
    var next := NextVersion(env, rs, t).value;
    AllocatesWanted(env, rs, t, manifest, rs[i].version, next);
    RequestsAgain(env, rs, t, manifest, i, next);
  }

  lemma RecoveredRow(rs: seq<Release>, t: TenantId, i: ReleaseId, a: Allocation)
    requires i < |rs| && ByVersion(rs, t, rs[i].version, |rs|) == Some(i)
    requires a.version == rs[i].version && a.checksum == rs[i].checksum
    ensures CreateReviewRelease(rs, t, a) == Ok(Staged(rs, i))
  {
  }

  predicate Answerable(s: Status) {
    s == PendingReview || s == Published
  }

  lemma OnlyPendingIsKept(db: Db, t: TenantId, i: ReleaseId)
    requires Consistent(db) && i < |db.releases| && db.releases[i].tenant == t && db.releases[i].status == PendingReview
    ensures Supersede(db.releases, t, i) == db.releases
    ensures t in db.tenants && MarkSubmitted(db.tenants, t) == db.tenants[t := db.tenants[t].(note := None)]
  {
  }

  lemma FinishesAgain(db: Db, t: TenantId, a: Allocation, i: ReleaseId)
    requires Consistent(db) && i < |db.releases| && db.releases[i].tenant == t && t in db.tenants
    ensures var o := FinishSubmission(db, t, a, Staged(db.releases, i));
            && o.db.releases == db.releases
            && o.db.tenants == (if db.releases[i].status == PendingReview
                                then db.tenants[t := db.tenants[t].(note := None)] else db.tenants)
            && o.result == if Answerable(db.releases[i].status) then Ok(Some(ReplyFor(db.releases, i)))
                           else Err(VersionAlreadyReviewed)
  {
    if db.releases[i].status == PendingReview {
      OnlyPendingIsKept(db, t, i);
    }
  }

  /** The answer to a submission that asks for a taken version. */
  function ReplayAnswer(env: Env, rs: seq<Release>, i: ReleaseId, manifest: Value): Result<Option<Reply>, Error>
    requires manifest.Obj? && i < |rs|
  {
    if !Matches(env, rs[i], manifest) then Err(VersionConflict)
    else if Answerable(rs[i].status) then Ok(Some(ReplyFor(rs, i)))
    else Err(VersionAlreadyReviewed)
  }

  lemma AdmittedReplay(env: Env, db: Db, t: TenantId, manifest: Value, i: ReleaseId)
    requires Inv(env, db) && t in db.tenants && manifest.Obj? && Names(env, db.releases, t, manifest, i)
    ensures var o := SubmitAdmitted(env, db, t, manifest);
            && o.db.releases == db.releases && o.result == ReplayAnswer(env, db.releases, i, manifest)
            && o.db.tenants == (if Matches(env, db.releases[i], manifest) && db.releases[i].status == PendingReview
                                then db.tenants[t := db.tenants[t].(note := None)] else db.tenants)
  {
    AllocatesAgain(env, db.releases, t, manifest, i);
    if Matches(env, db.releases[i], manifest) {
      var a := AllocationOf(db.releases[i], manifest);
      FoundByVersion(env, db.releases, t, i);
      RecoveredRow(db.releases, t, i, a);
      AdmittedIs(env, db, t, manifest, a);
      FinishesAgain(db, t, a, i);
    } else {
      AdmittedRefused(env, db, t, manifest, VersionConflict);
    }
  }

  lemma AdmittedRefused(env: Env, db: Db, t: TenantId, manifest: Value, e: Error)
    requires t in db.tenants && manifest.Obj? && AllocateVersion(env, db.releases, t, manifest) == Err(e)
    ensures SubmitAdmitted(env, db, t, manifest) == Outcome(db, Err(e))
  {
  }

  /**
   * A submission that asks for a taken version changes no release, and is
   * answered by the bytes and the status of the release that has it.
   */
  lemma ReplayOutcome(env: Env, db: Db, t: TenantId, manifest: Value, i: ReleaseId, facts: Facts)
    requires Inv(env, db) && facts.permitted && GateError(env, manifest, facts).None?
    requires manifest.Obj? && Names(env, db.releases, t, manifest, i)
    ensures var o := SubmitForReview(env, db, t, manifest, facts);
            && t in db.tenants
            && o.db.releases == db.releases && o.result == ReplayAnswer(env, db.releases, i, manifest)
            && o.db.tenants == (if Matches(env, db.releases[i], manifest) && db.releases[i].status == PendingReview
                                then db.tenants[t := db.tenants[t].(note := None)] else db.tenants)
  {
    assert SubmitForReview(env, db, t, manifest, facts) == SubmitAdmitted(env, db, t, manifest);
    AdmittedReplay(env, db, t, manifest, i);
  }

  // ---------------------------------------------------------------- idempotence

  /** The row that a submission is answered with was stored from its manifest, under the version it asked for. */
  lemma AnsweredMatches(env: Env, db: Db, t: TenantId, manifest: Value, facts: Facts, reply: Reply)
    requires SubmitForReview(env, db, t, manifest, facts).result == Ok(Some(reply))
    ensures var rs := SubmitForReview(env, db, t, manifest, facts).db.releases;
            && manifest.Obj? && reply.id < |rs| && rs[reply.id].tenant == t && reply == ReplyFor(rs, reply.id)
            && Wanted(env, db.releases, t, manifest) == Some(rs[reply.id].version)
            && Matches(env, rs[reply.id], manifest)
  {
    var a := AllocateVersion(env, db.releases, t, manifest).value;
    AnsweredRow(env, db, t, manifest, facts, reply);
    AllocationAppends(env, db.releases, t, manifest);
    StagedMatches(env, db, t, manifest, a, reply);
  }

  lemma StagedMatches(env: Env, db: Db, t: TenantId, manifest: Value, a: Allocation, reply: Reply)
    requires manifest.Obj? && t in db.tenants && Allocates(env, db.releases, t, manifest, a)
    requires CreateReviewRelease(db.releases, t, a).Ok?
    requires FinishSubmission(db, t, a, CreateReviewRelease(db.releases, t, a).value).result == Ok(Some(reply))
    ensures reply.version == a.version
    ensures env.checksum(Stamp(manifest, reply.version, reply.build)) == reply.checksum
  {
  }

  /**
   * Resubmission under an explicit version is idempotent. After a submission
   * was accepted, and whatever happens later, submitting the same manifest
   * again adds and changes no release. It is answered with the same release,
   * of the same version, build and checksum, while that is pending or
   * published, and refused as already reviewed otherwise.
   */
  lemma ResubmissionOverRuns(
    env: Env, db: Db, t: TenantId, manifest: Value, facts: Facts, reply: Reply, later: seq<Event>, again: Facts)
    requires Inv(env, db) && HasTruthy(manifest, "version")
    requires SubmitForReview(env, db, t, manifest, facts).result == Ok(Some(reply))
    requires again.permitted && GateError(env, manifest, again).None?
    ensures var after := Run(env, SubmitForReview(env, db, t, manifest, facts).db, later);
            var second := SubmitForReview(env, after, t, manifest, again);
            && second.db.releases == after.releases && reply.id < |after.releases|
            && var row := after.releases[reply.id];
            && ReplyFor(after.releases, reply.id) == reply.(status := row.status)
            && second.result == if Answerable(row.status) then Ok(Some(reply.(status := row.status)))
                                else Err(VersionAlreadyReviewed)
  {
    var first := SubmitForReview(env, db, t, manifest, facts).db;
    SubmitQueues(env, db, t, manifest, facts);
    QueuesAtMostKeeps(env, db, t, first);
    AnsweredMatches(env, db, t, manifest, facts, reply);
    EveryRunEvolves(env, first, later);
    var after := Run(env, first, later);
    assert RowEvolves(first.releases[reply.id], after.releases[reply.id]);
    ReplayOutcome(env, after, t, manifest, reply.id, again);
  }

  /** The same for a submission that added a row: it is the new row that is found again. */
  lemma AddedIsFoundAgain(
    env: Env, db: Db, t: TenantId, manifest: Value, facts: Facts, later: seq<Event>, again: Facts)
    requires Inv(env, db) && HasTruthy(manifest, "version")
    requires |SubmitForReview(env, db, t, manifest, facts).db.releases| > |db.releases|
    requires again.permitted && GateError(env, manifest, again).None?
    ensures var after := Run(env, SubmitForReview(env, db, t, manifest, facts).db, later);
            var second := SubmitForReview(env, after, t, manifest, again);
            && second.db.releases == after.releases && |db.releases| < |after.releases|
            && second.result == if Answerable(after.releases[|db.releases|].status)
                                then Ok(Some(ReplyFor(after.releases, |db.releases|)))
                                else Err(VersionAlreadyReviewed)
  {
    var reply := AddedAnswer(env, db, t, manifest, facts);
    ResubmissionOverRuns(env, db, t, manifest, facts, reply, later, again);
  }

  lemma AddedAnswer(env: Env, db: Db, t: TenantId, manifest: Value, facts: Facts) returns (reply: Reply)
    requires |SubmitForReview(env, db, t, manifest, facts).db.releases| > |db.releases|
    ensures SubmitForReview(env, db, t, manifest, facts).result == Ok(Some(reply)) && reply.id == |db.releases|
  {
    assert SubmitForReview(env, db, t, manifest, facts) == SubmitAdmitted(env, db, t, manifest);
    var a := AllocateVersion(env, db.releases, t, manifest).value;
    reply := AddedFinish(db, t, a, CreateReviewRelease(db.releases, t, a).value);
  }

  lemma AddedFinish(db: Db, t: TenantId, a: Allocation, staged: Staged) returns (reply: Reply)
    requires t in db.tenants && CreateReviewRelease(db.releases, t, a) == Ok(staged)
    requires |FinishSubmission(db, t, a, staged).db.releases| > |db.releases|
    ensures FinishSubmission(db, t, a, staged).result == Ok(Some(reply)) && reply.id == |db.releases|
  {
    reply := ReplyFor(staged.releases, staged.id);
  }

  /** In particular for a release that is still pending: only the saved draft and the review note may change. */
  lemma ResubmissionIsIdempotent(env: Env, db: Db, t: TenantId, manifest: Value, i: ReleaseId, facts: Facts)
    requires Inv(env, db) && i < |db.releases| && db.releases[i].tenant == t && db.releases[i].status == PendingReview
    requires facts.permitted && GateError(env, manifest, facts).None? && manifest.Obj?
    requires HasTruthy(manifest, "version") && Get(manifest, "version") == Some(Str(db.releases[i].version))
    requires Matches(env, db.releases[i], manifest)
    ensures var o := SubmitForReview(env, db, t, manifest, facts);
            && o.result == Ok(Some(ReplyFor(db.releases, i)))
            && o.db.releases == db.releases
            && t in db.tenants && o.db.tenants == db.tenants[t := db.tenants[t].(note := None)]
  {
    ReplayOutcome(env, db, t, manifest, i, facts);
  }

  /** And for a submission repeated at once, which also gives the same answer and the same tenants. */
  lemma SubmitTwice(env: Env, db: Db, t: TenantId, manifest: Value, facts: Facts, reply: Reply)
    requires Inv(env, db) && HasTruthy(manifest, "version")
    requires SubmitForReview(env, db, t, manifest, facts).result == Ok(Some(reply))
    ensures var first := SubmitForReview(env, db, t, manifest, facts);
            var second := SubmitForReview(env, first.db, t, manifest, facts);
            && second.result == first.result
            && second.db.releases == first.db.releases && second.db.tenants == first.db.tenants
  {
    var first := SubmitForReview(env, db, t, manifest, facts).db;
    SubmitQueues(env, db, t, manifest, facts);
    QueuesAtMostKeeps(env, db, t, first);
    AnsweredMatches(env, db, t, manifest, facts, reply);
    NoteIsClear(env, db, t, manifest, facts, reply);
    AnsweredRow(env, db, t, manifest, facts, reply);
    NamedIsWanted(env, db.releases, first.releases, t, manifest);
    SubmitAccepts(env, db, t, manifest, facts);
    SameAnswer(env, first, t, manifest, facts, reply);
  }

  /** An explicit version is wanted whatever the table. */
  lemma NamedIsWanted(env: Env, rs: seq<Release>, other: seq<Release>, t: TenantId, manifest: Value)
    requires HasTruthy(manifest, "version")
    ensures Wanted(env, rs, t, manifest) == Wanted(env, other, t, manifest)
  {
  }

  lemma SubmitAccepts(env: Env, db: Db, t: TenantId, manifest: Value, facts: Facts)
    requires SubmitForReview(env, db, t, manifest, facts).result.Ok?
    ensures facts.permitted && t in db.tenants && GateError(env, manifest, facts).None?
  {
  }

  lemma SameAnswer(env: Env, db: Db, t: TenantId, manifest: Value, facts: Facts, reply: Reply)
    requires Inv(env, db) && facts.permitted && GateError(env, manifest, facts).None? && manifest.Obj?
    requires Names(env, db.releases, t, manifest, reply.id) && Matches(env, db.releases[reply.id], manifest)
    requires reply == ReplyFor(db.releases, reply.id) && Answerable(reply.status)
    requires t in db.tenants && (reply.status == PendingReview ==>
                                   db.tenants[t := db.tenants[t].(note := None)] == db.tenants)
    ensures var o := SubmitForReview(env, db, t, manifest, facts);
            o.result == Ok(Some(reply)) && o.db.releases == db.releases && o.db.tenants == db.tenants
  {
    ReplayOutcome(env, db, t, manifest, reply.id, facts);
  }

  lemma NoteIsClear(env: Env, db: Db, t: TenantId, manifest: Value, facts: Facts, reply: Reply)
    requires SubmitForReview(env, db, t, manifest, facts).result == Ok(Some(reply))
    ensures var tenants := SubmitForReview(env, db, t, manifest, facts).db.tenants;
            t in tenants && (reply.status == PendingReview ==> tenants[t := tenants[t].(note := None)] == tenants)
  {
    AnsweredRow(env, db, t, manifest, facts, reply);
    if reply.status == PendingReview {
      SubmissionOutcome(env, db, t, manifest, facts, reply);
      ClearIsSame(db.tenants, t, Tenant(InReview, db.tenants[t].active, None));
    }
  }

  lemma ClearIsSame(tenants: map<TenantId, Tenant>, t: TenantId, row: Tenant)
    requires row.note == None
    ensures var after := tenants[t := row]; after[t := after[t].(note := None)] == after
  {
  }
}
