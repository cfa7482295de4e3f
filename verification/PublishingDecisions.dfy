/** What rollbacks, approvals, rejections and app submissions answer and write, by the tables before the call. */
module PublishingDecisions {
  import opened Options
  import opened Json
  import opened Stamping
  import opened Publishing
  import opened PublishingHistory
  import opened PublishingSafety
  import opened PublishingTheorems
  import opened PublishingReplays
  import opened PublishingReviews
  import opened PublishingAnswers
  import Compatibility

  // ---------------------------------------------------------------- rollbacks

  /** The tenant's release of this version has been public, or superseded. */
  predicate IsTarget(rs: seq<Release>, t: TenantId, version: string, i: ReleaseId) {
    TakenBy(rs, t, version, i) && rs[i].status != PendingReview && rs[i].status != Rejected
  }

  predicate NoTarget(rs: seq<Release>, t: TenantId, version: string) {
    forall i :: 0 <= i < |rs| ==> !IsTarget(rs, t, version, i)
  }

  lemma TargetExactly(env: Env, db: Db, t: TenantId, version: string, facts: Facts, i: ReleaseId)
    requires Inv(env, db) && facts.permitted && t in db.tenants
    ensures RollbackTarget(db, t, version, facts) == Some(i) <==> IsTarget(db.releases, t, version, i)
  {
    if TakenBy(db.releases, t, version, i) {
      StoredIsFound(env, db.releases, t, version, i);
    }
    TargetIs(db, t, version, facts, i);
  }

  lemma StoredIsFound(env: Env, rs: seq<Release>, t: TenantId, version: string, i: ReleaseId)
    requires History(env, rs) && TakenBy(rs, t, version, i)
    ensures ByVersion(rs, t, version, |rs|) == Some(i) && rs[i].manifest.Obj?
  {
    FoundByVersion(env, rs, t, i);
    assert Sound(env, rs[i]);
  }

  lemma TargetIs(db: Db, t: TenantId, version: string, facts: Facts, i: ReleaseId)
    requires facts.permitted && t in db.tenants
    requires TakenBy(db.releases, t, version, i) ==>
               ByVersion(db.releases, t, version, |db.releases|) == Some(i) && db.releases[i].manifest.Obj?
    ensures RollbackTarget(db, t, version, facts) == Some(i) <==> IsTarget(db.releases, t, version, i)
  {
  }

  /** Without permission or a target a rollback changes nothing. */
  lemma RollbackRefused(env: Env, db: Db, t: TenantId, version: string, facts: Facts)
    requires Inv(env, db)
    requires !facts.permitted || t !in db.tenants || NoTarget(db.releases, t, version)
    ensures Rollback(env, db, t, version, facts)
         == Outcome(db, Err(if !facts.permitted || t !in db.tenants then NotPermitted else TargetNotFound))
  {
    if facts.permitted && t in db.tenants {
      if i :| RollbackTarget(db, t, version, facts) == Some(i) {
        TargetExactly(env, db, t, version, facts, i);
      }
      NoTargetIsTold(env, db, t, version, facts);
    }
  }

  lemma NoTargetIsTold(env: Env, db: Db, t: TenantId, version: string, facts: Facts)
    requires facts.permitted && t in db.tenants && RollbackTarget(db, t, version, facts).None?
    ensures Rollback(env, db, t, version, facts) == Outcome(db, Err(TargetNotFound))
  {
  }

  /** A rollback stages the target's manifest without its version. */
  lemma RollsBack(env: Env, db: Db, t: TenantId, version: string, facts: Facts, target: ReleaseId)
    returns (stripped: Value)
    requires Inv(env, db) && facts.permitted && t in db.tenants && IsTarget(db.releases, t, version, target)
    ensures db.releases[target].manifest.Obj? && stripped == Stripped(db.releases[target].manifest)
    ensures stripped.Obj? && !HasTruthy(stripped, "version")
    ensures Compatibility.Errors(env.contract, stripped) == {}
    ensures Rollback(env, db, t, version, facts) == Reissue(env, db, t, stripped, facts)
  {
    TargetExactly(env, db, t, version, facts, target);
    RollbackSteps(env, db, t, version, facts);
    stripped := StrippedTarget(env, db, t, target);
  }

  /** The answer to a rollback, and the tables after it, by what is allocated. */
  lemma ReissueAnswers(env: Env, db: Db, t: TenantId, manifest: Value, facts: Facts)
    requires t in db.tenants && manifest.Obj? && Compatibility.Errors(env.contract, manifest) == {}
    ensures var o := Reissue(env, db, t, manifest, facts);
            match AllocateVersion(env, db.releases, t, manifest)
            case Err(e) => o == Outcome(db, Err(e))
            case Ok(a) =>
              if !facts.assetsOk then o == Outcome(db, Err(IncompatibleRuntime))
              else match CreateReviewRelease(db.releases, t, a)
                case Err(e) => o == Outcome(db, Err(e))
                case Ok(staged) =>
                  o == Outcome(Queue(db, t, staged, a.manifest), Ok(Some(ReplyFor(staged.releases, staged.id))))
  {
    if AllocateVersion(env, db.releases, t, manifest).Ok? {
      var a := AllocateVersion(env, db.releases, t, manifest).value;
      AllocationAppends(env, db.releases, t, manifest);
      GateIgnoresStamps(env.contract, manifest, a.version, a.build);
    }
  }

  lemma QueuesNew(db: Db, t: TenantId, a: Allocation)
    requires t in db.tenants && ByVersion(db.releases, t, a.version, |db.releases|).None?
    ensures CreateReviewRelease(db.releases, t, a).Ok?
    ensures var r := Release(t, a.version, a.build, a.manifest, a.checksum, PendingReview, None);
            var staged := CreateReviewRelease(db.releases, t, a).value;
            && ReplyFor(staged.releases, staged.id)
               == Reply(|db.releases|, a.version, a.build, a.checksum, PendingReview)
            && Queued(db, Queue(db, t, staged, a.manifest), t, r)
  {
  }

  /** When the next version is free, a rollback whose assets are there queues it as a new release. */
  lemma RolledBackFree(
    env: Env, db: Db, t: TenantId, version: string, facts: Facts, target: ReleaseId, next: string)
    requires Inv(env, db) && facts.permitted && t in db.tenants && IsTarget(db.releases, t, version, target)
    requires IsNext(env, db.releases, t, next) && IsText(next) && Free(db.releases, t, next)
    ensures db.releases[target].manifest.Obj?
    ensures var o := Rollback(env, db, t, version, facts);
            var r := NewRelease(env, db.releases, t, Stripped(db.releases[target].manifest), next);
            if facts.assetsOk then
              && o.result == Ok(Some(Reply(|db.releases|, next, r.build, r.checksum, PendingReview)))
              && Queued(db, o.db, t, r)
            else o == Outcome(db, Err(IncompatibleRuntime))
  {
    var stripped := RollsBack(env, db, t, version, facts, target);
    AllocatesAsked(env, db.releases, t, stripped, next, next);
    ReissueAnswers(env, db, t, stripped, facts);
    FreeExactly(db.releases, t, next);
    QueuesNew(db, t, AllocateVersion(env, db.releases, t, stripped).value);
  }

  /** The tables after a release has been queued again: it keeps its status, and no other one is pending. */
  ghost predicate QueuedAgain(db: Db, after: Db, t: TenantId, k: ReleaseId, manifest: Value)
    requires t in db.tenants
  {
    && |after.releases| == |db.releases|
    && (forall i :: 0 <= i < |db.releases| ==>
          after.releases[i] == if i != k && db.releases[i].tenant == t && db.releases[i].status == PendingReview
                               then db.releases[i].(status := Superseded) else db.releases[i])
    && after.tenants == db.tenants[t := Tenant(InReview, db.tenants[t].active, None)]
    && after.drafts == db.drafts[t := NextDraft(db, t, manifest)]
  }

  lemma QueuesFound(db: Db, t: TenantId, a: Allocation, k: ReleaseId)
    requires t in db.tenants && k < |db.releases|
    ensures QueuedAgain(db, Queue(db, t, Staged(db.releases, k), a.manifest), t, k, a.manifest)
  {
  }

  /** When the next version is taken, by the same stamped bytes or by others. */
  lemma RolledBackTaken(
    env: Env, db: Db, t: TenantId, version: string, facts: Facts, target: ReleaseId, next: string, k: ReleaseId)
    requires Inv(env, db) && facts.permitted && t in db.tenants && IsTarget(db.releases, t, version, target)
    requires IsNext(env, db.releases, t, next) && TakenBy(db.releases, t, next, k)
    ensures db.releases[target].manifest.Obj?
    ensures var o := Rollback(env, db, t, version, facts);
            var r := db.releases[k];
            var stamped := Stamp(Stripped(db.releases[target].manifest), next, r.build);
            if env.checksum(stamped) != r.checksum then o == Outcome(db, Err(VersionConflict))
            else if !facts.assetsOk then o == Outcome(db, Err(IncompatibleRuntime))
            else o.result == Ok(Some(Reply(k, next, r.build, r.checksum, r.status)))
                 && QueuedAgain(db, o.db, t, k, stamped)
  {
    var stripped := RollsBack(env, db, t, version, facts, target);
    RequestsExactly(env, db.releases, t, stripped, next);
    AllocatesAgain(env, db.releases, t, stripped, k);
    ReissueAnswers(env, db, t, stripped, facts);
    if Matches(env, db.releases[k], stripped) {
      var a := AllocationOf(db.releases[k], stripped);
      FoundByVersion(env, db.releases, t, k);
      RecoveredRow(db.releases, t, k, a);
      QueuesFound(db, t, a, k);
    }
  }

  /** When the next version is no MAJOR.MINOR.PATCH text. */
  lemma RolledBackBad(
    env: Env, db: Db, t: TenantId, version: string, facts: Facts, target: ReleaseId, next: string)
    requires Inv(env, db) && facts.permitted && t in db.tenants && IsTarget(db.releases, t, version, target)
    requires IsNext(env, db.releases, t, next) && !IsText(next)
    ensures Rollback(env, db, t, version, facts) == Outcome(db, Err(BadVersion))
  {
    var stripped := RollsBack(env, db, t, version, facts, target);
    RequestsExactly(env, db.releases, t, stripped, next);
    TextExactly(next);
    StoredVersionsAreValid(env, db.releases, t);
    AllocatesBad(env, db.releases, t, stripped, next);
    ReissueAnswers(env, db, t, stripped, facts);
  }

  // ---------------------------------------------------------------- reviews

  /** The tables after an approval: the release is the tenant's public one, and no other is public or pending. */
  ghost predicate WentPublic(db: Db, after: Db, t: TenantId, i: ReleaseId) {
    && |after.releases| == |db.releases| && after.drafts == db.drafts
    && (forall k :: 0 <= k < |db.releases| ==>
          after.releases[k] == if k == i then db.releases[k].(status := Published)
                               else if db.releases[k].tenant == t && db.releases[k].status in {Published, PendingReview}
                               then db.releases[k].(status := Superseded) else db.releases[k])
    && after.tenants == db.tenants[t := Tenant(Approved, Some(i), None)]
  }

  /** A pending release goes public when a reviewer approves. */
  lemma ApprovedPending(db: Db, t: TenantId, i: ReleaseId)
    requires Consistent(db) && i < |db.releases| && db.releases[i].tenant == t && db.releases[i].status == PendingReview
    ensures var (o, r) := (ApproveApp(db, t, true), db.releases[i]);
            && o.result == Ok(Some(Reply(i, r.version, r.build, r.checksum, Published)))
            && WentPublic(db, o.db, t, i)
  {
    ApprovalIsNeverStuck(db, i);
    ActivatesRows(db, t, i);
  }

  lemma ActivatesRows(db: Db, t: TenantId, i: ReleaseId)
    requires i < |db.releases|
    ensures WentPublic(db, Activated(db, t, i), t, i)
  {
  }

  /** Without a pending release an approval changes nothing, and says why. */
  lemma ApprovedNothing(db: Db, t: TenantId, reviewer: bool)
    requires !reviewer || forall i :: 0 <= i < |db.releases| ==>
               db.releases[i].tenant != t || db.releases[i].status != PendingReview
    ensures ApproveApp(db, t, reviewer)
         == Outcome(db, if !reviewer then Err(NotPermitted)
                        else if t !in db.tenants then Err(MerchantNotFound)
                        else match db.tenants[t].appStatus
                          case Approved => Ok(None)
                          case InReview => Err(NothingSubmitted)
                          case _ => Err(NotInReview))
  {
    assert forall i :: 0 <= i < |db.releases| && IsCandidate(db.releases[i], t, true) ==> !reviewer;
  }

  /** A rejection outside a review, or without a reason, changes nothing, and says why; else it is carried out. */
  lemma RejectedExactly(db: Db, t: TenantId, reviewer: bool, reason: string)
    ensures var o := RejectApp(db, t, reviewer, reason);
            if !reviewer then o == Outcome(db, Err(NotPermitted))
            else if t !in db.tenants then o == Outcome(db, Err(MerchantNotFound))
            else if db.tenants[t].appStatus == AppRejected then o == Outcome(db, Ok(None))
            else if db.tenants[t].appStatus != InReview then o == Outcome(db, Err(NotInReview))
            else if reason == "" then o == Outcome(db, Err(ReasonRequired))
            else
              && o.result == Ok(None) && o.db.drafts == db.drafts && |o.db.releases| == |db.releases|
              && o.db.tenants == db.tenants[t := Tenant(AppRejected, db.tenants[t].active, Some(reason))]
              && forall i :: 0 <= i < |db.releases| ==>
                   o.db.releases[i]
                     == if db.releases[i].tenant == t && db.releases[i].status == PendingReview
                        then db.releases[i].(status := Rejected, notes := Some(reason)) else db.releases[i]
  {
    if reviewer && t in db.tenants && db.tenants[t].appStatus == InReview {
      RejectionOutcome(db, t, reason);
    }
  }

  // ---------------------------------------------------------------- app submissions

  /** An owner's app submission is answered like the submission itself, and leaves the tenant in review. */
  lemma AppSubmittedExactly(env: Env, db: Db, t: TenantId, manifest: Value, owner: bool, facts: Facts)
    ensures var o := SubmitAppReview(env, db, t, manifest, owner, facts);
            var s := SubmitForReview(env, db, t, manifest, facts);
            if !owner || t !in db.tenants then o == Outcome(db, Err(NotPermitted))
            else
              && o.result == s.result && o.db.releases == s.db.releases && o.db.drafts == s.db.drafts
              && (o.result.Err? ==> o.db == db)
              && (o.result.Ok? ==>
                    t in s.db.tenants
                    && o.db.tenants == s.db.tenants[t := Tenant(InReview, s.db.tenants[t].active, None)])
  {
    if owner && t in db.tenants {
      RefusedSubmission(env, db, t, manifest, facts);
      AppSubmissionSteps(env, db, t, manifest, facts);
      AppIsAnswered(env, db, t, manifest, facts);
    }
  }

  lemma AppIsAnswered(env: Env, db: Db, t: TenantId, manifest: Value, facts: Facts)
    requires t in db.tenants && (SubmitForReview(env, db, t, manifest, facts).result.Err? ==>
                                   SubmitForReview(env, db, t, manifest, facts).db == db)
    ensures SubmitForReview(env, db, t, manifest, facts).result.Err? ==>
              SubmitAppReview(env, db, t, manifest, true, facts) == SubmitForReview(env, db, t, manifest, facts)
  {
  }
}
