/** The publishing and review services over mutable tables, each call tied to the protocol step it performs. */
module PublishingService {
  import opened Options
  import opened Json
  import opened Stamping
  import opened Publishing
  import opened PublishingAnswers
  import Compatibility
  import ManifestValidator

  /** A staged row that is not pending was there before: finishing may look at either table. */
  lemma FinishAfterStaging(db: Db, t: TenantId, a: Allocation)
    requires t in db.tenants && CreateReviewRelease(db.releases, t, a).Ok?
    ensures var staged := CreateReviewRelease(db.releases, t, a).value;
            FinishSubmission(db.(releases := staged.releases), t, a, staged) == FinishSubmission(db, t, a, staged)
  {
  }

  class Service {
    const env: Env
    var tenants: map<TenantId, Tenant>
    var releases: seq<Release>
    var drafts: map<TenantId, Draft>

    constructor (env: Env)
      ensures this.env == env && State() == EMPTY
    {
      this.env := env;
      tenants, releases, drafts := map[], [], map[];
    }

    ghost function State(): Db
      reads this
    {
      Db(tenants, releases, drafts)
    }

    /** Both gates, each run by its own walk over the manifest. */
    method CheckManifest(manifest: Value, facts: Facts) returns (refusal: Option<Error>)
      ensures refusal == GateError(env, manifest, facts)
      ensures refusal == if !InOrder(manifest, facts) then Some(InvalidManifest)
                         else if !Fits(env, manifest, facts) then Some(IncompatibleRuntime)
                         else if OddVersion(manifest) then Some(InvalidManifest)
                         else None
    {
      GateExactly(env, manifest, facts);
      var validation := new ManifestValidator.Validation();
      var valid := validation.Validate(manifest);
      if !valid || !facts.navigationOk {
        return Some(InvalidManifest);
      }
      var compatible := CheckCompatible(manifest, facts);
      if !compatible {
        return Some(IncompatibleRuntime);
      }
      if HasTruthy(manifest, "version") && !HasString(manifest, "version") {
        return Some(InvalidManifest);
      }
      return None;
    }

    method CheckCompatible(manifest: Value, facts: Facts) returns (ok: bool)
      ensures ok == Compatible(env, manifest, facts)
    {
      var evaluation := new Compatibility.Evaluation(env.contract);
      var compatible := evaluation.Evaluate(manifest);
      ok := compatible && facts.assetsOk;
    }

    /** Only the newest submission stays actionable. */
    method SupersedePendingCandidates(t: TenantId, keep: ReleaseId)
      modifies `releases
      ensures releases == Supersede(old(releases), t, keep)
    {
      for i := 0 to |releases|
        invariant |releases| == |old(releases)|
        invariant forall k :: 0 <= k < |releases| ==>
                    releases[k] == if k < i then SupersededRow(old(releases)[k], k, t, keep) else old(releases)[k]
      {
        if releases[i].tenant == t && releases[i].status == PendingReview && i != keep {
          releases := releases[i := releases[i].(status := Superseded)];
        }
      }
    }

    /** Insert the candidate, or recover the release that already holds its version. */
    method StageCandidate(t: TenantId, a: Allocation) returns (r: Result<ReleaseId, Error>)
      modifies `releases
      ensures match CreateReviewRelease(old(releases), t, a)
              case Ok(staged) => r == Ok(staged.id) && releases == staged.releases
              case Err(e) => r == Err(e) && releases == old(releases)
    {
      var existing := ByVersion(releases, t, a.version, |releases|);
      if existing.None? {
        releases := releases + [Release(t, a.version, a.build, a.manifest, a.checksum, PendingReview, None)];
        return Ok(|releases| - 1);
      }
      if releases[existing.value].checksum == a.checksum {
        return Ok(existing.value);
      }
      return Err(VersionConflict);
    }

    method SaveDraftOf(t: TenantId, manifest: Value)
      modifies `drafts
      ensures drafts == SaveDraft(old(drafts), t, manifest)
    {
      var version := if t in drafts then drafts[t].version + 1 else 1;
      drafts := drafts[t := Draft(version, manifest)];
    }

    method MarkSubmittedForReview(t: TenantId)
      requires t in tenants
      modifies `tenants
      ensures tenants == MarkSubmitted(old(tenants), t)
    {
      tenants := tenants[t := tenants[t].(appStatus := InReview, note := None)];
    }

    method SubmitForReview(t: TenantId, manifest: Value, facts: Facts) returns (r: Result<Option<Reply>, Error>)
      modifies this
      ensures Outcome(State(), r) == Publishing.SubmitForReview(env, old(State()), t, manifest, facts)
    {
      if !facts.permitted || t !in tenants {
        return Err(NotPermitted);
      }
      var refusal := CheckManifest(manifest, facts);
      if refusal.Some? {
        return Err(refusal.value);
      }
      r := PublishClientManifest(t, manifest, facts);
    }

    /** Both gates once more, then the rest of the submission. */
    method PublishClientManifest(t: TenantId, manifest: Value, facts: Facts) returns (r: Result<Option<Reply>, Error>)
      requires t in tenants
      modifies this
      ensures Outcome(State(), r)
           == Publishing.SubmitForReview(env, old(State()), t, manifest, facts.(permitted := true))
    {
      var refusal := CheckManifest(manifest, facts);
      if refusal.Some? {
        return Err(refusal.value);
      }
      var allocation := AllocateVersion(env, releases, t, manifest);
      if allocation.Err? {
        return Err(allocation.error);
      }
      var a := allocation.value;
      var staged := StageCandidate(t, a);
      if staged.Err? {
        return Err(staged.error);
      }
      FinishAfterStaging(old(State()), t, a);
      r := FinishSubmission(t, a, staged.value);
    }

    method FinishSubmission(t: TenantId, a: Allocation, id: ReleaseId) returns (r: Result<Option<Reply>, Error>)
      requires t in tenants && id < |releases|
      modifies this
      ensures Outcome(State(), r) == Publishing.FinishSubmission(old(State()), t, a, Staged(old(releases), id))
    {
      var reply := ReplyFor(releases, id);
      if reply.status != PendingReview && reply.status != Published {
        return Err(VersionAlreadyReviewed);
      }
      SaveDraftOf(t, a.manifest);
      if reply.status == PendingReview {
        SupersedePendingCandidates(t, id);
        MarkSubmittedForReview(t);
      }
      r := Ok(Some(reply));
    }

    /**
     * The given manifest, or else what the saved drafts compile to; `compiled`
     * is None when the drafts do not pass their own validation.
     */
    method SubmitAppReview(t: TenantId, given: Value, compiled: Option<Value>, owner: bool, facts: Facts)
      returns (r: Result<Option<Reply>, Error>)
      modifies this
      ensures Outcome(State(), r)
           == if !given.Null? then Publishing.SubmitAppReview(env, old(State()), t, given, owner, facts)
              else if compiled.Some? then Publishing.SubmitAppReview(env, old(State()), t, compiled.value, owner, facts)
              else Outcome(old(State()), Err(if owner && t in old(tenants) && facts.permitted then InvalidDrafts
                                             else NotPermitted))
    {
      if !owner || t !in tenants {
        return Err(NotPermitted);
      }
      if given.Null? {
        r := SubmitDraftsForReview(t, compiled, facts);
      } else {
        r := SubmitForReview(t, given, facts);
      }
      if r.Ok? && t in tenants {
        MarkSubmittedForReview(t);
      }
    }

    method SubmitDraftsForReview(t: TenantId, compiled: Option<Value>, facts: Facts)
      returns (r: Result<Option<Reply>, Error>)
      requires t in tenants
      modifies this
      ensures Outcome(State(), r)
           == if compiled.Some? then Publishing.SubmitForReview(env, old(State()), t, compiled.value, facts)
              else Outcome(old(State()), Err(if facts.permitted then InvalidDrafts else NotPermitted))
    {
      if !facts.permitted {
        return Err(NotPermitted);
      }
      if compiled.None? {
        return Err(InvalidDrafts);
      }
      r := SubmitForReview(t, compiled.value, facts);
    }

    method Rollback(t: TenantId, version: string, facts: Facts) returns (r: Result<Option<Reply>, Error>)
      modifies this
      ensures Outcome(State(), r) == Publishing.Rollback(env, old(State()), t, version, facts)
    {
      if !facts.permitted || t !in tenants {
        return Err(NotPermitted);
      }
      var target := ByVersion(releases, t, version, |releases|);
      if target.None? {
        return Err(TargetNotFound);
      }
      var source := releases[target.value];
      if source.status !in {Published, Superseded, RolledBack} || !source.manifest.Obj? {
        return Err(TargetNotFound);
      }
      r := StageReissue(t, Obj(RemoveField(source.manifest.fields, "version")), facts);
    }

    method StageReissue(t: TenantId, manifest: Value, facts: Facts) returns (r: Result<Option<Reply>, Error>)
      requires t in tenants && manifest.Obj?
      modifies this
      ensures Outcome(State(), r) == Reissue(env, old(State()), t, manifest, facts)
    {
      var allocation := AllocateVersion(env, releases, t, manifest);
      if allocation.Err? {
        return Err(allocation.error);
      }
      var a := allocation.value;
      var compatible := CheckCompatible(a.manifest, facts);
      if !compatible {
        return Err(IncompatibleRuntime);
      }
      var staged := StageCandidate(t, a);
      if staged.Err? {
        return Err(staged.error);
      }
      r := Ok(Some(ReplyFor(releases, staged.value)));
      SaveDraftOf(t, a.manifest);
      SupersedePendingCandidates(t, staged.value);
      MarkSubmittedForReview(t);
    }

    /** Supersedes what was public or pending, publishes the candidate and makes it active. */
    method ActivateReviewRelease(t: TenantId, candidate: ReleaseId)
      requires t in tenants && candidate < |releases|
      modifies `releases, `tenants
      ensures releases == Activated(old(State()), t, candidate).releases
      ensures tenants == Activated(old(State()), t, candidate).tenants
    {
      for i := 0 to |releases|
        invariant |releases| == |old(releases)|
        invariant forall k :: 0 <= k < |releases| && k != candidate ==>
                    releases[k] == if k < i then ActivatedRow(old(releases)[k], k, t, candidate) else old(releases)[k]
        invariant releases[candidate] == old(releases)[candidate] && tenants == old(tenants)
      {
        if releases[i].tenant == t && releases[i].status in {Published, PendingReview} && i != candidate {
          releases := releases[i := releases[i].(status := Superseded)];
        }
      }
      releases := releases[candidate := releases[candidate].(status := Published)];
      assert releases == Activate(old(releases), t, candidate);
      tenants := tenants[t := Tenant(Approved, Some(candidate), None)];
    }

    method ApproveApp(t: TenantId, reviewer: bool) returns (r: Result<Option<Reply>, Error>)
      modifies this
      ensures Outcome(State(), r) == Publishing.ApproveApp(old(State()), t, reviewer)
    {
      if !reviewer {
        return Err(NotPermitted);
      }
      if t !in tenants {
        return Err(MerchantNotFound);
      }
      if tenants[t].appStatus == Approved {
        return Ok(None);
      }
      if tenants[t].appStatus != InReview {
        return Err(NotInReview);
      }
      var candidate := Latest(releases, t, true, |releases|);
      if candidate.None? {
        return Err(NothingSubmitted);
      }
      ActivateReviewRelease(t, candidate.value);
      r := Ok(Some(ReplyFor(releases, candidate.value)));
    }

    method RejectApp(t: TenantId, reviewer: bool, reason: string) returns (r: Result<Option<Reply>, Error>)
      modifies this
      ensures Outcome(State(), r) == Publishing.RejectApp(old(State()), t, reviewer, reason)
    {
      if !reviewer {
        return Err(NotPermitted);
      }
      if t !in tenants {
        return Err(MerchantNotFound);
      }
      if tenants[t].appStatus == AppRejected {
        return Ok(None);
      }
      if tenants[t].appStatus != InReview {
        return Err(NotInReview);
      }
      if reason == "" {
        return Err(ReasonRequired);
      }
      tenants := tenants[t := tenants[t].(appStatus := AppRejected, note := Some(reason))];
      for i := 0 to |releases|
        invariant |releases| == |old(releases)|
        invariant forall k :: 0 <= k < |releases| ==>
                    releases[k] == if k < i then RejectedRow(old(releases)[k], t, reason) else old(releases)[k]
        invariant tenants == Turned(old(State()), t, reason).tenants && drafts == old(drafts)
      {
        if releases[i].tenant == t && releases[i].status == PendingReview {
          releases := releases[i := releases[i].(status := Rejected, notes := Some(reason))];
        }
      }
      return Ok(None);
    }
  }
}
