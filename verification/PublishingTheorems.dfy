/** What merchants, reviewers and the public can rely on in every reachable state. */
module PublishingTheorems {
  import opened Options
  import opened Json
  import opened Stamping
  import opened Publishing
  import opened PublishingHistory
  import opened PublishingSafety
  import Decimal
  import Versions
  import Compatibility

  // ---------------------------------------------------------------- the public release

  /** The active release of a tenant is its one published release, or there is none; the shell can render it. */
  lemma PublicReleaseIsUnique(env: Env, events: seq<Event>, t: TenantId)
    ensures var db := Run(env, EMPTY, events);
            && (forall i :: 0 <= i < |db.releases| && db.releases[i].tenant == t && db.releases[i].status == Published
                  ==> t in db.tenants && db.tenants[t].active == Some(i))
            && (t in db.tenants && db.tenants[t].active.Some? ==>
                  var i := db.tenants[t].active.value;
                  && i < |db.releases| && db.releases[i].tenant == t && db.releases[i].status == Published
                  && Compatibility.Errors(env.contract, db.releases[i].manifest) == {})
  {
    EveryRunIsSafe(env, events);
    var db := Run(env, EMPTY, events);
    if t in db.tenants && db.tenants[t].active.Some? {
      assert Sound(env, db.releases[db.tenants[t].active.value]);
    }
  }

  lemma PendingIsLatest(db: Db, i: ReleaseId)
    requires Consistent(db) && i < |db.releases| && db.releases[i].status == PendingReview
    ensures Latest(db.releases, db.releases[i].tenant, true, |db.releases|) == Some(i)
  {
    assert IsCandidate(db.releases[i], db.releases[i].tenant, true);
  }

  /** A pending release can always be approved, and it is that very release that goes public. */
  lemma ApprovalIsNeverStuck(db: Db, i: ReleaseId)
    requires Consistent(db) && i < |db.releases| && db.releases[i].status == PendingReview
    ensures var t := db.releases[i].tenant;
            var after := Activated(db, t, i);
            && ApproveApp(db, t, true) == Outcome(after, Ok(Some(ReplyFor(after.releases, i))))
            && after.releases[i] == db.releases[i].(status := Published)
            && after.tenants[t] == Tenant(Approved, Some(i), None)
            && (forall j :: 0 <= j < |db.releases| && j != i ==>
                  if db.releases[j].tenant == t
                  then after.releases[j].status !in {Published, PendingReview}
                       && CoreOf(after.releases[j]) == CoreOf(db.releases[j])
                  else after.releases[j] == db.releases[j])
  {
    PendingIsLatest(db, i);
  }

  /** Approval activates something exactly when the tenant has a pending release. */
  lemma ApprovalNeedsPending(db: Db, t: TenantId)
    requires Consistent(db)
    ensures (ApproveApp(db, t, true).result.Ok? && ApproveApp(db, t, true).result.value.Some?)
       <==> exists i :: 0 <= i < |db.releases| && IsCandidate(db.releases[i], t, true)
  {
    if i :| 0 <= i < |db.releases| && IsCandidate(db.releases[i], t, true) {
      ApprovalIsNeverStuck(db, i);
    }
  }

  /** What a rejection does to a tenant in review. */
  lemma RejectionOutcome(db: Db, t: TenantId, reason: string)
    requires t in db.tenants && db.tenants[t].appStatus == InReview
    ensures var o := RejectApp(db, t, true, reason);
            if reason == "" then o == Outcome(db, Err(ReasonRequired))
            else
              && o.result == Ok(None) && o.db.drafts == db.drafts
              && o.db.tenants == db.tenants[t := Tenant(AppRejected, db.tenants[t].active, Some(reason))]
              && |o.db.releases| == |db.releases|
              && (forall i :: 0 <= i < |db.releases| ==>
                    o.db.releases[i]
                      == if IsCandidate(db.releases[i], t, true)
                         then db.releases[i].(status := Rejected, notes := Some(reason))
                         else db.releases[i])
              && ApproveApp(o.db, t, true).result == Err(NotInReview)
  {
  }

  /** What an accepted submission does, when it is answered with a pending release. */
  lemma SubmissionOutcome(env: Env, db: Db, t: TenantId, manifest: Value, facts: Facts, reply: Reply)
    requires SubmitForReview(env, db, t, manifest, facts).result == Ok(Some(reply)) && reply.status == PendingReview
    ensures var after := SubmitForReview(env, db, t, manifest, facts).db;
            && t in db.tenants && after.tenants == db.tenants[t := Tenant(InReview, db.tenants[t].active, None)]
            && (forall i :: 0 <= i < |after.releases| ==> (IsCandidate(after.releases[i], t, true) <==> i == reply.id))
            && reply.id < |after.releases| && reply == ReplyFor(after.releases, reply.id)
            && manifest.Obj?
            && after.drafts == db.drafts[t := Draft(if t in db.drafts then db.drafts[t].version + 1 else 1,
                                                    Stamp(manifest, reply.version, reply.build))]
  {
    var a := AllocateVersion(env, db.releases, t, manifest).value;
    AllocationAppends(env, db.releases, t, manifest);
    QueueOutcome(env, db, t, manifest, a, reply);
    AnsweredRow(env, db, t, manifest, facts, reply);
  }

  lemma QueueOutcome(env: Env, db: Db, t: TenantId, manifest: Value, a: Allocation, reply: Reply)
    requires t in db.tenants && manifest.Obj? && Allocates(env, db.releases, t, manifest, a)
    requires CreateReviewRelease(db.releases, t, a).Ok?
    requires FinishSubmission(db, t, a, CreateReviewRelease(db.releases, t, a).value).result == Ok(Some(reply))
    requires reply.status == PendingReview
    ensures var after := FinishSubmission(db, t, a, CreateReviewRelease(db.releases, t, a).value).db;
            && after.tenants == db.tenants[t := Tenant(InReview, db.tenants[t].active, None)]
            && (forall i :: 0 <= i < |after.releases| && IsCandidate(after.releases[i], t, true) ==> i == reply.id)
            && after.drafts == db.drafts[t := Draft(if t in db.drafts then db.drafts[t].version + 1 else 1,
                                                    Stamp(manifest, reply.version, reply.build))]
  {
    var staged := CreateReviewRelease(db.releases, t, a).value;
    FinishPending(db, t, a, staged, reply);
    StagedStamps(env, db.releases, t, manifest, a);
  }

  lemma FinishPending(db: Db, t: TenantId, a: Allocation, staged: Staged, reply: Reply)
    requires t in db.tenants && staged.id < |staged.releases|
    requires FinishSubmission(db, t, a, staged).result == Ok(Some(reply)) && reply.status == PendingReview
    ensures reply == ReplyFor(staged.releases, staged.id)
    ensures var after := FinishSubmission(db, t, a, staged).db;
            && after.tenants == db.tenants[t := Tenant(InReview, db.tenants[t].active, None)]
            && (forall i :: 0 <= i < |after.releases| && IsCandidate(after.releases[i], t, true) ==> i == reply.id)
            && after.drafts == SaveDraft(db.drafts, t, a.manifest)
  {
  }

  lemma StagedStamps(env: Env, rs: seq<Release>, t: TenantId, manifest: Value, a: Allocation)
    requires manifest.Obj? && Allocates(env, rs, t, manifest, a) && CreateReviewRelease(rs, t, a).Ok?
    ensures var staged := CreateReviewRelease(rs, t, a).value;
            a.manifest == Stamp(manifest, staged.releases[staged.id].version, staged.releases[staged.id].build)
  {
  }

  /** A submission answers with a row that is pending now, or with one that is published and changes no row. */
  lemma AnsweredRow(env: Env, db: Db, t: TenantId, manifest: Value, facts: Facts, reply: Reply)
    requires SubmitForReview(env, db, t, manifest, facts).result == Ok(Some(reply))
    ensures var after := SubmitForReview(env, db, t, manifest, facts).db;
            && t in after.tenants && reply.id < |after.releases| && reply == ReplyFor(after.releases, reply.id)
            && after.releases[reply.id].tenant == t
            && (reply.status == PendingReview || (reply.status == Published && after.releases == db.releases))
  {
    var a := AllocateVersion(env, db.releases, t, manifest).value;
    AnsweredAdmitted(env, db, t, a, reply);
  }

  lemma AnsweredAdmitted(env: Env, db: Db, t: TenantId, a: Allocation, reply: Reply)
    requires t in db.tenants && CreateReviewRelease(db.releases, t, a).Ok?
    requires FinishSubmission(db, t, a, CreateReviewRelease(db.releases, t, a).value).result == Ok(Some(reply))
    ensures var after := FinishSubmission(db, t, a, CreateReviewRelease(db.releases, t, a).value).db;
            && t in after.tenants && reply.id < |after.releases| && reply == ReplyFor(after.releases, reply.id)
            && after.releases[reply.id].tenant == t
            && (reply.status == PendingReview || (reply.status == Published && after.releases == db.releases))
  {
  }

  // ---------------------------------------------------------------- versions

  /** The first release of a tenant that has releases, and whether its patch is within exact doubles. */
  ghost predicate ExactVersions(rs: seq<Release>, t: TenantId, first: ReleaseId) {
    && first < |rs| && rs[first].tenant == t && rs[first].build == 1
    && Versions.IsVersion(rs[first].version) && Versions.Parse(rs[first].version).patch <= Versions.MAX_EXACT
  }

  /** In every reachable state, build k of a tenant carries the first version with its patch advanced by k - 1. */
  lemma VersionsMarchInLockStep(env: Env, events: seq<Event>, t: TenantId, first: ReleaseId, i: ReleaseId)
    requires var rs := Run(env, EMPTY, events).releases;
             ExactVersions(rs, t, first) && i < |rs| && rs[i].tenant == t
    ensures var rs := Run(env, EMPTY, events).releases;
            && 1 <= rs[i].build <= Earlier(rs, t, |rs|)
            && rs[i].version == Versions.Print(VersionOfBuild(Versions.Parse(rs[first].version), rs[i].build))
  {
    EveryRunIsSafe(env, events);
    RowsMarch(Run(env, EMPTY, events).releases, t, first, i);
  }

  lemma RowsMarch(rs: seq<Release>, t: TenantId, first: ReleaseId, i: ReleaseId)
    requires Numbered(rs) && LockStep(rs) && ExactVersions(rs, t, first) && i < |rs| && rs[i].tenant == t
    ensures 1 <= rs[i].build <= Earlier(rs, t, |rs|)
    ensures rs[i].version == Versions.Print(VersionOfBuild(Versions.Parse(rs[first].version), rs[i].build))
  {
    assert Follows(rs, first, i);
    EarlierMonotone(rs, t, i + 1, |rs|);
  }

  /** No submission ever meets a stored version that it cannot increment. */
  lemma SubmitFindsValidVersions(env: Env, db: Db, t: TenantId, manifest: Value, facts: Facts)
    requires Inv(env, db)
    ensures SubmitForReview(env, db, t, manifest, facts).result != Err(InvalidStoredVersion)
  {
    StoredVersionsAreValid(env, db.releases, t);
  }

  /** Nor does any rollback. */
  lemma RollbackFindsValidVersions(env: Env, db: Db, t: TenantId, version: string, facts: Facts)
    requires Inv(env, db)
    ensures Rollback(env, db, t, version, facts).result != Err(InvalidStoredVersion)
  {
    StoredVersionsAreValid(env, db.releases, t);
  }

  /** Taking the version off a stored manifest changes neither its content nor what the gate sees. */
  lemma StrippedManifest(env: Env, source: Value, version: string, build: nat)
    requires IsStamped(source, version, build)
    ensures var stripped := Obj(RemoveField(source.fields, "version"));
            && !HasTruthy(stripped, "version")
            && PartIsObject(stripped, "metadata") && PartIsObject(stripped, "app")
            && Content(stripped) == Content(source)
            && Compatibility.Errors(env.contract, stripped) == Compatibility.Errors(env.contract, source)
  {
    var stripped := Obj(RemoveField(source.fields, "version"));
    GetAfterRemove(source.fields, "version", "version");
    GetAfterRemove(source.fields, "version", "metadata");
    GetAfterRemove(source.fields, "version", "app");
    GetAfterRemove(source.fields, "version", "screens");
    GetAfterRemove(source.fields, "version", "manifestVersion");
    ContentAfterRemove(source.fields);
    assert Compatibility.Screens(stripped) == Compatibility.Screens(source);
    assert Compatibility.SchemaSupported(stripped) == Compatibility.SchemaSupported(source);
  }

  lemma ReissueIsNew(env: Env, db: Db, t: TenantId, manifest: Value, next: string, facts: Facts)
    requires t in db.tenants && manifest.Obj? && !HasTruthy(manifest, "version") && facts.assetsOk
    requires NextVersion(env, db.releases, t) == Some(next) && Versions.IsVersion(next)
    requires ByVersion(db.releases, t, next, |db.releases|).None?
    requires Compatibility.Errors(env.contract, manifest) == {}
    ensures var build := NextBuild(db.releases, t);
            var stamped := Stamp(manifest, next, build);
            var a := Allocation(next, build, stamped, env.checksum(stamped));
            var r := Release(t, next, build, stamped, env.checksum(stamped), PendingReview, None);
            var staged := Staged(db.releases + [r], |db.releases|);
            Reissue(env, db, t, manifest, facts)
              == Outcome(Queue(db, t, staged, stamped),
                         Ok(Some(Reply(|db.releases|, next, build, r.checksum, PendingReview))))
  {
    var build := NextBuild(db.releases, t);
    var stamped := Stamp(manifest, next, build);
    var a := Allocation(next, build, stamped, env.checksum(stamped));
    GateIgnoresStamps(env.contract, manifest, next, build);
    AllocatesNext(env, db.releases, t, manifest, next);
    assert CreateReviewRelease(db.releases, t, a)
        == Ok(Staged(db.releases + [Release(t, next, build, stamped, a.checksum, PendingReview, None)], |db.releases|));
  }

  lemma AllocatesNext(env: Env, rs: seq<Release>, t: TenantId, manifest: Value, next: string)
    requires manifest.Obj? && !HasTruthy(manifest, "version") && Versions.IsVersion(next)
    requires NextVersion(env, rs, t) == Some(next) && ByVersion(rs, t, next, |rs|).None?
    ensures var stamped := Stamp(manifest, next, NextBuild(rs, t));
            AllocateVersion(env, rs, t, manifest)
              == Ok(Allocation(next, NextBuild(rs, t), stamped, env.checksum(stamped)))
  {
  }

  /** A row of the tenant, and the conditions under which a rollback to it passes the gate. */
  ghost predicate CanRollBack(db: Db, t: TenantId, target: ReleaseId, facts: Facts) {
    && t in db.tenants && facts.permitted && facts.assetsOk
    && target < |db.releases| && db.releases[target].tenant == t
    && db.releases[target].status in {Published, Superseded, RolledBack}
  }

  /** A rollback for which the next version is free adds it as a pending release, with the target's content. */
  lemma RollbackAdds(env: Env, db: Db, t: TenantId, target: ReleaseId, next: string, facts: Facts)
    requires History(env, db.releases) && CanRollBack(db, t, target, facts)
    requires NextVersion(env, db.releases, t) == Some(next) && Versions.IsVersion(next)
    requires ByVersion(db.releases, t, next, |db.releases|).None?
    ensures var o := Rollback(env, db, t, db.releases[target].version, facts);
            var n := |db.releases|;
            && |o.db.releases| == n + 1
            && o.db.releases[n].status == PendingReview && o.db.releases[n].tenant == t
            && o.db.releases[n].build == NextBuild(db.releases, t) && o.db.releases[n].version == next
            && Content(o.db.releases[n].manifest) == Content(db.releases[target].manifest)
            && o.result == Ok(Some(ReplyFor(o.db.releases, n)))
  {
    var stripped := StrippedTarget(env, db, t, target);
    var stamped := Stamp(stripped, next, NextBuild(db.releases, t));
    var r := Release(t, next, NextBuild(db.releases, t), stamped, env.checksum(stamped), PendingReview, None);
    RollbackIsReissue(env, db, t, target, stripped, facts);
    ReissueIsNew(env, db, t, stripped, next, facts);
    QueuedNew(db, t, r);
    StampKeepsContent(stripped, next, NextBuild(db.releases, t));
  }

  /**
   * Below the limit of exact doubles a rollback to a release that was public
   * never meets a version conflict: it always adds the version after the
   * latest one, with the target's content.
   */
  lemma RollbackNeverConflicts(
      env: Env, db: Db, t: TenantId, target: ReleaseId, latest: ReleaseId, first: ReleaseId, v: Versions.Version,
      facts: Facts)
    requires Inv(env, db) && CanRollBack(db, t, target, facts) && ExactVersions(db.releases, t, first)
    requires Latest(db.releases, t, false, |db.releases|) == Some(latest)
    requires db.releases[latest].version == Versions.Print(v) && v.patch < Versions.MAX_EXACT
    ensures var o := Rollback(env, db, t, db.releases[target].version, facts);
            var n := |db.releases|;
            && |o.db.releases| == n + 1
            && o.db.releases[n].status == PendingReview && o.db.releases[n].tenant == t
            && o.db.releases[n].build == db.releases[latest].build + 1
            && o.db.releases[n].version == Versions.Print(v.(patch := v.patch + 1))
            && Content(o.db.releases[n].manifest) == Content(db.releases[target].manifest)
            && o.result == Ok(Some(ReplyFor(o.db.releases, n)))
  {
    var next := Successor(env, db.releases, t, latest, first, v);
    RollbackAdds(env, db, t, target, next, facts);
  }

  lemma RollbackIsReissue(env: Env, db: Db, t: TenantId, target: ReleaseId, stripped: Value, facts: Facts)
    requires CanRollBack(db, t, target, facts) && stripped.Obj?
    requires ByVersion(db.releases, t, db.releases[target].version, |db.releases|) == Some(target)
    requires db.releases[target].manifest.Obj?
    requires stripped == Obj(RemoveField(db.releases[target].manifest.fields, "version"))
    ensures Rollback(env, db, t, db.releases[target].version, facts) == Reissue(env, db, t, stripped, facts)
  {
  }

  /** The version after the latest one: one patch up, and free. */
  lemma Successor(
      env: Env, rs: seq<Release>, t: TenantId, latest: ReleaseId, first: ReleaseId, v: Versions.Version)
    returns (next: string)
    requires History(env, rs) && ExactVersions(rs, t, first) && Latest(rs, t, false, |rs|) == Some(latest)
    requires rs[latest].version == Versions.Print(v) && v.patch < Versions.MAX_EXACT
    ensures next == Versions.Print(v.(patch := v.patch + 1))
    ensures NextVersion(env, rs, t) == Some(next) && Versions.IsVersion(next)
    ensures ByVersion(rs, t, next, |rs|).None? && NextBuild(rs, t) == rs[latest].build + 1
  {
    next := Versions.Print(v.(patch := v.patch + 1));
    Versions.RoundTrip(v.(patch := v.patch + 1));
    NextBelowTheLimit(env, rs, t, latest, v, v.(patch := v.patch + 1));
    SuccessorIsFree(env, rs, t, latest, first, v);
  }

  lemma SuccessorIsFree(
      env: Env, rs: seq<Release>, t: TenantId, latest: ReleaseId, first: ReleaseId, v: Versions.Version)
    requires History(env, rs) && ExactVersions(rs, t, first) && Latest(rs, t, false, |rs|) == Some(latest)
    requires rs[latest].version == Versions.Print(v) && v.patch < Versions.MAX_EXACT
    ensures ByVersion(rs, t, Versions.Print(v.(patch := v.patch + 1)), |rs|).None?
  {
    LatestInStep(env, rs, t, latest, first, v);
    SuccessorUnused(rs, t, latest, first, v);
  }

  lemma LatestInStep(
      env: Env, rs: seq<Release>, t: TenantId, latest: ReleaseId, first: ReleaseId, v: Versions.Version)
    requires History(env, rs) && ExactVersions(rs, t, first) && latest < |rs| && rs[latest].tenant == t
    requires rs[latest].version == Versions.Print(v)
    ensures rs[latest].build >= 1
    ensures v == VersionOfBuild(Versions.Parse(rs[first].version), rs[latest].build)
  {
    assert Follows(rs, first, latest);
    Versions.PrintInjective(v, VersionOfBuild(Versions.Parse(rs[first].version), rs[latest].build));
  }

  /** A new pending row, once queued, is the last row as it was written. */
  lemma QueuedNew(db: Db, t: TenantId, r: Release)
    requires t in db.tenants
    ensures var after := Queue(db, t, Staged(db.releases + [r], |db.releases|), r.manifest).releases;
            |after| == |db.releases| + 1 && after[|db.releases|] == r
  {
  }

  lemma StrippedTarget(env: Env, db: Db, t: TenantId, target: ReleaseId) returns (stripped: Value)
    requires History(env, db.releases) && target < |db.releases| && db.releases[target].tenant == t
    ensures var source := db.releases[target];
            && ByVersion(db.releases, t, source.version, |db.releases|) == Some(target)
            && source.manifest.Obj? && stripped == Obj(RemoveField(source.manifest.fields, "version"))
            && !HasTruthy(stripped, "version")
            && PartIsObject(stripped, "metadata") && PartIsObject(stripped, "app")
            && Content(stripped) == Content(source.manifest)
            && Compatibility.Errors(env.contract, stripped) == {}
  {
    var source := db.releases[target];
    assert Sound(env, source);
    stripped := Obj(RemoveField(source.manifest.fields, "version"));
    StrippedManifest(env, source.manifest, source.version, source.build);
    assert ByVersion(db.releases, t, source.version, |db.releases|).Some?;
  }

  /** The latest release of a tenant whose versions have reached the limit of exact doubles. */
  ghost predicate AtTheLimit(env: Env, rs: seq<Release>, t: TenantId, latest: ReleaseId) {
    Latest(rs, t, false, |rs|) == Some(latest) && NextVersion(env, rs, t) == Some(rs[latest].version)
  }

  /** `Number(patch) + 1` prints as the patch again: at 2^53, or above it where doubles are too far apart. */
  predicate StandsStill(env: Env, v: Versions.Version) {
    v.patch == Versions.MAX_EXACT
    || (v.patch > Versions.MAX_EXACT && env.beyond(Decimal.Print(v.patch)) == Decimal.Print(v.patch))
  }

  /**
   * The next version is the latest one again exactly when the latest patch
   * stands still.
   */
  lemma LimitIsExact(
      env: Env, rs: seq<Release>, t: TenantId, latest: ReleaseId, v: Versions.Version)
    requires Latest(rs, t, false, |rs|) == Some(latest) && rs[latest].version == Versions.Print(v)
    ensures AtTheLimit(env, rs, t, latest) <==> StandsStill(env, v)
  {
    if v.patch <= Versions.MAX_EXACT {
      Versions.IncrementOfPrint(v, env.beyond);
      if v.patch < Versions.MAX_EXACT && Versions.Print(v) == Versions.Print(v.(patch := v.patch + 1)) {
        Versions.PrintInjective(v, v.(patch := v.patch + 1));
      }
    } else {
      Versions.IncrementBeyond(v, env.beyond);
    }
  }

  /** There, no submission ever adds a release for the tenant. */
  lemma SubmitAddsNothingAtTheLimit(
      env: Env, db: Db, t: TenantId, latest: ReleaseId, manifest: Value, facts: Facts)
    requires AtTheLimit(env, db.releases, t, latest)
    ensures |SubmitForReview(env, db, t, manifest, facts).db.releases| == |db.releases|
  {
    if GateError(env, manifest, facts).None? {
      NothingAdded(env, db.releases, t, latest, manifest);
    }
  }

  /** Nor does any rollback. */
  lemma RollbackAddsNothingAtTheLimit(
      env: Env, db: Db, t: TenantId, latest: ReleaseId, version: string, facts: Facts)
    requires AtTheLimit(env, db.releases, t, latest)
    ensures |Rollback(env, db, t, version, facts).db.releases| == |db.releases|
  {
    match ByVersion(db.releases, t, version, |db.releases|)
    case None =>
    case Some(target) =>
      if db.releases[target].manifest.Obj? {
        NothingAdded(env, db.releases, t, latest, Obj(RemoveField(db.releases[target].manifest.fields, "version")));
      }
  }

  /**
   * A rollback there ends in a version conflict exactly when the target's
   * manifest, stamped as the latest release, is not the latest release again.
   */
  lemma RollbackAtTheLimit(env: Env, db: Db, t: TenantId, target: ReleaseId, latest: ReleaseId, facts: Facts)
    requires History(env, db.releases) && CanRollBack(db, t, target, facts) && AtTheLimit(env, db.releases, t, latest)
    requires db.releases[target].manifest.Obj?
    ensures var row := db.releases[latest];
            var stripped := Obj(RemoveField(db.releases[target].manifest.fields, "version"));
            Rollback(env, db, t, db.releases[target].version, facts).result == Err(VersionConflict)
            <==> env.checksum(Stamp(stripped, row.version, row.build)) != row.checksum
  {
    var row := db.releases[latest];
    var stripped := StrippedTarget(env, db, t, target);
    RollbackIsReissue(env, db, t, target, stripped, facts);
    FoundByVersion(env, db.releases, t, latest);
    AllocatesUnversioned(env, db.releases, t, stripped, row.version);
    ReissueConflicts(env, db, t, stripped, facts);
  }

  lemma AllocatesUnversioned(env: Env, rs: seq<Release>, t: TenantId, manifest: Value, next: string)
    requires manifest.Obj? && !HasTruthy(manifest, "version")
    requires NextVersion(env, rs, t) == Some(next) && Versions.IsVersion(next)
    ensures AllocateVersion(env, rs, t, manifest) == AllocateRequested(env, rs, t, manifest, next, next)
  {
  }

  lemma ReissueConflicts(env: Env, db: Db, t: TenantId, manifest: Value, facts: Facts)
    requires t in db.tenants && manifest.Obj?
    ensures Reissue(env, db, t, manifest, facts).result == Err(VersionConflict)
       <==> AllocateVersion(env, db.releases, t, manifest) == Err(VersionConflict)
  {
    if AllocateVersion(env, db.releases, t, manifest).Ok? {
      AllocationAppends(env, db.releases, t, manifest);
    }
  }

  /** The limit is reachable: the first submission of a tenant may name any version. */
  lemma LimitIsReachable(env: Env, t: TenantId, v: Versions.Version, manifest: Value, facts: Facts)
    requires facts.permitted && GateError(env, manifest, facts).None? && HasTruthy(manifest, "version")
    requires Get(manifest, "version") == Some(Str(Versions.Print(v))) && StandsStill(env, v)
    ensures AtTheLimit(env, Run(env, EMPTY, [Enrol(t), Submit(t, manifest, facts)]).releases, t, 0)
  {
    var start := Enrolled(env, t);
    RunOfTwo(env, EMPTY, Enrol(t), Submit(t, manifest, facts));
    Versions.RoundTrip(v);
    FirstSubmission(env, start, t, manifest, Versions.Print(v), facts);
    LimitOfFirst(env, Step(env, start, Submit(t, manifest, facts)).releases, t, v);
  }

  lemma Enrolled(env: Env, t: TenantId) returns (db: Db)
    ensures db == Step(env, EMPTY, Enrol(t)) && db.releases == [] && t in db.tenants
  {
    db := Db(map[t := Tenant(NoApp, None, None)], [], map[]);
  }

  lemma RunOfTwo(env: Env, db: Db, a: Event, b: Event)
    ensures Run(env, db, [a, b]) == Step(env, Step(env, db, a), b)
  {
    assert [a, b][..1] == [a] && [a][..0] == [];
    assert Run(env, db, [a]) == Step(env, db, a);
  }

  lemma LimitOfFirst(env: Env, rs: seq<Release>, t: TenantId, v: Versions.Version)
    requires OnlyRow(rs, t, Versions.Print(v)) && StandsStill(env, v)
    ensures AtTheLimit(env, rs, t, 0)
  {
    LimitIsExact(env, rs, t, 0, v);
  }

  predicate OnlyRow(rs: seq<Release>, t: TenantId, version: string) {
    |rs| == 1 && rs[0].tenant == t && rs[0].version == version && rs[0].build == 1
  }

  lemma FirstSubmission(env: Env, db: Db, t: TenantId, manifest: Value, version: string, facts: Facts)
    requires db.releases == [] && t in db.tenants && manifest.Obj?
    requires facts.permitted && GateError(env, manifest, facts).None? && HasTruthy(manifest, "version")
    requires Get(manifest, "version") == Some(Str(version)) && Versions.IsVersion(version)
    ensures OnlyRow(Step(env, db, Submit(t, manifest, facts)).releases, t, version)
  {
    assert SubmitForReview(env, db, t, manifest, facts) == SubmitAdmitted(env, db, t, manifest);
    FirstAdmitted(env, db, t, manifest, version);
  }

  lemma FirstAdmitted(env: Env, db: Db, t: TenantId, manifest: Value, version: string)
    requires db.releases == [] && t in db.tenants && manifest.Obj? && HasTruthy(manifest, "version")
    requires Get(manifest, "version") == Some(Str(version)) && Versions.IsVersion(version)
    ensures OnlyRow(SubmitAdmitted(env, db, t, manifest).db.releases, t, version)
  {
    var stamped := Stamp(manifest, version, 1);
    var a := Allocation(version, 1, stamped, env.checksum(stamped));
    AllocatesRequested(env, db.releases, t, manifest, version, "1.0.0");
    FirstAllocation(env, t, manifest, version, a);
    FirstQueued(db, t, a);
    AdmittedIs(env, db, t, manifest, a);
  }

  lemma AdmittedIs(env: Env, db: Db, t: TenantId, manifest: Value, a: Allocation)
    requires t in db.tenants && manifest.Obj? && AllocateVersion(env, db.releases, t, manifest) == Ok(a)
    requires CreateReviewRelease(db.releases, t, a).Ok?
    ensures SubmitAdmitted(env, db, t, manifest)
         == FinishSubmission(db, t, a, CreateReviewRelease(db.releases, t, a).value)
  {
  }

  lemma FirstAllocation(env: Env, t: TenantId, manifest: Value, version: string, a: Allocation)
    requires manifest.Obj?
    requires a == Allocation(version, 1, Stamp(manifest, version, 1), env.checksum(Stamp(manifest, version, 1)))
    ensures AllocateRequested(env, [], t, manifest, version, "1.0.0") == Ok(a)
  {
  }

  lemma FirstQueued(db: Db, t: TenantId, a: Allocation)
    requires db.releases == [] && t in db.tenants && a.build == 1 && CreateReviewRelease([], t, a).Ok?
    ensures OnlyRow(FinishSubmission(db, t, a, CreateReviewRelease([], t, a).value).db.releases, t, a.version)
  {
  }

  lemma NothingAdded(env: Env, rs: seq<Release>, t: TenantId, latest: ReleaseId, manifest: Value)
    requires manifest.Obj? && Latest(rs, t, false, |rs|) == Some(latest)
    requires NextVersion(env, rs, t) == Some(rs[latest].version)
    ensures AllocateVersion(env, rs, t, manifest).Ok? ==>
              var a := AllocateVersion(env, rs, t, manifest).value;
              CreateReviewRelease(rs, t, a).Ok? ==> CreateReviewRelease(rs, t, a).value.releases == rs
  {
    if AllocateVersion(env, rs, t, manifest).Ok? {
      AllocationAppends(env, rs, t, manifest);
      assert ByVersion(rs, t, rs[latest].version, |rs|).Some?;
    }
  }

  // ---------------------------------------------------------------- what is served is what was submitted

  /**
   * Whatever happens after a submission that added a release, that release
   * keeps the submitted manifest up to its stamps; so if it is ever active,
   * this is what the public sees.
   */
  lemma ServedAsSubmitted(
      env: Env, db: Db, t: TenantId, manifest: Value, facts: Facts, later: seq<Event>)
    requires Inv(env, db)
    requires var o := SubmitForReview(env, db, t, manifest, facts); |o.db.releases| > |db.releases|
    ensures var r := Run(env, SubmitForReview(env, db, t, manifest, facts).db, later).releases;
            && |db.releases| < |r| && r[|db.releases|].tenant == t && manifest.Obj?
            && r[|db.releases|].manifest == Stamp(manifest, r[|db.releases|].version, r[|db.releases|].build)
            && (Content(r[|db.releases|].manifest) == Content(manifest)
                <==> PartIsObject(manifest, "metadata") && PartIsObject(manifest, "app"))
  {
    var o := SubmitForReview(env, db, t, manifest, facts);
    SubmitQueues(env, db, t, manifest, facts);
    QueuesAtMostKeeps(env, db, t, o.db);
    SubmittedRow(env, db, t, manifest, facts);
    EveryRunEvolves(env, o.db, later);
    var r := Run(env, o.db, later).releases[|db.releases|];
    assert RowEvolves(o.db.releases[|db.releases|], r);
    StampKeepsContentExactly(manifest, r.version, r.build);
  }

  lemma SubmittedRow(env: Env, db: Db, t: TenantId, manifest: Value, facts: Facts)
    requires |SubmitForReview(env, db, t, manifest, facts).db.releases| > |db.releases|
    ensures var r := SubmitForReview(env, db, t, manifest, facts).db.releases[|db.releases|];
            manifest.Obj? && r.tenant == t && r.manifest == Stamp(manifest, r.version, r.build)
  {
    assert SubmitForReview(env, db, t, manifest, facts) == SubmitAdmitted(env, db, t, manifest);
    AdmittedRow(env, db, t, manifest);
  }

  lemma AdmittedRow(env: Env, db: Db, t: TenantId, manifest: Value)
    requires t in db.tenants && manifest.Obj?
    requires |SubmitAdmitted(env, db, t, manifest).db.releases| > |db.releases|
    ensures var r := SubmitAdmitted(env, db, t, manifest).db.releases[|db.releases|];
            r.tenant == t && r.manifest == Stamp(manifest, r.version, r.build)
  {
    var a := AllocateVersion(env, db.releases, t, manifest).value;
    var staged := CreateReviewRelease(db.releases, t, a).value;
    AllocationAppends(env, db.releases, t, manifest);
    FinishOutcome(db, t, a, staged);
    QueuedNew(db, t, Release(t, a.version, a.build, a.manifest, a.checksum, PendingReview, None));
  }

  // ---------------------------------------------------------------- a version that is taken

  lemma AllocatesRequested(env: Env, rs: seq<Release>, t: TenantId, manifest: Value, version: string, next: string)
    requires manifest.Obj? && HasTruthy(manifest, "version") && Get(manifest, "version") == Some(Str(version))
    requires Versions.IsVersion(version) && NextVersion(env, rs, t) == Some(next)
    ensures AllocateVersion(env, rs, t, manifest) == AllocateRequested(env, rs, t, manifest, version, next)
  {
  }

  lemma FoundByVersion(env: Env, rs: seq<Release>, t: TenantId, i: ReleaseId)
    requires History(env, rs) && i < |rs| && rs[i].tenant == t
    ensures ByVersion(rs, t, rs[i].version, |rs|) == Some(i) && Versions.IsVersion(rs[i].version)
  {
    assert ByVersion(rs, t, rs[i].version, |rs|).Some?;
    assert Sound(env, rs[i]);
  }

  // ---------------------------------------------------------------- tenants do not affect each other

  /** Rows, active release and draft of a tenant are the same in both states. */
  ghost predicate Untouched(db: Db, after: Db, other: TenantId) {
    && (other in after.tenants <==> other in db.tenants)
    && (other in db.tenants ==> after.tenants[other] == db.tenants[other])
    && (other in after.drafts <==> other in db.drafts)
    && (other in db.drafts ==> after.drafts[other] == db.drafts[other])
    && |db.releases| <= |after.releases|
    && (forall i :: 0 <= i < |db.releases| && (db.releases[i].tenant == other || after.releases[i].tenant == other)
          ==> after.releases[i] == db.releases[i])
    && (forall i :: |db.releases| <= i < |after.releases| ==> after.releases[i].tenant != other)
  }

  lemma UntouchedIsTransitive(a: Db, b: Db, c: Db, other: TenantId)
    requires Untouched(a, b, other) && Untouched(b, c, other)
    ensures Untouched(a, c, other)
  {
    forall i | |a.releases| <= i < |c.releases| ensures c.releases[i].tenant != other {
      assert i < |b.releases| ==> b.releases[i].tenant != other;
    }
  }

  lemma StagingIsolates(db: Db, t: TenantId, a: Allocation, other: TenantId)
    requires t in db.tenants && t != other && CreateReviewRelease(db.releases, t, a).Ok?
    ensures Untouched(db, Queue(db, t, CreateReviewRelease(db.releases, t, a).value, a.manifest), other)
  {
  }

  lemma ReviewIsolates(db: Db, t: TenantId, reviewer: bool, reason: string, other: TenantId)
    requires t != other
    ensures Untouched(db, ApproveApp(db, t, reviewer).db, other)
    ensures Untouched(db, RejectApp(db, t, reviewer, reason).db, other)
  {
  }

  lemma FinishIsolates(db: Db, t: TenantId, a: Allocation, other: TenantId)
    requires t in db.tenants && t != other && CreateReviewRelease(db.releases, t, a).Ok?
    ensures Untouched(db, FinishSubmission(db, t, a, CreateReviewRelease(db.releases, t, a).value).db, other)
  {
    StagingIsolates(db, t, a, other);
  }

  lemma AdmittedIsolates(env: Env, db: Db, t: TenantId, manifest: Value, other: TenantId)
    requires t != other && t in db.tenants && manifest.Obj?
    ensures Untouched(db, SubmitAdmitted(env, db, t, manifest).db, other)
  {
    var a := AllocateVersion(env, db.releases, t, manifest);
    if a.Ok? && CreateReviewRelease(db.releases, t, a.value).Ok? {
      AdmittedIs(env, db, t, manifest, a.value);
      FinishIsolates(db, t, a.value, other);
    } else {
      AdmittedOrSame(env, db, t, manifest);
    }
  }

  lemma AdmittedOrSame(env: Env, db: Db, t: TenantId, manifest: Value)
    requires t in db.tenants && manifest.Obj?
    requires AllocateVersion(env, db.releases, t, manifest).Ok? ==>
               CreateReviewRelease(db.releases, t, AllocateVersion(env, db.releases, t, manifest).value).Err?
    ensures SubmitAdmitted(env, db, t, manifest).db == db
  {
  }

  lemma SubmitIsolates(env: Env, db: Db, t: TenantId, manifest: Value, facts: Facts, other: TenantId)
    requires t != other
    ensures Untouched(db, SubmitForReview(env, db, t, manifest, facts).db, other)
  {
    if facts.permitted && t in db.tenants && GateError(env, manifest, facts).None? {
      AdmittedIsolates(env, db, t, manifest, other);
    }
  }

  lemma RollbackIsolates(env: Env, db: Db, t: TenantId, version: string, facts: Facts, other: TenantId)
    requires t != other
    ensures Untouched(db, Rollback(env, db, t, version, facts).db, other)
  {
    if t in db.tenants && ByVersion(db.releases, t, version, |db.releases|).Some? {
      var source := db.releases[ByVersion(db.releases, t, version, |db.releases|).value].manifest;
      if source.Obj? {
        ReissueIsolates(env, db, t, Obj(RemoveField(source.fields, "version")), facts, other);
      }
    }
  }

  lemma ReissueIsolates(env: Env, db: Db, t: TenantId, manifest: Value, facts: Facts, other: TenantId)
    requires t != other && t in db.tenants && manifest.Obj?
    ensures Untouched(db, Reissue(env, db, t, manifest, facts).db, other)
  {
    match AllocateVersion(env, db.releases, t, manifest)
    case Err(_) =>
    case Ok(a) =>
      if CreateReviewRelease(db.releases, t, a).Ok? {
        StagingIsolates(db, t, a, other);
      }
  }

  /** A call for one tenant leaves the rows, the active release and the draft of every other tenant alone. */
  lemma StepIsolates(env: Env, db: Db, e: Event, other: TenantId)
    requires e.t != other
    ensures Untouched(db, Step(env, db, e), other)
  {
    match e
    case Enrol(t) =>
    case EditDraft(t, draft) =>
    case Submit(t, manifest, facts) => SubmitIsolates(env, db, t, manifest, facts, other);
    case SubmitApp(t, manifest, owner, facts) => SubmitIsolates(env, db, t, manifest, facts, other);
    case RollBackTo(t, version, facts) => RollbackIsolates(env, db, t, version, facts, other);
    case Approve(t, reviewer) => ReviewIsolates(db, t, reviewer, "", other);
    case Reject(t, reviewer, reason) => ReviewIsolates(db, t, reviewer, reason, other);
  }

  /** And so does any sequence of calls for other tenants. */
  lemma {:induction false} TenantsAreIsolated(env: Env, db: Db, events: seq<Event>, other: TenantId)
    requires forall i :: 0 <= i < |events| ==> events[i].t != other
    ensures Untouched(db, Run(env, db, events), other)
  {
    if events != [] {
      var init, last := events[..|events| - 1], events[|events| - 1];
      TenantsAreIsolated(env, db, init, other);
      StepIsolates(env, Run(env, db, init), last, other);
      UntouchedIsTransitive(db, Run(env, db, init), Run(env, db, events), other);
    }
  }
}
