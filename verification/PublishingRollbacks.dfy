/** What every rollback does, and how versions follow one another, for versions of any size. */
module PublishingRollbacks {
  import opened Options
  import opened Json
  import opened Stamping
  import opened Publishing
  import opened PublishingHistory
  import opened PublishingSafety
  import opened PublishingTheorems
  import opened PublishingReplays
  import opened PublishingReviews
  import Compatibility
  import Versions

  // ---------------------------------------------------------------- conflicts

  /** Before the call: the tenant's next version is taken, by other bytes than those of the target. */
  ghost predicate Conflicts(env: Env, rs: seq<Release>, t: TenantId, manifest: Value)
    requires manifest.Obj?
  {
    exists i: ReleaseId :: Names(env, rs, t, manifest, i) && !Matches(env, rs[i], manifest)
  }

  lemma UnversionedConflicts(env: Env, rs: seq<Release>, t: TenantId, manifest: Value)
    requires History(env, rs) && manifest.Obj? && !HasTruthy(manifest, "version")
    ensures AllocateVersion(env, rs, t, manifest) == Err(VersionConflict) <==> Conflicts(env, rs, t, manifest)
  {
    if i: ReleaseId :| Names(env, rs, t, manifest, i) {
      AllocatesAgain(env, rs, t, manifest, i);
      forall k: ReleaseId | Names(env, rs, t, manifest, k) ensures k == i {
        FoundByVersion(env, rs, t, i);
        FoundByVersion(env, rs, t, k);
      }
    } else {
      StoredVersionsAreValid(env, rs, t);
      var next := NextVersion(env, rs, t).value;
      if Versions.IsVersion(next) {
        AllocatesUnversioned(env, rs, t, manifest, next);
        if i :| ByVersion(rs, t, next, |rs|) == Some(i) {
          assert Names(env, rs, t, manifest, i);
        }
      }
    }
  }

  /**
   * A rollback meets a version conflict exactly when the tenant's next version
   * is taken by a release that the target's manifest, stamped as that release,
   * is not.
   */
  lemma RollbackConflictsExactly(env: Env, db: Db, t: TenantId, version: string, facts: Facts)
    requires Inv(env, db)
    ensures var target := RollbackTarget(db, t, version, facts);
            Rollback(env, db, t, version, facts).result == Err(VersionConflict) <==>
            target.Some? && Conflicts(env, db.releases, t, Stripped(db.releases[target.value].manifest))
  {
    var target := RollbackTarget(db, t, version, facts);
    if target.Some? {
      var stripped := StrippedTarget(env, db, t, target.value);
      RollbackSteps(env, db, t, version, facts);
      ReissueConflicts(env, db, t, stripped, facts);
      UnversionedConflicts(env, db.releases, t, stripped);
    } else {
      NoTargetNoConflict(env, db, t, version, facts);
    }
  }

  lemma NoTargetNoConflict(env: Env, db: Db, t: TenantId, version: string, facts: Facts)
    requires RollbackTarget(db, t, version, facts).None?
    ensures Rollback(env, db, t, version, facts).result in {Err(NotPermitted), Err(TargetNotFound)}
  {
  }

  // ---------------------------------------------------------------- additions

  /** The tenant's next version is a version, and no release of the tenant has it. */
  predicate NextIsFree(env: Env, rs: seq<Release>, t: TenantId) {
    var next := NextVersion(env, rs, t);
    next.Some? && Versions.IsVersion(next.value) && ByVersion(rs, t, next.value, |rs|).None?
  }

  lemma TargetCanRollBack(db: Db, t: TenantId, version: string, facts: Facts)
    requires RollbackTarget(db, t, version, facts).Some? && facts.assetsOk
    ensures var target := RollbackTarget(db, t, version, facts).value;
            CanRollBack(db, t, target, facts) && db.releases[target].version == version
  {
  }

  /** A rollback adds a release exactly when it has a target, whose assets are there, and the next version is free. */
  lemma RollbackAddsExactly(env: Env, db: Db, t: TenantId, version: string, facts: Facts)
    requires Inv(env, db)
    ensures |Rollback(env, db, t, version, facts).db.releases| > |db.releases| <==>
            RollbackTarget(db, t, version, facts).Some? && facts.assetsOk && NextIsFree(env, db.releases, t)
  {
    RollbackSteps(env, db, t, version, facts);
    var target := RollbackTarget(db, t, version, facts);
    if target.Some? {
      if facts.assetsOk && NextIsFree(env, db.releases, t) {
        TargetCanRollBack(db, t, version, facts);
        RollbackAdds(env, db, t, target.value, NextVersion(env, db.releases, t).value, facts);
      } else {
        var stripped := StrippedTarget(env, db, t, target.value);
        ReissueAddsNothing(env, db, t, stripped, facts);
      }
    }
  }

  lemma ReissueAddsNothing(env: Env, db: Db, t: TenantId, manifest: Value, facts: Facts)
    requires manifest.Obj? && !HasTruthy(manifest, "version") && t in db.tenants
    requires Compatibility.Errors(env.contract, manifest) == {}
    requires !(facts.assetsOk && NextIsFree(env, db.releases, t))
    ensures |Reissue(env, db, t, manifest, facts).db.releases| == |db.releases|
  {
    ReissueSteps(env, db, t, manifest, facts);
    if !NextIsFree(env, db.releases, t) {
      NotFreeAddsNothing(env, db, t, manifest);
    }
  }

  lemma NotFreeAddsNothing(env: Env, db: Db, t: TenantId, manifest: Value)
    requires manifest.Obj? && !HasTruthy(manifest, "version") && t in db.tenants && !NextIsFree(env, db.releases, t)
    ensures AllocateVersion(env, db.releases, t, manifest).Ok? ==>
              var a := AllocateVersion(env, db.releases, t, manifest).value;
              CreateReviewRelease(db.releases, t, a).Ok? ==>
                var staged := CreateReviewRelease(db.releases, t, a).value;
                staged.releases == db.releases && |Queue(db, t, staged, a.manifest).releases| == |db.releases|
  {
    if AllocateVersion(env, db.releases, t, manifest).Ok? {
      AllocationAppends(env, db.releases, t, manifest);
    }
  }

  /**
   * Whatever happens after a rollback that added a release, that release keeps
   * the target's content up to its stamps, and the target keeps its own.
   */
  lemma ServedAsRolledBack(env: Env, db: Db, t: TenantId, version: string, facts: Facts, later: seq<Event>)
    requires Inv(env, db) && |Rollback(env, db, t, version, facts).db.releases| > |db.releases|
    ensures var target := RollbackTarget(db, t, version, facts);
            var rs := Run(env, Rollback(env, db, t, version, facts).db, later).releases;
            && target.Some? && |db.releases| < |rs| && rs[|db.releases|].tenant == t
            && Content(rs[|db.releases|].manifest) == Content(db.releases[target.value].manifest)
            && CoreOf(rs[target.value]) == CoreOf(db.releases[target.value])
  {
    var after := Rollback(env, db, t, version, facts).db;
    RollbackAddsExactly(env, db, t, version, facts);
    var target := RollbackTarget(db, t, version, facts).value;
    TargetCanRollBack(db, t, version, facts);
    RollbackAdds(env, db, t, target, NextVersion(env, db.releases, t).value, facts);
    RollbackQueues(env, db, t, version, facts);
    QueuesAtMostKeeps(env, db, t, after);
    EveryRunEvolves(env, after, later);
    var rs := Run(env, after, later).releases;
    assert RowEvolves(db.releases[target], after.releases[target]) && RowEvolves(after.releases[target], rs[target]);
    assert RowEvolves(after.releases[|db.releases|], rs[|db.releases|]);
  }

  // ---------------------------------------------------------------- one version after the other

  /** Each build of a tenant carries the increment of the version of the build before it. */
  ghost predicate Chained(env: Env, rs: seq<Release>) {
    forall i, j :: 0 <= i < |rs| && 0 <= j < |rs| && rs[i].tenant == rs[j].tenant && rs[j].build == rs[i].build + 1
      ==> Versions.IncrementPatch(rs[i].version, env.beyond) == Some(rs[j].version)
  }

  lemma ChainedOfSameCores(env: Env, a: seq<Release>, b: seq<Release>)
    requires Chained(env, a) && SameCores(a, b)
    ensures Chained(env, b)
  {
    forall i, j | 0 <= i < |b| && 0 <= j < |b| && b[i].tenant == b[j].tenant && b[j].build == b[i].build + 1
      ensures Versions.IncrementPatch(b[i].version, env.beyond) == Some(b[j].version)
    {
      assert CoreOf(a[i]) == CoreOf(b[i]) && CoreOf(a[j]) == CoreOf(b[j]);
    }
  }

  /** The release of the build before an appended one is the latest. */
  lemma PredecessorIsLatest(env: Env, rs: seq<Release>, r: Release, i: ReleaseId)
    requires History(env, rs) && Appends(env, rs, r)
    requires i < |rs| && rs[i].tenant == r.tenant && r.build == rs[i].build + 1
    ensures Versions.IncrementPatch(rs[i].version, env.beyond) == Some(r.version)
  {
    assert IsCandidate(rs[i], r.tenant, false);
    var latest := Latest(rs, r.tenant, false, |rs|).value;
    if i < latest {
      BuildsAreUnique(rs, i, latest);
    } else if latest < i {
      BuildsAreUnique(rs, latest, i);
    }
  }

  lemma ChainedOfAppend(env: Env, rs: seq<Release>, r: Release)
    requires History(env, rs) && Chained(env, rs) && Appends(env, rs, r)
    ensures Chained(env, rs + [r])
  {
    var after := rs + [r];
    forall i, j | 0 <= i < |after| && 0 <= j < |after| && after[i].tenant == after[j].tenant
                  && after[j].build == after[i].build + 1
      ensures Versions.IncrementPatch(after[i].version, env.beyond) == Some(after[j].version)
    {
      if i < |rs| && j == |rs| {
        PredecessorIsLatest(env, rs, r, i);
      } else if i == |rs| && j < |rs| {
        assert IsCandidate(rs[j], r.tenant, false);
        assert false;
      }
    }
  }

  lemma QueueChains(env: Env, db: Db, t: TenantId, after: Db)
    requires Inv(env, db) && Chained(env, db.releases) && QueuesAtMost(env, db, t, after)
    ensures Chained(env, after.releases)
  {
    if after.releases != db.releases || after.tenants != db.tenants {
      var a, staged :| Queues(env, db, t, a, staged, after);
      if staged.releases != db.releases {
        ChainedOfAppend(env, db.releases, staged.releases[|db.releases|]);
      }
      QueueEvolves(db.releases, t, a, staged);
      ChainedOfSameCores(env, staged.releases, after.releases);
    }
  }

  lemma ReviewChains(env: Env, db: Db, e: Event)
    requires Chained(env, db.releases) && (e.Approve? || e.Reject?)
    ensures Chained(env, Step(env, db, e).releases)
  {
    match e
    case Approve(t, reviewer) =>
      ApproveOutcome(db, t, reviewer);
      var candidate := Latest(db.releases, t, true, |db.releases|);
      if candidate.Some? {
        UpdatesKeepCores(db.releases, t, candidate.value, "");
        ChainedOfSameCores(env, db.releases, Activate(db.releases, t, candidate.value));
      }
    case Reject(t, reviewer, reason) =>
      RejectOutcome(db, t, reviewer, reason);
      UpdatesKeepCores(db.releases, t, 0, reason);
      ChainedOfSameCores(env, db.releases, RejectPending(db.releases, t, reason));
  }

  lemma StepChains(env: Env, db: Db, e: Event)
    requires Inv(env, db) && Chained(env, db.releases)
    ensures Chained(env, Step(env, db, e).releases)
  {
    match e
    case Enrol(_) =>
    case EditDraft(_, _) =>
    case Submit(t, manifest, facts) =>
      SubmitQueues(env, db, t, manifest, facts);
      QueueChains(env, db, t, Step(env, db, e));
    case SubmitApp(t, manifest, owner, facts) =>
      SubmitQueues(env, db, t, manifest, facts);
      QueueChains(env, db, t, SubmitForReview(env, db, t, manifest, facts).db);
    case RollBackTo(t, version, facts) =>
      RollbackQueues(env, db, t, version, facts);
      QueueChains(env, db, t, Step(env, db, e));
    case Approve(_, _) => ReviewChains(env, db, e);
    case Reject(_, _, _) => ReviewChains(env, db, e);
  }

  /** In every reachable state, whatever the size of its first version, a tenant's versions follow one another. */
  lemma {:induction false} VersionsAreChained(env: Env, events: seq<Event>)
    ensures Chained(env, Run(env, EMPTY, events).releases)
  {
    if events != [] {
      var init := events[..|events| - 1];
      VersionsAreChained(env, init);
      EveryRunIsSafe(env, init);
      StepChains(env, Run(env, EMPTY, init), events[|events| - 1]);
    }
  }
}
