/** Every stored manifest passes the structural validator: submissions check it, stamps and rollbacks keep it. */
module PublishingForms {
  import opened Options
  import opened Json
  import opened Stamping
  import opened Publishing
  import opened PublishingHistory
  import opened PublishingSafety
  import opened PublishingTheorems
  import opened PublishingReviews
  import opened PublishingAnswers
  import Compatibility
  import ManifestValidator
  import ValidatorTheorems

  // ---------------------------------------------------------------- stamps and the form of a manifest

  /** The keys that the structural validator reads at the top of a manifest. */
  lemma SameForm(a: Value, b: Value)
    requires a.Obj? && b.Obj?
    requires Get(a, "screens") == Get(b, "screens") && Get(a, "manifestVersion") == Get(b, "manifestVersion")
    requires Get2(a, "metadata", "schemaVersion") == Get2(b, "metadata", "schemaVersion")
    requires Get(a, "splash") == Get(b, "splash") && Get(a, "identity") == Get(b, "identity")
    ensures ValidatorTheorems.WellFormed(a) <==> ValidatorTheorems.WellFormed(b)
  {
  }

  lemma SchemaVersionKept(manifest: Value, version: string, build: nat)
    requires manifest.Obj?
    ensures Get2(Stamp(manifest, version, build), "metadata", "schemaVersion")
         == Get2(manifest, "metadata", "schemaVersion")
  {
    GetFromStamp(manifest, version, build, "metadata");
    if HasTruthy(manifest, "metadata") {
      var part := Get(manifest, "metadata").value;
      SchemaKeyIsNoNumeral();
      GetFromEntries(part, "schemaVersion");
      GetAfterSet(Entries(part), "version", Str(version), "schemaVersion");
    }
  }

  /** Stamping neither makes nor mends a fault. */
  lemma FormIgnoresStamps(manifest: Value, version: string, build: nat)
    requires manifest.Obj?
    ensures ValidatorTheorems.WellFormed(Stamp(manifest, version, build)) <==> ValidatorTheorems.WellFormed(manifest)
  {
    GetFromStamp(manifest, version, build, "screens");
    GetFromStamp(manifest, version, build, "manifestVersion");
    GetFromStamp(manifest, version, build, "splash");
    GetFromStamp(manifest, version, build, "identity");
    SchemaVersionKept(manifest, version, build);
    SameForm(Stamp(manifest, version, build), manifest);
  }

  lemma FormIgnoresVersion(manifest: Value)
    requires manifest.Obj?
    ensures ValidatorTheorems.WellFormed(Stripped(manifest)) <==> ValidatorTheorems.WellFormed(manifest)
  {
    GetAfterRemove(manifest.fields, "version", "screens");
    GetAfterRemove(manifest.fields, "version", "manifestVersion");
    GetAfterRemove(manifest.fields, "version", "metadata");
    GetAfterRemove(manifest.fields, "version", "splash");
    GetAfterRemove(manifest.fields, "version", "identity");
    SameForm(Stripped(manifest), manifest);
  }

  // ---------------------------------------------------------------- what a rollback stores

  lemma ReissuedRow(env: Env, db: Db, t: TenantId, manifest: Value, facts: Facts)
    requires t in db.tenants && manifest.Obj? && Compatibility.Errors(env.contract, manifest) == {}
    requires |Reissue(env, db, t, manifest, facts).db.releases| > |db.releases|
    ensures var r := Reissue(env, db, t, manifest, facts).db.releases[|db.releases|];
            r.manifest == Stamp(manifest, r.version, r.build)
  {
    ReissueSteps(env, db, t, manifest, facts);
    var a := AllocateVersion(env, db.releases, t, manifest).value;
    AllocationAppends(env, db.releases, t, manifest);
    QueuedRow(db, t, a);
  }

  lemma QueuedRow(db: Db, t: TenantId, a: Allocation)
    requires t in db.tenants && CreateReviewRelease(db.releases, t, a).Ok?
    requires |Queue(db, t, CreateReviewRelease(db.releases, t, a).value, a.manifest).releases| > |db.releases|
    ensures var r := Queue(db, t, CreateReviewRelease(db.releases, t, a).value, a.manifest).releases[|db.releases|];
            r.manifest == a.manifest && r.version == a.version && r.build == a.build
  {
  }

  /** A release that a rollback adds is its target, without its version and stamped anew. */
  lemma RolledBackRow(env: Env, db: Db, t: TenantId, version: string, facts: Facts)
    requires Inv(env, db) && |Rollback(env, db, t, version, facts).db.releases| > |db.releases|
    ensures var target := RollbackTarget(db, t, version, facts);
            var r := Rollback(env, db, t, version, facts).db.releases[|db.releases|];
            target.Some? && r.manifest == Stamp(Stripped(db.releases[target.value].manifest), r.version, r.build)
  {
    RollbackSteps(env, db, t, version, facts);
    var target := RollbackTarget(db, t, version, facts);
    var stripped := StrippedTarget(env, db, t, target.value);
    ReissuedRow(env, db, t, stripped, facts);
  }

  // ---------------------------------------------------------------- over runs

  ghost predicate AllFormed(rs: seq<Release>) {
    forall i :: 0 <= i < |rs| ==> ValidatorTheorems.WellFormed(rs[i].manifest)
  }

  lemma EvolvedFormed(before: seq<Release>, after: seq<Release>)
    requires AllFormed(before) && Evolves(before, after) && |after| <= |before| + 1
    requires |after| > |before| ==> ValidatorTheorems.WellFormed(after[|before|].manifest)
    ensures AllFormed(after)
  {
    forall i | 0 <= i < |after| ensures ValidatorTheorems.WellFormed(after[i].manifest) {
      if i < |before| {
        assert RowEvolves(before[i], after[i]);
        assert CoreOf(before[i]).manifest == CoreOf(after[i]).manifest;
      }
    }
  }

  lemma QueuesOneAtMost(env: Env, db: Db, t: TenantId, after: Db)
    requires QueuesAtMost(env, db, t, after)
    ensures |after.releases| <= |db.releases| + 1
  {
    if after.releases != db.releases || after.tenants != db.tenants {
      var a, staged :| Queues(env, db, t, a, staged, after);
      QueuedRows(db, t, a, staged);
    }
  }

  lemma SubmitFormed(env: Env, db: Db, t: TenantId, manifest: Value, facts: Facts)
    requires Inv(env, db) && AllFormed(db.releases)
    ensures AllFormed(SubmitForReview(env, db, t, manifest, facts).db.releases)
  {
    var after := SubmitForReview(env, db, t, manifest, facts).db;
    SubmitQueues(env, db, t, manifest, facts);
    QueuesAtMostKeeps(env, db, t, after);
    QueuesOneAtMost(env, db, t, after);
    if |after.releases| > |db.releases| {
      SubmittedRow(env, db, t, manifest, facts);
      AddedIsAdmissible(env, db, t, manifest, facts);
      var r := after.releases[|db.releases|];
      FormIgnoresStamps(manifest, r.version, r.build);
    }
    EvolvedFormed(db.releases, after.releases);
  }

  lemma AddedIsAdmissible(env: Env, db: Db, t: TenantId, manifest: Value, facts: Facts)
    requires |SubmitForReview(env, db, t, manifest, facts).db.releases| > |db.releases|
    ensures ValidatorTheorems.WellFormed(manifest)
  {
    if !Admissible(env, db, t, manifest, facts) {
      SubmittedRefused(env, db, t, manifest, facts);
    }
  }

  lemma RollbackFormed(env: Env, db: Db, t: TenantId, version: string, facts: Facts)
    requires Inv(env, db) && AllFormed(db.releases)
    ensures AllFormed(Rollback(env, db, t, version, facts).db.releases)
  {
    var after := Rollback(env, db, t, version, facts).db;
    RollbackQueues(env, db, t, version, facts);
    QueuesAtMostKeeps(env, db, t, after);
    QueuesOneAtMost(env, db, t, after);
    if |after.releases| > |db.releases| {
      RolledBackRow(env, db, t, version, facts);
      var source := db.releases[RollbackTarget(db, t, version, facts).value].manifest;
      var r := after.releases[|db.releases|];
      FormIgnoresVersion(source);
      FormIgnoresStamps(Stripped(source), r.version, r.build);
    }
    EvolvedFormed(db.releases, after.releases);
  }

  lemma ReviewFormed(env: Env, db: Db, e: Event)
    requires Inv(env, db) && AllFormed(db.releases) && (e.Approve? || e.Reject?)
    ensures AllFormed(Step(env, db, e).releases)
  {
    StepKeeps(env, db, e);
    match e {
      case Approve(t, reviewer) => ApprovalAddsNothing(db, t, reviewer);
      case Reject(t, reviewer, reason) => RejectionAddsNothing(db, t, reviewer, reason);
    }
    EvolvedFormed(db.releases, Step(env, db, e).releases);
  }

  lemma ApprovalAddsNothing(db: Db, t: TenantId, reviewer: bool)
    ensures |ApproveApp(db, t, reviewer).db.releases| == |db.releases|
  {
    ApproveOutcome(db, t, reviewer);
  }

  lemma RejectionAddsNothing(db: Db, t: TenantId, reviewer: bool, reason: string)
    ensures |RejectApp(db, t, reviewer, reason).db.releases| == |db.releases|
  {
    RejectOutcome(db, t, reviewer, reason);
  }

  lemma StepFormed(env: Env, db: Db, e: Event)
    requires Inv(env, db) && AllFormed(db.releases)
    ensures AllFormed(Step(env, db, e).releases)
  {
    match e
    case Enrol(_) =>
    case EditDraft(_, _) =>
    case Submit(t, manifest, facts) => SubmitFormed(env, db, t, manifest, facts);
    case SubmitApp(t, manifest, owner, facts) => SubmitFormed(env, db, t, manifest, facts);
    case RollBackTo(t, version, facts) => RollbackFormed(env, db, t, version, facts);
    case Approve(_, _) => ReviewFormed(env, db, e);
    case Reject(_, _, _) => ReviewFormed(env, db, e);
  }

  lemma {:induction false} RunFormed(env: Env, events: seq<Event>)
    ensures AllFormed(Run(env, EMPTY, events).releases)
  {
    if events != [] {
      var init := events[..|events| - 1];
      RunFormed(env, init);
      EveryRunIsSafe(env, init);
      StepFormed(env, Run(env, EMPTY, init), events[|events| - 1]);
    }
  }

  /** In every reachable state every stored manifest is well formed: the validator has nothing to say about it. */
  lemma StoredManifestsAreValid(env: Env, events: seq<Event>, i: ReleaseId)
    requires i < |Run(env, EMPTY, events).releases|
    ensures var manifest := Run(env, EMPTY, events).releases[i].manifest;
            ValidatorTheorems.WellFormed(manifest) && ManifestValidator.Problems(manifest) == []
  {
    RunFormed(env, events);
    ValidatorTheorems.ValidExactly(Run(env, EMPTY, events).releases[i].manifest);
  }
}
