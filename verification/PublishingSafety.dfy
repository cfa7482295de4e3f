/** Invariants of the publishing protocol over every run of its service calls. */
module PublishingSafety {
  import opened Options
  import opened Json
  import opened Stamping
  import opened Publishing
  import opened PublishingHistory
  import Decimal
  import Versions
  import Compatibility

  // ---------------------------------------------------------------- the invariant

  ghost predicate KnownTenants(db: Db) {
    forall i :: 0 <= i < |db.releases| ==> db.releases[i].tenant in db.tenants
  }

  /** The published releases are exactly those that are a tenant's active release. */
  ghost predicate ActiveIsPublished(db: Db)
    requires KnownTenants(db)
  {
    && (forall i :: 0 <= i < |db.releases| ==>
          (db.releases[i].status == Published <==> db.tenants[db.releases[i].tenant].active == Some(i)))
    && (forall t :: t in db.tenants && db.tenants[t].active.Some? ==>
          db.tenants[t].active.value < |db.releases| && db.releases[db.tenants[t].active.value].tenant == t)
  }

  ghost predicate PendingAwaitsReview(db: Db)
    requires KnownTenants(db)
  {
    && (forall i :: 0 <= i < |db.releases| && db.releases[i].status == PendingReview ==>
          db.tenants[db.releases[i].tenant].appStatus == InReview)
    && (forall i, j :: (0 <= i < |db.releases| && 0 <= j < |db.releases|
                        && db.releases[i].status == PendingReview && db.releases[j].status == PendingReview
                        && db.releases[i].tenant == db.releases[j].tenant) ==> i == j)
  }

  ghost predicate Consistent(db: Db) {
    KnownTenants(db) && ActiveIsPublished(db) && PendingAwaitsReview(db)
  }

  ghost predicate Inv(env: Env, db: Db) {
    History(env, db.releases) && Consistent(db)
  }

  // ---------------------------------------------------------------- evolution

  /** Pending releases may still become anything, published ones only superseded, the rest is final. */
  function Rank(s: Status): nat {
    match s
    case PendingReview => 2
    case Published => 1
    case _ => 0
  }

  ghost predicate RowEvolves(a: Release, b: Release) {
    CoreOf(a) == CoreOf(b) && (a.status == b.status || Rank(b.status) < Rank(a.status))
  }

  /** No release disappears, none changes its content, and no status moves up. */
  ghost predicate Evolves(a: seq<Release>, b: seq<Release>) {
    |a| <= |b| && forall i :: 0 <= i < |a| ==> RowEvolves(a[i], b[i])
  }

  lemma EvolvesTransitive(a: seq<Release>, b: seq<Release>, c: seq<Release>)
    requires Evolves(a, b) && Evolves(b, c)
    ensures Evolves(a, c)
  {
    forall i | 0 <= i < |a| ensures RowEvolves(a[i], c[i]) {
      assert RowEvolves(a[i], b[i]) && RowEvolves(b[i], c[i]);
    }
  }

  // ---------------------------------------------------------------- staging a candidate

  lemma GetFromEntries(part: Value, key: string)
    requires !Decimal.AllDigits(key)
    ensures Get(Obj(Entries(part)), key) == Get(part, key)
  {
    if part.Arr? || part.Str? {
      forall i | 0 <= i < |Entries(part)| ensures Entries(part)[i].key != key {
        assert Entries(part)[i].key == Decimal.Print(i);
      }
      IndexIs(Entries(part), key, |Entries(part)|);
    }
  }

  lemma SchemaKeyIsNoNumeral()
    ensures !Decimal.AllDigits("schemaVersion")
  {
    assert !Decimal.IsDigit("schemaVersion"[0]);
  }

  /** Stamping does not change what the gate sees. */
  lemma GateIgnoresStamps(c: Compatibility.Contract, manifest: Value, version: string, build: nat)
    requires manifest.Obj?
    ensures Compatibility.Errors(c, Stamp(manifest, version, build)) == Compatibility.Errors(c, manifest)
  {
    var stamped := Stamp(manifest, version, build);
    GetFromStamp(manifest, version, build, "screens");
    GetFromStamp(manifest, version, build, "manifestVersion");
    GetFromStamp(manifest, version, build, "metadata");
    if HasTruthy(manifest, "metadata") {
      var part := Get(manifest, "metadata").value;
      SchemaKeyIsNoNumeral();
      GetFromEntries(part, "schemaVersion");
      GetAfterSet(Entries(part), "version", Str(version), "schemaVersion");
    }
    assert Compatibility.Screens(stamped) == Compatibility.Screens(manifest);
    assert Compatibility.SchemaSupported(stamped) == Compatibility.SchemaSupported(manifest);
  }

  /** The table is unchanged, or has one new pending row at the end. */
  ghost predicate Extends(rs: seq<Release>, t: TenantId, a: Allocation, staged: Staged) {
    || staged.releases == rs
    || (staged.releases == rs + [Release(t, a.version, a.build, a.manifest, a.checksum, PendingReview, None)]
        && staged.id == |rs|)
  }

  /** What creating a review release does to the table, and which row it answers with. */
  ghost predicate Stages(env: Env, rs: seq<Release>, t: TenantId, a: Allocation, staged: Staged) {
    && staged.id < |staged.releases|
    && (var r := staged.releases[staged.id];
        r.tenant == t && r.version == a.version && r.build == a.build && r.checksum == a.checksum)
    && Extends(rs, t, a, staged)
    && History(env, staged.releases)
    && (staged.releases != rs ==> Appends(env, rs, staged.releases[|rs|]))
  }

  /** What a granted allocation promises about the version it names. */
  ghost predicate Allocates(env: Env, rs: seq<Release>, t: TenantId, manifest: Value, a: Allocation)
    requires manifest.Obj?
  {
    && Versions.IsVersion(a.version)
    && a.manifest == Stamp(manifest, a.version, a.build) && a.checksum == env.checksum(a.manifest)
    && (match ByVersion(rs, t, a.version, |rs|)
        case Some(clash) => a.build == rs[clash].build && a.checksum == rs[clash].checksum
        case None => Appends(env, rs, Release(t, a.version, a.build, a.manifest, a.checksum, PendingReview, None)))
  }

  lemma RequestFinds(
    env: Env, rs: seq<Release>, t: TenantId, manifest: Value, version: string, next: string, clash: ReleaseId)
    requires manifest.Obj? && Versions.IsVersion(version) && ByVersion(rs, t, version, |rs|) == Some(clash)
    requires AllocateRequested(env, rs, t, manifest, version, next).Ok?
    ensures Allocates(env, rs, t, manifest, AllocateRequested(env, rs, t, manifest, version, next).value)
  {
  }

  lemma RequestAppends(env: Env, rs: seq<Release>, t: TenantId, manifest: Value, version: string, next: string)
    requires manifest.Obj? && Versions.IsVersion(version) && NextVersion(env, rs, t) == Some(next)
    requires AllocateRequested(env, rs, t, manifest, version, next).Ok?
    ensures Allocates(env, rs, t, manifest, AllocateRequested(env, rs, t, manifest, version, next).value)
    ensures AllocateRequested(env, rs, t, manifest, version, next).value.version == version
  {
    match ByVersion(rs, t, version, |rs|)
    case Some(clash) => RequestFinds(env, rs, t, manifest, version, next, clash);
    case None =>
      var stamped := Stamp(manifest, version, NextBuild(rs, t));
      var r := Release(t, version, NextBuild(rs, t), stamped, env.checksum(stamped), PendingReview, None);
      assert Appends(env, rs, r);
  }

  lemma AllocationAppends(env: Env, rs: seq<Release>, t: TenantId, manifest: Value)
    requires manifest.Obj? && AllocateVersion(env, rs, t, manifest).Ok?
    ensures Allocates(env, rs, t, manifest, AllocateVersion(env, rs, t, manifest).value)
    ensures var requested := Get(manifest, "version");
            var version := AllocateVersion(env, rs, t, manifest).value.version;
            if HasTruthy(manifest, "version") then requested == Some(Str(version))
            else NextVersion(env, rs, t) == Some(version)
  {
    var next := NextVersion(env, rs, t).value;
    var version := if HasTruthy(manifest, "version") then Get(manifest, "version").value else Str(next);
    RequestAppends(env, rs, t, manifest, version.s, next);
  }

  lemma StagingKeepsHistory(env: Env, rs: seq<Release>, t: TenantId, manifest: Value, a: Allocation)
    requires History(env, rs) && manifest.Obj? && AllocateVersion(env, rs, t, manifest) == Ok(a)
    requires Compatibility.Errors(env.contract, a.manifest) == {}
    ensures CreateReviewRelease(rs, t, a).Ok? && Stages(env, rs, t, a, CreateReviewRelease(rs, t, a).value)
  {
    AllocationAppends(env, rs, t, manifest);
    if ByVersion(rs, t, a.version, |rs|).None? {
      StampIsStamped(manifest, a.version, a.build);
      HistoryOfAppend(env, rs, Release(t, a.version, a.build, a.manifest, a.checksum, PendingReview, None));
    }
  }

  // ---------------------------------------------------------------- each update keeps consistency

  lemma UpdatesKeepCores(rs: seq<Release>, t: TenantId, id: ReleaseId, reason: string)
    ensures SameCores(rs, Supersede(rs, t, id)) && Evolves(rs, Supersede(rs, t, id))
    ensures SameCores(rs, Activate(rs, t, id)) && SameCores(rs, RejectPending(rs, t, reason))
    ensures Evolves(rs, RejectPending(rs, t, reason))
    ensures id < |rs| && rs[id].status == PendingReview ==> Evolves(rs, Activate(rs, t, id))
  {
  }

  /** Queueing leaves old rows as they were, except that other pending rows of the tenant are superseded. */
  lemma QueuedRows(db: Db, t: TenantId, a: Allocation, staged: Staged)
    requires staged.id < |staged.releases| && Extends(db.releases, t, a, staged)
    ensures var after := Supersede(staged.releases, t, staged.id);
            && |db.releases| <= |after| <= |db.releases| + 1
            && (forall i :: 0 <= i < |db.releases| ==> after[i] == SupersededRow(db.releases[i], i, t, staged.id))
            && (|after| > |db.releases| ==>
                  after[|db.releases|].tenant == t && after[|db.releases|].status == PendingReview)
  {
  }

  /**
   * Queueing keeps consistency and every active release; the tenant's pending
   * release is then the staged one, if that is pending, and else there is none.
   */
  lemma QueueConsistent(db: Db, t: TenantId, a: Allocation, staged: Staged)
    requires Consistent(db) && t in db.tenants && staged.id < |staged.releases|
    requires Extends(db.releases, t, a, staged) && staged.releases[staged.id].tenant == t
    ensures var after := Queue(db, t, staged, a.manifest);
            && Consistent(after) && after.tenants[t].appStatus == InReview
            && (forall x :: x in db.tenants ==> x in after.tenants && after.tenants[x].active == db.tenants[x].active)
            && (forall i :: 0 <= i < |after.releases| ==>
                  (IsCandidate(after.releases[i], t, true)
                   <==> i == staged.id && staged.releases[i].status == PendingReview))
  {
    QueueKnown(db, t, a, staged);
    QueueActive(db, t, a, staged);
    QueuePending(db, t, a, staged);
  }

  lemma QueueKnown(db: Db, t: TenantId, a: Allocation, staged: Staged)
    requires Consistent(db) && t in db.tenants && staged.id < |staged.releases|
    requires Extends(db.releases, t, a, staged)
    ensures KnownTenants(Queue(db, t, staged, a.manifest))
  {
    QueuedRows(db, t, a, staged);
  }

  lemma QueueActive(db: Db, t: TenantId, a: Allocation, staged: Staged)
    requires Consistent(db) && t in db.tenants && staged.id < |staged.releases|
    requires Extends(db.releases, t, a, staged) && KnownTenants(Queue(db, t, staged, a.manifest))
    ensures ActiveIsPublished(Queue(db, t, staged, a.manifest))
  {
    QueuedRows(db, t, a, staged);
  }

  lemma QueuePending(db: Db, t: TenantId, a: Allocation, staged: Staged)
    requires Consistent(db) && t in db.tenants && staged.id < |staged.releases|
    requires Extends(db.releases, t, a, staged) && KnownTenants(Queue(db, t, staged, a.manifest))
    ensures PendingAwaitsReview(Queue(db, t, staged, a.manifest))
  {
    QueuedRows(db, t, a, staged);
  }

  lemma QueueEvolves(rs: seq<Release>, t: TenantId, a: Allocation, staged: Staged)
    requires staged.id < |staged.releases| && Extends(rs, t, a, staged)
    ensures SameCores(staged.releases, Supersede(staged.releases, t, staged.id))
    ensures Evolves(rs, Supersede(staged.releases, t, staged.id))
  {
    UpdatesKeepCores(staged.releases, t, staged.id, "");
    EvolvesTransitive(rs, staged.releases, Supersede(staged.releases, t, staged.id));
  }

  lemma QueueKeeps(env: Env, db: Db, t: TenantId, a: Allocation, staged: Staged)
    requires Inv(env, db) && t in db.tenants && Stages(env, db.releases, t, a, staged)
    ensures Inv(env, Queue(db, t, staged, a.manifest))
    ensures Evolves(db.releases, Queue(db, t, staged, a.manifest).releases)
  {
    QueueEvolves(db.releases, t, a, staged);
    HistoryOfSameCores(env, staged.releases, Supersede(staged.releases, t, staged.id));
    QueueConsistent(db, t, a, staged);
  }

  lemma ActivateConsistent(db: Db, t: TenantId, candidate: ReleaseId)
    requires Consistent(db) && t in db.tenants && candidate < |db.releases| && db.releases[candidate].tenant == t
    ensures Consistent(Activated(db, t, candidate))
  {
    var after := Activated(db, t, candidate);
    assert forall i :: 0 <= i < |db.releases| ==> after.releases[i] == ActivatedRow(db.releases[i], i, t, candidate);
  }

  lemma ActivateKeeps(env: Env, db: Db, t: TenantId, candidate: ReleaseId)
    requires Inv(env, db) && t in db.tenants && Latest(db.releases, t, true, |db.releases|) == Some(candidate)
    ensures Inv(env, Activated(db, t, candidate)) && Evolves(db.releases, Activated(db, t, candidate).releases)
  {
    UpdatesKeepCores(db.releases, t, candidate, "");
    HistoryOfSameCores(env, db.releases, Activate(db.releases, t, candidate));
    ActivateConsistent(db, t, candidate);
  }

  lemma RejectConsistent(db: Db, t: TenantId, reason: string)
    requires Consistent(db) && t in db.tenants
    ensures Consistent(Turned(db, t, reason))
  {
    var after := Turned(db, t, reason);
    assert forall i :: 0 <= i < |db.releases| ==> after.releases[i] == RejectedRow(db.releases[i], t, reason);
  }

  lemma RejectKeeps(env: Env, db: Db, t: TenantId, reason: string)
    requires Inv(env, db) && t in db.tenants
    ensures Inv(env, Turned(db, t, reason)) && Evolves(db.releases, Turned(db, t, reason).releases)
  {
    UpdatesKeepCores(db.releases, t, 0, reason);
    HistoryOfSameCores(env, db.releases, RejectPending(db.releases, t, reason));
    RejectConsistent(db, t, reason);
  }

  // ---------------------------------------------------------------- each service call keeps the invariant

  /** A call that only touches drafts, or queues one soundly staged candidate for review. */
  ghost predicate QueuesAtMost(env: Env, db: Db, t: TenantId, after: Db) {
    || (after.releases == db.releases && after.tenants == db.tenants)
    || (t in db.tenants && exists a, staged :: Queues(env, db, t, a, staged, after))
  }

  ghost predicate Queues(env: Env, db: Db, t: TenantId, a: Allocation, staged: Staged, after: Db)
    requires t in db.tenants
  {
    Stages(env, db.releases, t, a, staged) && after == Queue(db, t, staged, a.manifest)
  }

  lemma QueuesAtMostKeeps(env: Env, db: Db, t: TenantId, after: Db)
    requires Inv(env, db) && QueuesAtMost(env, db, t, after)
    ensures Inv(env, after) && Evolves(db.releases, after.releases) && db.tenants.Keys <= after.tenants.Keys
  {
    if after.releases != db.releases || after.tenants != db.tenants {
      var a, staged :| Queues(env, db, t, a, staged, after);
      QueueKeeps(env, db, t, a, staged);
    }
  }

  lemma AdmittedQueues(env: Env, db: Db, t: TenantId, manifest: Value)
    requires History(env, db.releases) && t in db.tenants && manifest.Obj?
    requires Compatibility.Errors(env.contract, manifest) == {}
    ensures QueuesAtMost(env, db, t, SubmitAdmitted(env, db, t, manifest).db)
  {
    match AllocateVersion(env, db.releases, t, manifest)
    case Err(_) =>
    case Ok(a) =>
      AllocationAppends(env, db.releases, t, manifest);
      GateIgnoresStamps(env.contract, manifest, a.version, a.build);
      StagingKeepsHistory(env, db.releases, t, manifest, a);
      FinishQueues(env, db, t, a, CreateReviewRelease(db.releases, t, a).value);
  }

  lemma SubmitQueues(env: Env, db: Db, t: TenantId, manifest: Value, facts: Facts)
    requires History(env, db.releases)
    ensures QueuesAtMost(env, db, t, SubmitForReview(env, db, t, manifest, facts).db)
  {
    if facts.permitted && t in db.tenants && GateError(env, manifest, facts).None? {
      AdmittedQueues(env, db, t, manifest);
    }
  }

  lemma FinishOutcome(db: Db, t: TenantId, a: Allocation, staged: Staged)
    requires t in db.tenants && staged.id < |staged.releases|
    ensures var after := FinishSubmission(db, t, a, staged).db;
            after == Queue(db, t, staged, a.manifest) || (after.releases == db.releases && after.tenants == db.tenants)
  {
  }

  lemma QueuedOrSame(env: Env, db: Db, t: TenantId, a: Allocation, staged: Staged, after: Db)
    requires t in db.tenants && Stages(env, db.releases, t, a, staged)
    requires after == Queue(db, t, staged, a.manifest) || (after.releases == db.releases && after.tenants == db.tenants)
    ensures QueuesAtMost(env, db, t, after)
  {
    if after == Queue(db, t, staged, a.manifest) {
      assert Queues(env, db, t, a, staged, after);
    }
  }

  lemma FinishQueues(env: Env, db: Db, t: TenantId, a: Allocation, staged: Staged)
    requires t in db.tenants && Stages(env, db.releases, t, a, staged)
    ensures QueuesAtMost(env, db, t, FinishSubmission(db, t, a, staged).db)
  {
    FinishOutcome(db, t, a, staged);
    QueuedOrSame(env, db, t, a, staged, FinishSubmission(db, t, a, staged).db);
  }

  lemma ReissueQueues(env: Env, db: Db, t: TenantId, manifest: Value, facts: Facts)
    requires History(env, db.releases) && t in db.tenants && manifest.Obj?
    ensures QueuesAtMost(env, db, t, Reissue(env, db, t, manifest, facts).db)
  {
    match AllocateVersion(env, db.releases, t, manifest)
    case Err(_) =>
    case Ok(a) =>
      if Compatible(env, a.manifest, facts) {
        StagingKeepsHistory(env, db.releases, t, manifest, a);
        var staged := CreateReviewRelease(db.releases, t, a).value;
        assert Queues(env, db, t, a, staged, Queue(db, t, staged, a.manifest));
      }
  }

  lemma RollbackQueues(env: Env, db: Db, t: TenantId, version: string, facts: Facts)
    requires History(env, db.releases)
    ensures QueuesAtMost(env, db, t, Rollback(env, db, t, version, facts).db)
  {
    var target := ByVersion(db.releases, t, version, |db.releases|);
    if facts.permitted && t in db.tenants && target.Some? && db.releases[target.value].manifest.Obj? {
      var stripped := Obj(RemoveField(db.releases[target.value].manifest.fields, "version"));
      RollbackOutcome(env, db, t, version, stripped, facts);
      ReissueQueues(env, db, t, stripped, facts);
    }
  }

  lemma RollbackOutcome(env: Env, db: Db, t: TenantId, version: string, stripped: Value, facts: Facts)
    requires t in db.tenants && stripped.Obj? && ByVersion(db.releases, t, version, |db.releases|).Some?
    requires var m := db.releases[ByVersion(db.releases, t, version, |db.releases|).value].manifest;
             m.Obj? && stripped == Obj(RemoveField(m.fields, "version"))
    ensures var after := Rollback(env, db, t, version, facts).db;
            after == db || after == Reissue(env, db, t, stripped, facts).db
  {
  }

  lemma SubmitAppKeeps(env: Env, db: Db, t: TenantId, manifest: Value, owner: bool, facts: Facts)
    requires Inv(env, db)
    ensures var after := SubmitAppReview(env, db, t, manifest, owner, facts).db;
            Inv(env, after) && Evolves(db.releases, after.releases)
  {
    var submitted := SubmitForReview(env, db, t, manifest, facts).db;
    SubmitQueues(env, db, t, manifest, facts);
    QueuesAtMostKeeps(env, db, t, submitted);
    if t in submitted.tenants {
      MarkingKeeps(submitted, t);
    }
  }

  lemma MarkingKeeps(db: Db, t: TenantId)
    requires Consistent(db) && t in db.tenants
    ensures Consistent(db.(tenants := MarkSubmitted(db.tenants, t)))
  {
  }

  lemma ApproveOutcome(db: Db, t: TenantId, reviewer: bool)
    ensures var after := ApproveApp(db, t, reviewer).db;
            var candidate := Latest(db.releases, t, true, |db.releases|);
            after == db || (t in db.tenants && candidate.Some? && after == Activated(db, t, candidate.value))
  {
  }

  lemma ActivatedOrSame(env: Env, db: Db, t: TenantId, after: Db)
    requires Inv(env, db)
    requires var candidate := Latest(db.releases, t, true, |db.releases|);
             after == db || (t in db.tenants && candidate.Some? && after == Activated(db, t, candidate.value))
    ensures Inv(env, after) && Evolves(db.releases, after.releases)
  {
    if after != db {
      ActivateKeeps(env, db, t, Latest(db.releases, t, true, |db.releases|).value);
    }
  }

  lemma ApproveKeeps(env: Env, db: Db, t: TenantId, reviewer: bool)
    requires Inv(env, db)
    ensures var after := ApproveApp(db, t, reviewer).db; Inv(env, after) && Evolves(db.releases, after.releases)
  {
    ApproveOutcome(db, t, reviewer);
    ActivatedOrSame(env, db, t, ApproveApp(db, t, reviewer).db);
  }

  lemma RejectOutcome(db: Db, t: TenantId, reviewer: bool, reason: string)
    ensures var after := RejectApp(db, t, reviewer, reason).db;
            after == db || (t in db.tenants && after == Turned(db, t, reason))
  {
  }

  lemma TurnedOrSame(env: Env, db: Db, t: TenantId, reason: string, after: Db)
    requires Inv(env, db) && (after == db || (t in db.tenants && after == Turned(db, t, reason)))
    ensures Inv(env, after) && Evolves(db.releases, after.releases)
  {
    if after != db {
      RejectKeeps(env, db, t, reason);
    }
  }

  lemma RejectAppKeeps(env: Env, db: Db, t: TenantId, reviewer: bool, reason: string)
    requires Inv(env, db)
    ensures var after := RejectApp(db, t, reviewer, reason).db; Inv(env, after) && Evolves(db.releases, after.releases)
  {
    RejectOutcome(db, t, reviewer, reason);
    TurnedOrSame(env, db, t, reason, RejectApp(db, t, reviewer, reason).db);
  }

  lemma EnrolKeeps(db: Db, t: TenantId)
    requires Consistent(db) && t !in db.tenants
    ensures Consistent(db.(tenants := db.tenants[t := Tenant(NoApp, None, None)]))
  {
  }

  /** One step of any kind keeps the invariant and only lets releases evolve. */
  lemma StepKeeps(env: Env, db: Db, e: Event)
    requires Inv(env, db)
    ensures Inv(env, Step(env, db, e)) && Evolves(db.releases, Step(env, db, e).releases)
  {
    match e
    case Enrol(t) =>
      if t !in db.tenants {
        EnrolKeeps(db, t);
      }
    case EditDraft(t, draft) =>
    case Submit(t, manifest, facts) =>
      SubmitQueues(env, db, t, manifest, facts);
      QueuesAtMostKeeps(env, db, t, Step(env, db, e));
    case SubmitApp(t, manifest, owner, facts) => SubmitAppKeeps(env, db, t, manifest, owner, facts);
    case RollBackTo(t, version, facts) =>
      RollbackQueues(env, db, t, version, facts);
      QueuesAtMostKeeps(env, db, t, Step(env, db, e));
    case Approve(t, reviewer) => ApproveKeeps(env, db, t, reviewer);
    case Reject(t, reviewer, reason) => RejectAppKeeps(env, db, t, reviewer, reason);
  }

  /** Every reachable state satisfies the invariant. */
  lemma {:induction false} EveryRunIsSafe(env: Env, events: seq<Event>)
    ensures Inv(env, Run(env, EMPTY, events))
  {
    if events != [] {
      EveryRunIsSafe(env, events[..|events| - 1]);
      StepKeeps(env, Run(env, EMPTY, events[..|events| - 1]), events[|events| - 1]);
    }
  }

  /** Over any run from a safe state, releases only evolve. */
  lemma {:induction false} EveryRunEvolves(env: Env, db: Db, events: seq<Event>)
    requires Inv(env, db)
    ensures Inv(env, Run(env, db, events)) && Evolves(db.releases, Run(env, db, events).releases)
  {
    if events != [] {
      var before := Run(env, db, events[..|events| - 1]);
      EveryRunEvolves(env, db, events[..|events| - 1]);
      StepKeeps(env, before, events[|events| - 1]);
      EvolvesTransitive(db.releases, before.releases, Run(env, db, events).releases);
    }
  }
}
