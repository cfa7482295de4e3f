/**
 * Tenants in review: when there is something to approve, when there is not,
 * and what a rejection means for good.
 */
module PublishingReviews {
  import opened Options
  import opened Json
  import opened Stamping
  import opened Publishing
  import opened PublishingHistory
  import opened PublishingSafety
  import opened PublishingTheorems
  import opened PublishingReplays
  import Compatibility

  /** The tenant waits for a review, and no release of it can be approved. */
  predicate NothingToReview(db: Db, t: TenantId) {
    t in db.tenants && db.tenants[t].appStatus == InReview && Latest(db.releases, t, true, |db.releases|).None?
  }

  /** Which is what a reviewer is told. */
  lemma ReviewerIsTold(db: Db, t: TenantId)
    ensures ApproveApp(db, t, true).result == Err(NothingSubmitted) <==> NothingToReview(db, t)
  {
  }

  // ---------------------------------------------------------------- app submissions

  /** Before the call: the version it asks for belongs to the published release, with these bytes; none is pending. */
  ghost predicate ReplaysPublished(env: Env, db: Db, t: TenantId, manifest: Value, facts: Facts) {
    && facts.permitted && t in db.tenants && manifest.Obj? && GateError(env, manifest, facts).None?
    && Latest(db.releases, t, true, |db.releases|).None?
    && exists i: ReleaseId :: Names(env, db.releases, t, manifest, i) && Matches(env, db.releases[i], manifest)
                              && db.releases[i].status == Published
  }

  lemma AppSubmissionSteps(env: Env, db: Db, t: TenantId, manifest: Value, facts: Facts)
    ensures var submitted := SubmitForReview(env, db, t, manifest, facts);
            var o := SubmitAppReview(env, db, t, manifest, true, facts);
            && (o.result.Ok? ==> submitted.result.Ok? && submitted.result.value.Some?)
            && (submitted.result.Ok? && t in db.tenants && t in submitted.db.tenants ==>
                  o.result == submitted.result
                  && o.db == submitted.db.(tenants := MarkSubmitted(submitted.db.tenants, t)))
  {
  }

  lemma ReplayLeavesNothing(env: Env, db: Db, t: TenantId, manifest: Value, facts: Facts)
    requires Inv(env, db) && ReplaysPublished(env, db, t, manifest, facts)
    ensures var o := SubmitForReview(env, db, t, manifest, facts);
            && o.result.Ok? && o.db.releases == db.releases && o.db.tenants == db.tenants
  {
    var i: ReleaseId :| Names(env, db.releases, t, manifest, i) && Matches(env, db.releases[i], manifest)
                        && db.releases[i].status == Published;
    ReplayOutcome(env, db, t, manifest, i, facts);
  }

  lemma OtherwisePending(env: Env, db: Db, t: TenantId, manifest: Value, facts: Facts, reply: Reply)
    requires SubmitForReview(env, db, t, manifest, facts).result == Ok(Some(reply))
    requires !ReplaysPublished(env, db, t, manifest, facts)
    ensures var after := SubmitForReview(env, db, t, manifest, facts).db;
            t in after.tenants && Latest(after.releases, t, true, |after.releases|).Some?
  {
    AnsweredRow(env, db, t, manifest, facts, reply);
    if reply.status == Published {
      AnsweredMatches(env, db, t, manifest, facts, reply);
      SubmitAccepts(env, db, t, manifest, facts);
      assert Names(env, db.releases, t, manifest, reply.id);
    }
  }

  lemma MarkedReview(db: Db, t: TenantId)
    requires t in db.tenants
    ensures NothingToReview(db.(tenants := MarkSubmitted(db.tenants, t)), t)
       <==> Latest(db.releases, t, true, |db.releases|).None?
  {
  }

  /** An accepted app submission leaves nothing to approve exactly when it replays the published release. */
  lemma AppSubmissionReplay(env: Env, db: Db, t: TenantId, manifest: Value, owner: bool, facts: Facts)
    requires Inv(env, db)
    ensures var o := SubmitAppReview(env, db, t, manifest, owner, facts);
            o.result.Ok? && NothingToReview(o.db, t) <==> owner && ReplaysPublished(env, db, t, manifest, facts)
  {
    if owner {
      var submitted := SubmitForReview(env, db, t, manifest, facts);
      AppSubmissionSteps(env, db, t, manifest, facts);
      if ReplaysPublished(env, db, t, manifest, facts) {
        ReplayLeavesNothing(env, db, t, manifest, facts);
        MarkedReview(submitted.db, t);
      } else if SubmitAppReview(env, db, t, manifest, owner, facts).result.Ok? {
        OtherwisePending(env, db, t, manifest, facts, submitted.result.value.value);
        MarkedReview(submitted.db, t);
      }
    }
  }

  // ---------------------------------------------------------------- rollbacks

  function Stripped(manifest: Value): Value
    requires manifest.Obj?
  {
    Obj(RemoveField(manifest.fields, "version"))
  }

  /** The release that a rollback goes back to, when the call gets as far as allocating a version. */
  function RollbackTarget(db: Db, t: TenantId, version: string, facts: Facts): (r: Option<ReleaseId>)
    ensures r.Some? ==> r.value < |db.releases| && db.releases[r.value].tenant == t && t in db.tenants
                        && db.releases[r.value].manifest.Obj?
  {
    var target := ByVersion(db.releases, t, version, |db.releases|);
    if facts.permitted && t in db.tenants && target.Some?
       && db.releases[target.value].status in {Published, Superseded, RolledBack}
       && db.releases[target.value].manifest.Obj?
    then target else None
  }

  /** Before the call: the tenant's next version is taken, by these bytes, in a release that is not pending. */
  ghost predicate ReplaysDecided(env: Env, rs: seq<Release>, t: TenantId, manifest: Value)
    requires manifest.Obj?
  {
    exists i: ReleaseId ::
      Names(env, rs, t, manifest, i) && Matches(env, rs[i], manifest) && rs[i].status != PendingReview
  }

  ghost predicate RollbackReplays(env: Env, db: Db, t: TenantId, version: string, facts: Facts) {
    var target := RollbackTarget(db, t, version, facts);
    facts.assetsOk && target.Some?
    && ReplaysDecided(env, db.releases, t, Stripped(db.releases[target.value].manifest))
  }

  lemma RollbackSteps(env: Env, db: Db, t: TenantId, version: string, facts: Facts)
    ensures var target := RollbackTarget(db, t, version, facts);
            if target.Some?
            then Rollback(env, db, t, version, facts)
                   == Reissue(env, db, t, Stripped(db.releases[target.value].manifest), facts)
            else Rollback(env, db, t, version, facts).result.Err? && Rollback(env, db, t, version, facts).db == db
  {
  }

  lemma QueuedIsReviewable(db: Db, t: TenantId, a: Allocation, staged: Staged)
    requires Consistent(db) && t in db.tenants && staged.id < |staged.releases|
    requires Extends(db.releases, t, a, staged) && staged.releases[staged.id].tenant == t
    ensures NothingToReview(Queue(db, t, staged, a.manifest), t) <==> staged.releases[staged.id].status != PendingReview
  {
    QueueConsistent(db, t, a, staged);
    var after := Queue(db, t, staged, a.manifest);
    assert |after.releases| == |staged.releases|;
    assert staged.releases[staged.id].status == PendingReview ==> IsCandidate(after.releases[staged.id], t, true);
  }

  lemma ReissueSteps(env: Env, db: Db, t: TenantId, manifest: Value, facts: Facts)
    requires t in db.tenants && manifest.Obj? && Compatibility.Errors(env.contract, manifest) == {}
    ensures var o := Reissue(env, db, t, manifest, facts);
            match AllocateVersion(env, db.releases, t, manifest)
            case Err(_) => o.result.Err? && o.db == db
            case Ok(a) =>
              if facts.assetsOk && CreateReviewRelease(db.releases, t, a).Ok?
              then o.result.Ok? && o.db == Queue(db, t, CreateReviewRelease(db.releases, t, a).value, a.manifest)
              else o.result.Err? && o.db == db
  {
    if AllocateVersion(env, db.releases, t, manifest).Ok? {
      var a := AllocateVersion(env, db.releases, t, manifest).value;
      AllocationAppends(env, db.releases, t, manifest);
      GateIgnoresStamps(env.contract, manifest, a.version, a.build);
    }
  }

  lemma ReissueReplay(env: Env, db: Db, t: TenantId, manifest: Value, facts: Facts)
    requires Inv(env, db) && t in db.tenants && manifest.Obj? && !HasTruthy(manifest, "version")
    requires Compatibility.Errors(env.contract, manifest) == {}
    ensures var o := Reissue(env, db, t, manifest, facts);
            o.result.Ok? && NothingToReview(o.db, t)
            <==> facts.assetsOk && ReplaysDecided(env, db.releases, t, manifest)
  {
    ReissueSteps(env, db, t, manifest, facts);
    if ReplaysDecided(env, db.releases, t, manifest) {
      var a, i := DecidedIsFound(env, db, t, manifest);
    } else if Reissue(env, db, t, manifest, facts).result.Ok? {
      var a := AllocateVersion(env, db.releases, t, manifest).value;
      StagedIsPending(env, db.releases, t, manifest, a);
      QueuedIsReviewable(db, t, a, CreateReviewRelease(db.releases, t, a).value);
    }
  }

  lemma DecidedIsFound(env: Env, db: Db, t: TenantId, manifest: Value) returns (a: Allocation, i: ReleaseId)
    requires Inv(env, db) && t in db.tenants && manifest.Obj? && ReplaysDecided(env, db.releases, t, manifest)
    ensures AllocateVersion(env, db.releases, t, manifest) == Ok(a)
    ensures CreateReviewRelease(db.releases, t, a) == Ok(Staged(db.releases, i)) && i < |db.releases|
    ensures NothingToReview(Queue(db, t, Staged(db.releases, i), a.manifest), t)
  {
    i :| Names(env, db.releases, t, manifest, i) && Matches(env, db.releases[i], manifest)
         && db.releases[i].status != PendingReview;
    AllocatesAgain(env, db.releases, t, manifest, i);
    a := AllocationOf(db.releases[i], manifest);
    FoundByVersion(env, db.releases, t, i);
    RecoveredRow(db.releases, t, i, a);
    QueuedIsReviewable(db, t, a, Staged(db.releases, i));
  }

  /** What is staged otherwise is pending. */
  lemma StagedIsPending(env: Env, rs: seq<Release>, t: TenantId, manifest: Value, a: Allocation)
    requires manifest.Obj? && !HasTruthy(manifest, "version") && AllocateVersion(env, rs, t, manifest) == Ok(a)
    requires CreateReviewRelease(rs, t, a).Ok? && !ReplaysDecided(env, rs, t, manifest)
    ensures var staged := CreateReviewRelease(rs, t, a).value;
            && staged.id < |staged.releases| && Extends(rs, t, a, staged)
            && staged.releases[staged.id].tenant == t && staged.releases[staged.id].status == PendingReview
  {
    AllocationAppends(env, rs, t, manifest);
    var found := ByVersion(rs, t, a.version, |rs|);
    if found.Some? {
      assert Names(env, rs, t, manifest, found.value);
      assert Matches(env, rs[found.value], manifest);
    }
  }

  /** An accepted rollback leaves nothing to approve exactly when its version is taken by a decided release. */
  lemma RollbackReplay(env: Env, db: Db, t: TenantId, version: string, facts: Facts)
    requires Inv(env, db)
    ensures var o := Rollback(env, db, t, version, facts);
            o.result.Ok? && NothingToReview(o.db, t) <==> RollbackReplays(env, db, t, version, facts)
  {
    RollbackSteps(env, db, t, version, facts);
    var target := RollbackTarget(db, t, version, facts);
    if target.Some? {
      var stripped := StrippedTarget(env, db, t, target.value);
      ReissueReplay(env, db, t, stripped, facts);
    }
  }

  // ---------------------------------------------------------------- over runs

  /** One of the two accepted calls that leave nothing to approve, told from the state before it. */
  ghost predicate Replays(env: Env, db: Db, e: Event, t: TenantId) {
    e.t == t &&
    match e
    case SubmitApp(_, manifest, owner, facts) => owner && ReplaysPublished(env, db, t, manifest, facts)
    case RollBackTo(_, version, facts) => RollbackReplays(env, db, t, version, facts)
    case _ => false
  }

  predicate AnswersPending(o: Outcome) {
    o.result.Ok? && o.result.value.Some? && o.result.value.value.status == PendingReview
  }

  /** An accepted call that puts the tenant into review or takes it out. */
  predicate Decides(env: Env, db: Db, e: Event, t: TenantId) {
    e.t == t &&
    match e
    case Submit(_, manifest, facts) => AnswersPending(SubmitForReview(env, db, t, manifest, facts))
    case SubmitApp(_, manifest, owner, facts) => SubmitAppReview(env, db, t, manifest, owner, facts).result.Ok?
    case RollBackTo(_, version, facts) => Rollback(env, db, t, version, facts).result.Ok?
    case Approve(_, reviewer) =>
      ApproveApp(db, t, reviewer).result.Ok? && ApproveApp(db, t, reviewer).result.value.Some?
    case Reject(_, reviewer, reason) =>
      RejectApp(db, t, reviewer, reason).result.Ok? && db.tenants[t].appStatus == InReview
    case _ => false
  }

  lemma SameReview(db: Db, after: Db, t: TenantId)
    requires Untouched(db, after, t)
    ensures NothingToReview(after, t) <==> NothingToReview(db, t)
  {
    var was, is_ := Latest(db.releases, t, true, |db.releases|), Latest(after.releases, t, true, |after.releases|);
    if was.Some? {
      assert IsCandidate(after.releases[was.value], t, true);
    }
    if is_.Some? {
      assert IsCandidate(db.releases[is_.value], t, true);
    }
  }

  lemma FinishUndecided(db: Db, t: TenantId, a: Allocation, staged: Staged)
    requires t in db.tenants && staged.id < |staged.releases|
    requires !AnswersPending(FinishSubmission(db, t, a, staged))
    ensures var after := FinishSubmission(db, t, a, staged).db;
            after.releases == db.releases && after.tenants == db.tenants
  {
  }

  lemma SubmitUndecided(env: Env, db: Db, t: TenantId, manifest: Value, facts: Facts)
    requires !AnswersPending(SubmitForReview(env, db, t, manifest, facts))
    ensures var after := SubmitForReview(env, db, t, manifest, facts).db;
            after.releases == db.releases && after.tenants == db.tenants
  {
    if facts.permitted && t in db.tenants && GateError(env, manifest, facts).None? {
      assert SubmitForReview(env, db, t, manifest, facts) == SubmitAdmitted(env, db, t, manifest);
      var a := AllocateVersion(env, db.releases, t, manifest);
      if a.Ok? && CreateReviewRelease(db.releases, t, a.value).Ok? {
        AdmittedIs(env, db, t, manifest, a.value);
        FinishUndecided(db, t, a.value, CreateReviewRelease(db.releases, t, a.value).value);
      }
    }
  }

  lemma SubmitDecides(env: Env, db: Db, t: TenantId, manifest: Value, facts: Facts)
    ensures var o := SubmitForReview(env, db, t, manifest, facts);
            NothingToReview(o.db, t) <==> !AnswersPending(o) && NothingToReview(db, t)
  {
    var o := SubmitForReview(env, db, t, manifest, facts);
    if AnswersPending(o) {
      AnsweredRow(env, db, t, manifest, facts, o.result.value.value);
    } else {
      SubmitUndecided(env, db, t, manifest, facts);
    }
  }

  lemma SubmitAppDecides(env: Env, db: Db, t: TenantId, manifest: Value, owner: bool, facts: Facts)
    requires Inv(env, db)
    ensures var o := SubmitAppReview(env, db, t, manifest, owner, facts);
            NothingToReview(o.db, t) <==>
            if o.result.Ok? then owner && ReplaysPublished(env, db, t, manifest, facts) else NothingToReview(db, t)
  {
    AppSubmissionReplay(env, db, t, manifest, owner, facts);
    if SubmitAppReview(env, db, t, manifest, owner, facts).result.Err? {
      SubmitAppRefused(env, db, t, manifest, owner, facts);
    }
  }

  lemma SubmitAppRefused(env: Env, db: Db, t: TenantId, manifest: Value, owner: bool, facts: Facts)
    requires SubmitAppReview(env, db, t, manifest, owner, facts).result.Err?
    ensures SubmitAppReview(env, db, t, manifest, owner, facts).db == db
  {
    if owner && t in db.tenants {
      RefusedSubmission(env, db, t, manifest, facts);
    }
  }

  lemma RefusedSubmission(env: Env, db: Db, t: TenantId, manifest: Value, facts: Facts)
    ensures var o := SubmitForReview(env, db, t, manifest, facts);
            (o.result.Err? ==> o.db == db) && (o.result.Ok? ==> t in o.db.tenants)
  {
    if facts.permitted && t in db.tenants && GateError(env, manifest, facts).None? {
      assert SubmitForReview(env, db, t, manifest, facts) == SubmitAdmitted(env, db, t, manifest);
      var a := AllocateVersion(env, db.releases, t, manifest);
      if a.Ok? && CreateReviewRelease(db.releases, t, a.value).Ok? {
        AdmittedIs(env, db, t, manifest, a.value);
        FinishRefused(db, t, a.value, CreateReviewRelease(db.releases, t, a.value).value);
      }
    }
  }

  lemma FinishRefused(db: Db, t: TenantId, a: Allocation, staged: Staged)
    requires t in db.tenants && staged.id < |staged.releases|
    ensures var o := FinishSubmission(db, t, a, staged);
            t in o.db.tenants && (o.result.Err? ==> o.db == db)
  {
  }

  lemma RollbackDecides(env: Env, db: Db, t: TenantId, version: string, facts: Facts)
    requires Inv(env, db)
    ensures var o := Rollback(env, db, t, version, facts);
            NothingToReview(o.db, t) <==>
            if o.result.Ok? then RollbackReplays(env, db, t, version, facts) else NothingToReview(db, t)
  {
    RollbackReplay(env, db, t, version, facts);
    if Rollback(env, db, t, version, facts).result.Err? {
      RefusedRollback(env, db, t, version, facts);
    }
  }

  lemma RefusedRollback(env: Env, db: Db, t: TenantId, version: string, facts: Facts)
    requires Rollback(env, db, t, version, facts).result.Err?
    ensures Rollback(env, db, t, version, facts).db == db
  {
  }

  lemma ReviewDecides(db: Db, t: TenantId, reviewer: bool, reason: string)
    ensures var o := ApproveApp(db, t, reviewer);
            NothingToReview(o.db, t) <==> !(o.result.Ok? && o.result.value.Some?) && NothingToReview(db, t)
    ensures var o := RejectApp(db, t, reviewer, reason);
            NothingToReview(o.db, t) <==>
            !(o.result.Ok? && db.tenants[t].appStatus == InReview) && NothingToReview(db, t)
  {
  }

  /** One call: it decides, or leaves the tenant's review as it was. */
  lemma StepDecides(env: Env, db: Db, e: Event, t: TenantId)
    requires Inv(env, db)
    ensures NothingToReview(Step(env, db, e), t) <==>
            if Decides(env, db, e, t) then Replays(env, db, e, t) else NothingToReview(db, t)
  {
    if e.t != t {
      StepIsolates(env, db, e, t);
      SameReview(db, Step(env, db, e), t);
    } else {
      match e
      case Enrol(_) =>
      case EditDraft(_, _) =>
      case Submit(_, manifest, facts) => SubmitDecides(env, db, t, manifest, facts);
      case SubmitApp(_, manifest, owner, facts) => SubmitAppDecides(env, db, t, manifest, owner, facts);
      case RollBackTo(_, version, facts) => RollbackDecides(env, db, t, version, facts);
      case Approve(_, reviewer) => ReviewDecides(db, t, reviewer, "");
      case Reject(_, reviewer, reason) => ReviewDecides(db, t, reviewer, reason);
    }
  }

  /** A replay is accepted. */
  lemma ReplayDecides(env: Env, db: Db, e: Event, t: TenantId)
    requires Inv(env, db) && Replays(env, db, e, t)
    ensures Decides(env, db, e, t)
  {
    match e
    case SubmitApp(_, manifest, owner, facts) => AppSubmissionReplay(env, db, t, manifest, owner, facts);
    case RollBackTo(_, version, facts) => RollbackReplay(env, db, t, version, facts);
    case _ =>
  }

  /** A call of a run together with the state it finds. */
  datatype Moment = Moment(before: Db, event: Event)

  ghost function Moments(env: Env, events: seq<Event>): (ms: seq<Moment>)
    ensures |ms| == |events|
  {
    seq(|events|, k requires 0 <= k < |events| => Moment(Run(env, EMPTY, events[..k]), events[k]))
  }

  /** What a call was for a tenant's review. */
  datatype Decision = Decision(decides: bool, replays: bool)

  ghost function DecisionOf(env: Env, t: TenantId): Moment -> Decision {
    (m: Moment) => Decision(Decides(env, m.before, m.event, t), Replays(env, m.before, m.event, t))
  }

  ghost function Mapped(ms: seq<Moment>, f: Moment -> Decision): (ds: seq<Decision>)
    ensures |ds| == |ms|
  {
    seq(|ms|, k requires 0 <= k < |ms| => f(ms[k]))
  }

  ghost function Decisions(env: Env, events: seq<Event>, t: TenantId): seq<Decision> {
    Mapped(Moments(env, events), DecisionOf(env, t))
  }

  /** Among these calls there is a last one that decides, and it replays. */
  ghost predicate LastReplays(ds: seq<Decision>) {
    exists k :: 0 <= k < |ds| && ds[k].decides && ds[k].replays && forall j :: k < j < |ds| ==> !ds[j].decides
  }

  lemma LastReplaysSteps(ds: seq<Decision>, d: Decision)
    ensures LastReplays(ds + [d]) <==> if d.decides then d.replays else LastReplays(ds)
  {
    var all := ds + [d];
    if d.decides && d.replays {
      assert all[|ds|] == d;
    }
    if k :| 0 <= k < |ds| && ds[k].decides && ds[k].replays && forall j :: k < j < |ds| ==> !ds[j].decides {
      assert all[k] == ds[k];
    }
    if LastReplays(all) {
      var k :| 0 <= k < |all| && all[k].decides && all[k].replays && forall j :: k < j < |all| ==> !all[j].decides;
      assert all[|ds|] == d;
      if k < |ds| {
        assert forall j :: k < j < |ds| ==> !all[j].decides && all[j] == ds[j];
      }
    }
  }

  lemma MomentsOfAppend(env: Env, events: seq<Event>)
    requires events != []
    ensures var n := |events| - 1;
            Moments(env, events) == Moments(env, events[..n]) + [Moment(Run(env, EMPTY, events[..n]), events[n])]
  {
    var n := |events| - 1;
    forall k | 0 <= k < n ensures events[..n][..k] == events[..k] {
    }
  }

  lemma MappedOfAppend(ms: seq<Moment>, m: Moment, f: Moment -> Decision)
    ensures Mapped(ms + [m], f) == Mapped(ms, f) + [f(m)]
  {
  }

  /**
   * In a reachable state a tenant is in review with nothing to approve exactly
   * when the last accepted call that decided about its review was an app
   * submission that replays its published release, or a rollback whose next
   * version is taken by its own bytes in a release no longer pending.
   */
  lemma {:induction false} InReviewWithoutPending(env: Env, events: seq<Event>, t: TenantId)
    ensures NothingToReview(Run(env, EMPTY, events), t) <==> LastReplays(Decisions(env, events, t))
  {
    if events != [] {
      var n := |events| - 1;
      InReviewWithoutPending(env, events[..n], t);
      EveryRunIsSafe(env, events[..n]);
      StepDecides(env, Run(env, EMPTY, events[..n]), events[n], t);
      MomentsOfAppend(env, events);
      var m := Moment(Run(env, EMPTY, events[..n]), events[n]);
      MappedOfAppend(Moments(env, events[..n]), m, DecisionOf(env, t));
      LastReplaysSteps(Decisions(env, events[..n], t), DecisionOf(env, t)(m));
    }
  }

  // ---------------------------------------------------------------- rejections

  /** A rejected release stays rejected with its content, and is never public, whatever happens later. */
  lemma RejectedForGood(env: Env, db: Db, t: TenantId, reason: string, i: ReleaseId, later: seq<Event>)
    requires Inv(env, db) && t in db.tenants && db.tenants[t].appStatus == InReview && reason != ""
    requires i < |db.releases| && IsCandidate(db.releases[i], t, true)
    ensures var rejected := RejectApp(db, t, true, reason);
            var after := Run(env, rejected.db, later);
            && rejected.result == Ok(None) && i < |after.releases|
            && after.releases[i].status == Rejected && CoreOf(after.releases[i]) == CoreOf(db.releases[i])
            && forall x :: x in after.tenants ==> after.tenants[x].active != Some(i)
  {
    var rejected := RejectApp(db, t, true, reason).db;
    RejectionOutcome(db, t, reason);
    RejectAppKeeps(env, db, t, true, reason);
    EveryRunEvolves(env, rejected, later);
    var after := Run(env, rejected, later);
    assert RowEvolves(db.releases[i], rejected.releases[i]) && RowEvolves(rejected.releases[i], after.releases[i]);
  }

  /** And its bytes are refused under its version ever after. */
  lemma RejectedIsRefused(
    env: Env, db: Db, t: TenantId, reason: string, i: ReleaseId, later: seq<Event>, manifest: Value, again: Facts)
    requires Inv(env, db) && t in db.tenants && db.tenants[t].appStatus == InReview && reason != ""
    requires i < |db.releases| && IsCandidate(db.releases[i], t, true)
    requires again.permitted && GateError(env, manifest, again).None? && manifest.Obj?
    requires HasTruthy(manifest, "version") && Get(manifest, "version") == Some(Str(db.releases[i].version))
    requires Matches(env, db.releases[i], manifest)
    ensures var after := Run(env, RejectApp(db, t, true, reason).db, later);
            var o := SubmitForReview(env, after, t, manifest, again);
            o.result == Err(VersionAlreadyReviewed) && o.db.releases == after.releases
  {
    RejectedForGood(env, db, t, reason, i, later);
    var rejected := RejectApp(db, t, true, reason).db;
    RejectAppKeeps(env, db, t, true, reason);
    EveryRunEvolves(env, rejected, later);
    ReplayOutcome(env, Run(env, rejected, later), t, manifest, i, again);
  }
}
