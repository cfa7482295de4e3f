/**
 * What every publishing call answers and writes, in terms of the manifest and
 * of the tables before the call.
 */
module PublishingAnswers {
  import opened Options
  import opened Json
  import opened Stamping
  import opened Publishing
  import opened PublishingHistory
  import opened PublishingSafety
  import opened PublishingTheorems
  import opened PublishingReplays
  import opened PublishingReviews
  import GateTheorems
  import ValidatorTheorems
  import Versions

  // ---------------------------------------------------------------- gates

  ghost predicate InOrder(manifest: Value, facts: Facts) {
    ValidatorTheorems.WellFormed(manifest) && facts.navigationOk
  }

  ghost predicate Fits(env: Env, manifest: Value, facts: Facts) {
    GateTheorems.Acceptable(env.contract, manifest) && facts.assetsOk
  }

  /** The manifest names a version that is truthy and no text. */
  predicate OddVersion(manifest: Value) {
    HasTruthy(manifest, "version") && !Get(manifest, "version").value.Str?
  }

  /** Which refusal a manifest meets at the gates, and when it meets none. */
  lemma GateExactly(env: Env, manifest: Value, facts: Facts)
    ensures GateError(env, manifest, facts)
         == if !InOrder(manifest, facts) then Some(InvalidManifest)
            else if !Fits(env, manifest, facts) then Some(IncompatibleRuntime)
            else if OddVersion(manifest) then Some(InvalidManifest)
            else None
  {
    ValidatorTheorems.ValidExactly(manifest);
    GateTheorems.GateIsExact(env.contract, manifest);
  }

  // ---------------------------------------------------------------- versions

  predicate NoRelease(rs: seq<Release>, t: TenantId) {
    forall i :: 0 <= i < |rs| ==> rs[i].tenant != t
  }

  /** The tenant's release with the highest build. */
  predicate IsLast(rs: seq<Release>, t: TenantId, i: ReleaseId) {
    && i < |rs| && rs[i].tenant == t
    && forall k :: 0 <= k < |rs| && rs[k].tenant == t ==> rs[k].build <= rs[i].build
  }

  /** A tenant's first version is 1.0.0; from then on it is the increment of that of its last release. */
  ghost predicate IsNext(env: Env, rs: seq<Release>, t: TenantId, next: string) {
    if NoRelease(rs, t) then next == "1.0.0"
    else exists i: ReleaseId :: IsLast(rs, t, i) && Versions.IncrementPatch(rs[i].version, env.beyond) == Some(next)
  }

  lemma LatestIsLast(rs: seq<Release>, t: TenantId)
    ensures match Latest(rs, t, false, |rs|)
            case None => NoRelease(rs, t)
            case Some(latest) => IsLast(rs, t, latest) && !NoRelease(rs, t)
  {
    assert forall i :: 0 <= i < |rs| ==> (IsCandidate(rs[i], t, false) <==> rs[i].tenant == t);
  }

  lemma LastIsUnique(rs: seq<Release>, t: TenantId, i: ReleaseId, k: ReleaseId)
    requires Numbered(rs) && IsLast(rs, t, i) && IsLast(rs, t, k)
    ensures i == k
  {
    if i < k {
      BuildsAreUnique(rs, i, k);
    } else if k < i {
      BuildsAreUnique(rs, k, i);
    }
  }

  lemma NextExactly(env: Env, rs: seq<Release>, t: TenantId, next: string)
    requires Numbered(rs)
    ensures NextVersion(env, rs, t) == Some(next) <==> IsNext(env, rs, t, next)
  {
    LatestIsLast(rs, t);
    if latest :| Latest(rs, t, false, |rs|) == Some(latest) {
      forall i: ReleaseId | IsLast(rs, t, i) ensures i == latest {
        LastIsUnique(rs, t, i, latest);
      }
    }
  }

  /** The text is MAJOR.MINOR.PATCH. */
  ghost predicate IsText(text: string) {
    exists v: Versions.Version :: text == Versions.Print(v)
  }

  lemma TextExactly(text: string)
    ensures Versions.IsVersion(text) <==> IsText(text)
  {
    if Versions.IsVersion(text) {
      Versions.PrintOfParse(text);
      assert text == Versions.Print(Versions.Parse(text));
    }
    if v: Versions.Version :| text == Versions.Print(v) {
      Versions.RoundTrip(v);
    }
  }

  /** The version a submission asks for: the one it names, or else the next one. */
  ghost predicate Requests(env: Env, rs: seq<Release>, t: TenantId, manifest: Value, text: string) {
    if HasTruthy(manifest, "version") then Get(manifest, "version") == Some(Str(text)) else IsNext(env, rs, t, text)
  }

  lemma RequestsExactly(env: Env, rs: seq<Release>, t: TenantId, manifest: Value, text: string)
    requires History(env, rs)
    ensures Requests(env, rs, t, manifest, text) <==> Wanted(env, rs, t, manifest) == Some(text)
  {
    NextExactly(env, rs, t, text);
  }

  ghost function ReleasesOf(rs: seq<Release>, t: TenantId, n: nat): set<nat>
    requires n <= |rs|
  {
    set i: nat | i < n && rs[i].tenant == t
  }

  lemma {:induction false} EarlierIsSize(rs: seq<Release>, t: TenantId, n: nat)
    requires n <= |rs|
    ensures Earlier(rs, t, n) == |ReleasesOf(rs, t, n)|
  {
    if n > 0 {
      EarlierIsSize(rs, t, n - 1);
      assert ReleasesOf(rs, t, n) == ReleasesOf(rs, t, n - 1) + if rs[n - 1].tenant == t then {n - 1} else {};
    }
  }

  /** The next build is one more than the number of the tenant's releases. */
  lemma NextBuildExactly(env: Env, rs: seq<Release>, t: TenantId)
    requires History(env, rs)
    ensures NextBuild(rs, t) == |ReleasesOf(rs, t, |rs|)| + 1
  {
    EarlierIsSize(rs, t, |rs|);
    LatestBuildIsCount(rs, t, |rs|);
  }

  // ---------------------------------------------------------------- submissions that get past the gates

  ghost predicate Admissible(env: Env, db: Db, t: TenantId, manifest: Value, facts: Facts) {
    && facts.permitted && t in db.tenants && InOrder(manifest, facts) && Fits(env, manifest, facts)
    && !OddVersion(manifest)
  }

  predicate TakenBy(rs: seq<Release>, t: TenantId, text: string, i: ReleaseId) {
    i < |rs| && rs[i].tenant == t && rs[i].version == text
  }

  predicate Free(rs: seq<Release>, t: TenantId, text: string) {
    forall i :: 0 <= i < |rs| ==> !TakenBy(rs, t, text, i)
  }

  lemma FreeExactly(rs: seq<Release>, t: TenantId, text: string)
    ensures Free(rs, t, text) <==> ByVersion(rs, t, text, |rs|).None?
  {
    if i :| ByVersion(rs, t, text, |rs|) == Some(i) {
      assert TakenBy(rs, t, text, i);
    }
  }

  /** The release that a submission under a free version becomes. */
  ghost function NewRelease(env: Env, rs: seq<Release>, t: TenantId, manifest: Value, text: string): Release
    requires manifest.Obj?
  {
    var build := |ReleasesOf(rs, t, |rs|)| + 1;
    var stamped := Stamp(manifest, text, build);
    Release(t, text, build, stamped, env.checksum(stamped), PendingReview, None)
  }

  /** The tables after a new release has been queued: it is pending, and the tenant's other pending ones are not. */
  ghost predicate Queued(db: Db, after: Db, t: TenantId, r: Release)
    requires t in db.tenants
  {
    && |after.releases| == |db.releases| + 1 && after.releases[|db.releases|] == r
    && (forall i :: 0 <= i < |db.releases| ==>
          after.releases[i] == if db.releases[i].tenant == t && db.releases[i].status == PendingReview
                               then db.releases[i].(status := Superseded) else db.releases[i])
    && after.tenants == db.tenants[t := Tenant(InReview, db.tenants[t].active, None)]
    && after.drafts == db.drafts[t := NextDraft(db, t, r.manifest)]
  }

  function NextDraft(db: Db, t: TenantId, manifest: Value): Draft {
    Draft(if t in db.drafts then db.drafts[t].version + 1 else 1, manifest)
  }

  lemma AllocatesFree(env: Env, rs: seq<Release>, t: TenantId, manifest: Value, text: string, next: string)
    requires History(env, rs) && manifest.Obj? && Wanted(env, rs, t, manifest) == Some(text)
    requires Versions.IsVersion(text) && NextVersion(env, rs, t) == Some(next)
    requires ByVersion(rs, t, text, |rs|).None?
    ensures var build := NextBuild(rs, t);
            var stamped := Stamp(manifest, text, build);
            AllocateVersion(env, rs, t, manifest)
              == if Latest(rs, t, false, |rs|).Some? && text != next then Err(VersionSequence(next))
                 else Ok(Allocation(text, build, stamped, env.checksum(stamped)))
  {
    AllocatesWanted(env, rs, t, manifest, text, next);
  }

  lemma FinishesNew(db: Db, t: TenantId, a: Allocation)
    requires t in db.tenants && ByVersion(db.releases, t, a.version, |db.releases|).None?
    ensures CreateReviewRelease(db.releases, t, a).Ok?
    ensures var r := Release(t, a.version, a.build, a.manifest, a.checksum, PendingReview, None);
            var o := FinishSubmission(db, t, a, CreateReviewRelease(db.releases, t, a).value);
            && o.result == Ok(Some(Reply(|db.releases|, a.version, a.build, a.checksum, PendingReview)))
            && Queued(db, o.db, t, r)
  {
  }

  lemma AdmittedNew(env: Env, db: Db, t: TenantId, manifest: Value, a: Allocation)
    requires t in db.tenants && manifest.Obj? && AllocateVersion(env, db.releases, t, manifest) == Ok(a)
    requires ByVersion(db.releases, t, a.version, |db.releases|).None?
    ensures var r := Release(t, a.version, a.build, a.manifest, a.checksum, PendingReview, None);
            var o := SubmitAdmitted(env, db, t, manifest);
            && o.result == Ok(Some(Reply(|db.releases|, a.version, a.build, a.checksum, PendingReview)))
            && Queued(db, o.db, t, r)
  {
    FinishesNew(db, t, a);
    AdmittedIs(env, db, t, manifest, a);
  }

  lemma AdmissibleIsAdmitted(env: Env, db: Db, t: TenantId, manifest: Value, facts: Facts)
    requires Admissible(env, db, t, manifest, facts)
    ensures manifest.Obj? && facts.permitted && GateError(env, manifest, facts).None?
    ensures SubmitForReview(env, db, t, manifest, facts) == SubmitAdmitted(env, db, t, manifest)
  {
    GateExactly(env, manifest, facts);
  }

  /** Under a free version: the tenant's first release may carry any, and every later one only the next. */
  lemma SubmittedFree(env: Env, db: Db, t: TenantId, manifest: Value, facts: Facts, text: string, next: string)
    requires Inv(env, db) && Admissible(env, db, t, manifest, facts)
    requires Requests(env, db.releases, t, manifest, text) && IsText(text) && Free(db.releases, t, text)
    requires IsNext(env, db.releases, t, next)
    ensures manifest.Obj?
    ensures var o := SubmitForReview(env, db, t, manifest, facts);
            var r := NewRelease(env, db.releases, t, manifest, text);
            if NoRelease(db.releases, t) || text == next then
              && o.result == Ok(Some(Reply(|db.releases|, text, r.build, r.checksum, PendingReview)))
              && Queued(db, o.db, t, r)
            else o == Outcome(db, Err(VersionSequence(next)))
  {
    AdmissibleIsAdmitted(env, db, t, manifest, facts);
    AdmittedFree(env, db, t, manifest, text, next);
  }

  lemma AdmittedFree(env: Env, db: Db, t: TenantId, manifest: Value, text: string, next: string)
    requires History(env, db.releases) && t in db.tenants && manifest.Obj?
    requires Requests(env, db.releases, t, manifest, text) && IsText(text) && Free(db.releases, t, text)
    requires IsNext(env, db.releases, t, next)
    ensures var o := SubmitAdmitted(env, db, t, manifest);
            var r := NewRelease(env, db.releases, t, manifest, text);
            if NoRelease(db.releases, t) || text == next then
              && o.result == Ok(Some(Reply(|db.releases|, text, r.build, r.checksum, PendingReview)))
              && Queued(db, o.db, t, r)
            else o == Outcome(db, Err(VersionSequence(next)))
  {
    AllocatesAsked(env, db.releases, t, manifest, text, next);
    FreeExactly(db.releases, t, text);
    if AllocateVersion(env, db.releases, t, manifest).Ok? {
      AdmittedNew(env, db, t, manifest, AllocateVersion(env, db.releases, t, manifest).value);
    } else {
      AdmittedRefused(env, db, t, manifest, VersionSequence(next));
    }
  }

  lemma AllocatesAsked(env: Env, rs: seq<Release>, t: TenantId, manifest: Value, text: string, next: string)
    requires History(env, rs) && manifest.Obj?
    requires Requests(env, rs, t, manifest, text) && IsText(text) && Free(rs, t, text) && IsNext(env, rs, t, next)
    ensures var r := NewRelease(env, rs, t, manifest, text);
            AllocateVersion(env, rs, t, manifest)
              == if NoRelease(rs, t) || text == next then Ok(Allocation(text, r.build, r.manifest, r.checksum))
                 else Err(VersionSequence(next))
  {
    RequestsExactly(env, rs, t, manifest, text);
    NextExactly(env, rs, t, next);
    TextExactly(text);
    FreeExactly(rs, t, text);
    NextBuildExactly(env, rs, t);
    FirstOrNot(rs, t);
    AllocatesFree(env, rs, t, manifest, text, next);
  }

  lemma FirstOrNot(rs: seq<Release>, t: TenantId)
    ensures NoRelease(rs, t) <==> Latest(rs, t, false, |rs|).None?
  {
    LatestIsLast(rs, t);
  }

  /** Under a taken version: the holder is found again, or the submission is refused; no release changes. */
  lemma SubmittedTaken(env: Env, db: Db, t: TenantId, manifest: Value, facts: Facts, text: string, i: ReleaseId)
    requires Inv(env, db) && Admissible(env, db, t, manifest, facts)
    requires Requests(env, db.releases, t, manifest, text) && TakenBy(db.releases, t, text, i)
    ensures manifest.Obj?
    ensures var o := SubmitForReview(env, db, t, manifest, facts);
            var r := db.releases[i];
            var stamped := Stamp(manifest, text, r.build);
            if env.checksum(stamped) != r.checksum then o == Outcome(db, Err(VersionConflict))
            else if r.status !in {PendingReview, Published} then o == Outcome(db, Err(VersionAlreadyReviewed))
            else
              && o.result == Ok(Some(Reply(i, text, r.build, r.checksum, r.status)))
              && o.db.releases == db.releases
              && o.db.drafts == db.drafts[t := NextDraft(db, t, stamped)]
              && o.db.tenants == if r.status == PendingReview then db.tenants[t := db.tenants[t].(note := None)]
                                 else db.tenants
  {
    AdmissibleIsAdmitted(env, db, t, manifest, facts);
    RequestsExactly(env, db.releases, t, manifest, text);
    ReplayOutcome(env, db, t, manifest, i, facts);
    RefusedSubmission(env, db, t, manifest, facts);
    if Matches(env, db.releases[i], manifest) && Answerable(db.releases[i].status) {
      ReplayDraft(env, db, t, manifest, i);
    }
  }

  lemma FinishDraft(db: Db, t: TenantId, a: Allocation, i: ReleaseId)
    requires i < |db.releases| && t in db.tenants && Answerable(db.releases[i].status)
    ensures FinishSubmission(db, t, a, Staged(db.releases, i)).db.drafts == db.drafts[t := NextDraft(db, t, a.manifest)]
  {
  }

  lemma ReplayDraft(env: Env, db: Db, t: TenantId, manifest: Value, i: ReleaseId)
    requires Inv(env, db) && t in db.tenants && manifest.Obj? && Names(env, db.releases, t, manifest, i)
    requires Matches(env, db.releases[i], manifest) && Answerable(db.releases[i].status)
    ensures SubmitAdmitted(env, db, t, manifest).db.drafts
         == db.drafts[t := NextDraft(db, t, Stamp(manifest, db.releases[i].version, db.releases[i].build))]
  {
    var a := AllocationOf(db.releases[i], manifest);
    AllocatesAgain(env, db.releases, t, manifest, i);
    FoundByVersion(env, db.releases, t, i);
    RecoveredRow(db.releases, t, i, a);
    AdmittedIs(env, db, t, manifest, a);
    FinishDraft(db, t, a, i);
  }

  /** A version that is not MAJOR.MINOR.PATCH is refused. */
  lemma SubmittedBad(env: Env, db: Db, t: TenantId, manifest: Value, facts: Facts, text: string)
    requires Inv(env, db) && Admissible(env, db, t, manifest, facts)
    requires Requests(env, db.releases, t, manifest, text) && !IsText(text)
    ensures SubmitForReview(env, db, t, manifest, facts) == Outcome(db, Err(BadVersion))
  {
    AdmissibleIsAdmitted(env, db, t, manifest, facts);
    RequestsExactly(env, db.releases, t, manifest, text);
    TextExactly(text);
    StoredVersionsAreValid(env, db.releases, t);
    AllocatesBad(env, db.releases, t, manifest, text);
    AdmittedRefused(env, db, t, manifest, BadVersion);
  }

  lemma AllocatesBad(env: Env, rs: seq<Release>, t: TenantId, manifest: Value, text: string)
    requires manifest.Obj? && Wanted(env, rs, t, manifest) == Some(text) && !Versions.IsVersion(text)
    requires NextVersion(env, rs, t).Some?
    ensures AllocateVersion(env, rs, t, manifest) == Err(BadVersion)
  {
  }

  /** A submission that does not get past the gates changes nothing, and is told the first thing that is wrong. */
  lemma SubmittedRefused(env: Env, db: Db, t: TenantId, manifest: Value, facts: Facts)
    requires !Admissible(env, db, t, manifest, facts)
    ensures SubmitForReview(env, db, t, manifest, facts)
         == Outcome(db, Err(if !facts.permitted || t !in db.tenants then NotPermitted
                            else if !InOrder(manifest, facts) then InvalidManifest
                            else if !Fits(env, manifest, facts) then IncompatibleRuntime
                            else InvalidManifest))
  {
    GateExactly(env, manifest, facts);
  }

  /**
   * The version can be granted: it is taken by the same stamped bytes in a
   * pending or published release, or it is free, and the next one unless the
   * tenant has no release yet.
   */
  ghost predicate Grantable(env: Env, rs: seq<Release>, t: TenantId, manifest: Value, text: string)
    requires manifest.Obj?
  {
    || (exists i: ReleaseId :: TakenBy(rs, t, text, i) && rs[i].status in {PendingReview, Published}
                               && env.checksum(Stamp(manifest, text, rs[i].build)) == rs[i].checksum)
    || (Free(rs, t, text) && (NoRelease(rs, t) || IsNext(env, rs, t, text)))
  }

  ghost predicate AsksGrantable(env: Env, rs: seq<Release>, t: TenantId, manifest: Value, text: string)
    requires manifest.Obj?
  {
    Requests(env, rs, t, manifest, text) && IsText(text) && Grantable(env, rs, t, manifest, text)
  }

  lemma WantedText(env: Env, rs: seq<Release>, t: TenantId, manifest: Value) returns (text: string)
    requires AllVersions(rs) && !OddVersion(manifest)
    ensures Wanted(env, rs, t, manifest) == Some(text)
  {
    StoredVersionsAreValid(env, rs, t);
    text := Wanted(env, rs, t, manifest).value;
  }

  /** What a submission asks for, when it gets past the gates: there is exactly one such version. */
  lemma RequestedText(env: Env, db: Db, t: TenantId, manifest: Value, facts: Facts) returns (text: string)
    requires Inv(env, db) && Admissible(env, db, t, manifest, facts)
    ensures Requests(env, db.releases, t, manifest, text)
    ensures forall other :: Requests(env, db.releases, t, manifest, other) ==> other == text
  {
    text := WantedText(env, db.releases, t, manifest);
    RequestsExactly(env, db.releases, t, manifest, text);
    forall other | Requests(env, db.releases, t, manifest, other) ensures other == text {
      RequestsExactly(env, db.releases, t, manifest, other);
    }
  }

  /**
   * In every reachable state a submission is accepted exactly when it is
   * permitted, its manifest is well formed and fits the shell, and the version
   * it asks for is a MAJOR.MINOR.PATCH text that can be granted.
   */
  lemma AcceptedExactly(env: Env, db: Db, t: TenantId, manifest: Value, facts: Facts)
    requires Inv(env, db)
    ensures SubmitForReview(env, db, t, manifest, facts).result.Ok? <==>
            Admissible(env, db, t, manifest, facts)
            && exists text :: AsksGrantable(env, db.releases, t, manifest, text)
  {
    if Admissible(env, db, t, manifest, facts) {
      var text := RequestedText(env, db, t, manifest, facts);
      AcceptedWith(env, db, t, manifest, facts, text);
      if AsksGrantable(env, db.releases, t, manifest, text) {
        assert exists asked :: AsksGrantable(env, db.releases, t, manifest, asked);
      }
    } else {
      SubmittedRefused(env, db, t, manifest, facts);
    }
  }

  lemma AcceptedWith(env: Env, db: Db, t: TenantId, manifest: Value, facts: Facts, text: string)
    requires Inv(env, db) && Admissible(env, db, t, manifest, facts)
    requires Requests(env, db.releases, t, manifest, text)
    ensures SubmitForReview(env, db, t, manifest, facts).result.Ok? <==>
            IsText(text) && Grantable(env, db.releases, t, manifest, text)
  {
    var rs := db.releases;
    if !IsText(text) {
      SubmittedBad(env, db, t, manifest, facts, text);
    } else if Free(rs, t, text) {
      StoredVersionsAreValid(env, rs, t);
      var next := NextVersion(env, rs, t).value;
      NextExactly(env, rs, t, next);
      NextExactly(env, rs, t, text);
      SubmittedFree(env, db, t, manifest, facts, text, next);
    } else {
      var i: ReleaseId :| TakenBy(rs, t, text, i);
      SubmittedTaken(env, db, t, manifest, facts, text, i);
      TakenOnce(env, rs, t, text, i);
    }
  }

  lemma TakenOnce(env: Env, rs: seq<Release>, t: TenantId, text: string, i: ReleaseId)
    requires History(env, rs) && TakenBy(rs, t, text, i)
    ensures forall k: ReleaseId :: TakenBy(rs, t, text, k) ==> k == i
  {
  }
}
