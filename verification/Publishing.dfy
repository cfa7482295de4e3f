/**
 * The release publishing protocol as a state machine: merchants submit
 * manifests and roll back, reviewers approve and reject, and one reference per
 * tenant names what the public sees. Every service call is one step.
 */
module Publishing {
  import opened Options
  import opened Json
  import opened Stamping
  import Versions
  import Compatibility
  import ManifestValidator

  type TenantId = string

  /** Releases are only ever inserted, so a row number identifies one. */
  type ReleaseId = nat

  datatype Status = PendingReview | Published | Superseded | Rejected | RolledBack

  datatype AppStatus = NoApp | InReview | Approved | AppRejected

  datatype Release = Release(
    tenant: TenantId, version: string, build: nat, manifest: Value, checksum: string, status: Status,
    notes: Option<string>)

  datatype Tenant = Tenant(appStatus: AppStatus, active: Option<ReleaseId>, note: Option<string>)

  datatype Draft = Draft(version: nat, manifest: Value)

  datatype Db = Db(tenants: map<TenantId, Tenant>, releases: seq<Release>, drafts: map<TenantId, Draft>)

  /** Parameters: the checksum, version texts beyond exact doubles, the shell's contract. */
  datatype Env = Env(checksum: Value -> string, beyond: string -> string, contract: Compatibility.Contract)

  /** Facts about one call that come from outside this model. */
  datatype Facts = Facts(permitted: bool, navigationOk: bool, assetsOk: bool)

  datatype Error =
    | NotPermitted
    | MerchantNotFound
    | InvalidManifest
    | InvalidDrafts
    | IncompatibleRuntime
    | BadVersion
    | InvalidStoredVersion
    | VersionConflict
    | VersionSequence(expected: string)
    | VersionAlreadyReviewed
    | TargetNotFound
    | NotInReview
    | NothingSubmitted
    | ReasonRequired

  /** What the caller is told about the release concerned. */
  datatype Reply = Reply(id: ReleaseId, version: string, build: nat, checksum: string, status: Status)

  datatype Outcome = Outcome(db: Db, result: Result<Option<Reply>, Error>)

  // ---------------------------------------------------------------- queries

  /** `findUnique({ tenantId, version })` */
  function ByVersion(rs: seq<Release>, t: TenantId, version: string, n: nat): (r: Option<ReleaseId>)
    requires n <= |rs|
    ensures r.Some? ==> r.value < n && rs[r.value].tenant == t && rs[r.value].version == version
    ensures r.None? ==> forall i :: 0 <= i < n && rs[i].tenant == t ==> rs[i].version != version
  {
    if n == 0 then None
    else if rs[n - 1].tenant == t && rs[n - 1].version == version then Some(n - 1)
    else ByVersion(rs, t, version, n - 1)
  }

  predicate IsCandidate(r: Release, t: TenantId, pendingOnly: bool) {
    r.tenant == t && (pendingOnly ==> r.status == PendingReview)
  }

  /** `findFirst` ordered by descending build number, over all or only the pending releases of a tenant. */
  function Latest(rs: seq<Release>, t: TenantId, pendingOnly: bool, n: nat): (r: Option<ReleaseId>)
    requires n <= |rs|
    ensures r.Some? ==> r.value < n && IsCandidate(rs[r.value], t, pendingOnly)
    ensures r.Some? ==>
              forall i :: 0 <= i < n && IsCandidate(rs[i], t, pendingOnly) ==> rs[i].build <= rs[r.value].build
    ensures r.None? ==> forall i :: 0 <= i < n ==> !IsCandidate(rs[i], t, pendingOnly)
  {
    if n == 0 then None
    else
      var before := Latest(rs, t, pendingOnly, n - 1);
      if IsCandidate(rs[n - 1], t, pendingOnly) && (before.None? || rs[before.value].build <= rs[n - 1].build)
      then Some(n - 1) else before
  }

  // ---------------------------------------------------------------- gates

  /** `assertValid` and `assertCompatible` on a submitted manifest. */
  function GateError(env: Env, manifest: Value, facts: Facts): (r: Option<Error>)
    ensures r.Some? ==> r.value == InvalidManifest || r.value == IncompatibleRuntime
    ensures r.None? ==> manifest.Obj? && Compatible(env, manifest, facts)
    ensures r.None? && HasTruthy(manifest, "version") ==> HasString(manifest, "version")
  {
    if ManifestValidator.Problems(manifest) != [] || !facts.navigationOk then Some(InvalidManifest)
    else if !Compatible(env, manifest, facts) then Some(IncompatibleRuntime)
    else if HasTruthy(manifest, "version") && !HasString(manifest, "version") then Some(InvalidManifest)
    else None
  }

  predicate Compatible(env: Env, manifest: Value, facts: Facts) {
    Compatibility.Errors(env.contract, manifest) == {} && facts.assetsOk
  }

  // ---------------------------------------------------------------- version allocation

  datatype Allocation = Allocation(version: string, build: nat, manifest: Value, checksum: string)

  function NextVersion(env: Env, rs: seq<Release>, t: TenantId): Option<string> {
    match Latest(rs, t, false, |rs|)
    case None => Some("1.0.0")
    case Some(latest) => Versions.IncrementPatch(rs[latest].version, env.beyond)
  }

  function NextBuild(rs: seq<Release>, t: TenantId): nat {
    match Latest(rs, t, false, |rs|)
    case None => 1
    case Some(latest) => rs[latest].build + 1
  }

  function AllocateVersion(env: Env, rs: seq<Release>, t: TenantId, manifest: Value): (r: Result<Allocation, Error>)
    requires manifest.Obj?
    ensures r == Err(InvalidStoredVersion) ==> NextVersion(env, rs, t).None?
  {
    match NextVersion(env, rs, t)
    case None => Err(InvalidStoredVersion)
    case Some(next) =>
      var version := if HasTruthy(manifest, "version") then Get(manifest, "version").value else Str(next);
      if !version.Str? || !Versions.IsVersion(version.s) then Err(BadVersion)
      else AllocateRequested(env, rs, t, manifest, version.s, next)
  }

  function AllocateRequested(
      env: Env, rs: seq<Release>, t: TenantId, manifest: Value, version: string, next: string)
    : (r: Result<Allocation, Error>)
    requires manifest.Obj?
    ensures r.Err? ==> r.error == VersionConflict || r.error == VersionSequence(next)
  {
    match ByVersion(rs, t, version, |rs|)
    case Some(clash) =>
      var stamped := Stamp(manifest, version, rs[clash].build);
      if rs[clash].checksum == env.checksum(stamped)
      then Ok(Allocation(version, rs[clash].build, stamped, env.checksum(stamped)))
      else Err(VersionConflict)
    case None =>
      var stamped := Stamp(manifest, version, NextBuild(rs, t));
      if Latest(rs, t, false, |rs|).Some? && version != next then Err(VersionSequence(next))
      else Ok(Allocation(version, NextBuild(rs, t), stamped, env.checksum(stamped)))
  }

  // ---------------------------------------------------------------- table updates

  datatype Staged = Staged(releases: seq<Release>, id: ReleaseId)

  /** Insert, or recover the row whose unique (tenant, version) key is already taken by the same bytes. */
  function CreateReviewRelease(rs: seq<Release>, t: TenantId, a: Allocation): (r: Result<Staged, Error>)
    ensures r.Ok? ==> r.value.id < |r.value.releases|
    ensures r.Err? ==> r.error == VersionConflict
  {
    match ByVersion(rs, t, a.version, |rs|)
    case Some(existing) =>
      if rs[existing].checksum == a.checksum then Ok(Staged(rs, existing)) else Err(VersionConflict)
    case None =>
      Ok(Staged(rs + [Release(t, a.version, a.build, a.manifest, a.checksum, PendingReview, None)], |rs|))
  }

  function SupersededRow(r: Release, i: nat, t: TenantId, keep: ReleaseId): Release {
    if r.tenant == t && r.status == PendingReview && i != keep then r.(status := Superseded) else r
  }

  function Supersede(rs: seq<Release>, t: TenantId, keep: ReleaseId): seq<Release> {
    seq(|rs|, i requires 0 <= i < |rs| => SupersededRow(rs[i], i, t, keep))
  }

  function ActivatedRow(r: Release, i: nat, t: TenantId, candidate: ReleaseId): Release {
    if i == candidate then r.(status := Published)
    else if r.tenant == t && (r.status == Published || r.status == PendingReview) then r.(status := Superseded)
    else r
  }

  function Activate(rs: seq<Release>, t: TenantId, candidate: ReleaseId): seq<Release> {
    seq(|rs|, i requires 0 <= i < |rs| => ActivatedRow(rs[i], i, t, candidate))
  }

  function RejectedRow(r: Release, t: TenantId, reason: string): Release {
    if r.tenant == t && r.status == PendingReview then r.(status := Rejected, notes := Some(reason)) else r
  }

  function RejectPending(rs: seq<Release>, t: TenantId, reason: string): seq<Release> {
    seq(|rs|, i requires 0 <= i < |rs| => RejectedRow(rs[i], t, reason))
  }

  function SaveDraft(drafts: map<TenantId, Draft>, t: TenantId, manifest: Value): map<TenantId, Draft> {
    drafts[t := Draft(if t in drafts then drafts[t].version + 1 else 1, manifest)]
  }

  function MarkSubmitted(tenants: map<TenantId, Tenant>, t: TenantId): map<TenantId, Tenant>
    requires t in tenants
  {
    tenants[t := tenants[t].(appStatus := InReview, note := None)]
  }

  function ReplyFor(rs: seq<Release>, id: ReleaseId): Reply
    requires id < |rs|
  {
    Reply(id, rs[id].version, rs[id].build, rs[id].checksum, rs[id].status)
  }

  // ---------------------------------------------------------------- service calls

  /** A staged candidate becomes the one pending release, and the tenant waits for review. */
  function Queue(db: Db, t: TenantId, staged: Staged, manifest: Value): Db
    requires t in db.tenants
  {
    Db(MarkSubmitted(db.tenants, t), Supersede(staged.releases, t, staged.id), SaveDraft(db.drafts, t, manifest))
  }

  function SubmitForReview(env: Env, db: Db, t: TenantId, manifest: Value, facts: Facts): Outcome {
    if !facts.permitted || t !in db.tenants then Outcome(db, Err(NotPermitted))
    else match GateError(env, manifest, facts)
      case Some(e) => Outcome(db, Err(e))
      case None => SubmitAdmitted(env, db, t, manifest)
  }

  /** The part of a submission after both gates: allocate, stage, and queue what is now pending. */
  function SubmitAdmitted(env: Env, db: Db, t: TenantId, manifest: Value): (o: Outcome)
    requires t in db.tenants && manifest.Obj?
    ensures o.result == Err(InvalidStoredVersion) ==> NextVersion(env, db.releases, t).None?
  {
    match AllocateVersion(env, db.releases, t, manifest)
    case Err(e) => Outcome(db, Err(e))
    case Ok(a) =>
      match CreateReviewRelease(db.releases, t, a)
      case Err(e) => Outcome(db, Err(e))
      case Ok(staged) => FinishSubmission(db, t, a, staged)
  }

  function FinishSubmission(db: Db, t: TenantId, a: Allocation, staged: Staged): (o: Outcome)
    requires t in db.tenants && staged.id < |staged.releases|
    ensures o.result.Err? ==> o.result.error == VersionAlreadyReviewed
  {
    var reply := ReplyFor(staged.releases, staged.id);
    if reply.status == PendingReview then Outcome(Queue(db, t, staged, a.manifest), Ok(Some(reply)))
    else if reply.status == Published then
      Outcome(db.(drafts := SaveDraft(db.drafts, t, a.manifest)), Ok(Some(reply)))
    else Outcome(db, Err(VersionAlreadyReviewed))
  }

  function Rollback(env: Env, db: Db, t: TenantId, version: string, facts: Facts): Outcome {
    if !facts.permitted || t !in db.tenants then Outcome(db, Err(NotPermitted))
    else match ByVersion(db.releases, t, version, |db.releases|)
      case None => Outcome(db, Err(TargetNotFound))
      case Some(target) =>
        var r := db.releases[target];
        if r.status !in {Published, Superseded, RolledBack} || !r.manifest.Obj? then Outcome(db, Err(TargetNotFound))
        else Reissue(env, db, t, Obj(RemoveField(r.manifest.fields, "version")), facts)
  }

  /** Stage a manifest that carries no version of its own as the tenant's next release. */
  function Reissue(env: Env, db: Db, t: TenantId, manifest: Value, facts: Facts): (o: Outcome)
    requires t in db.tenants && manifest.Obj?
    ensures o.result == Err(InvalidStoredVersion) ==> NextVersion(env, db.releases, t).None?
  {
    match AllocateVersion(env, db.releases, t, manifest)
    case Err(e) => Outcome(db, Err(e))
    case Ok(a) =>
      if !Compatible(env, a.manifest, facts) then Outcome(db, Err(IncompatibleRuntime))
      else
        match CreateReviewRelease(db.releases, t, a)
        case Err(e) => Outcome(db, Err(e))
        case Ok(staged) => Outcome(Queue(db, t, staged, a.manifest), Ok(Some(ReplyFor(staged.releases, staged.id))))
  }

  /** The transaction of `activateReviewRelease`. */
  function Activated(db: Db, t: TenantId, candidate: ReleaseId): Db {
    db.(releases := Activate(db.releases, t, candidate),
        tenants := db.tenants[t := Tenant(Approved, Some(candidate), None)])
  }

  /** The transaction of `rejectApp`. */
  function Turned(db: Db, t: TenantId, reason: string): Db
    requires t in db.tenants
  {
    db.(tenants := db.tenants[t := db.tenants[t].(appStatus := AppRejected, note := Some(reason))],
        releases := RejectPending(db.releases, t, reason))
  }

  /** `MerchantAppReviewService.approveApp`, down to the activation of the pending candidate. */
  function ApproveApp(db: Db, t: TenantId, reviewer: bool): Outcome {
    if !reviewer then Outcome(db, Err(NotPermitted))
    else if t !in db.tenants then Outcome(db, Err(MerchantNotFound))
    else if db.tenants[t].appStatus == Approved then Outcome(db, Ok(None))
    else if db.tenants[t].appStatus != InReview then Outcome(db, Err(NotInReview))
    else match Latest(db.releases, t, true, |db.releases|)
      case None => Outcome(db, Err(NothingSubmitted))
      case Some(candidate) =>
        var after := Activated(db, t, candidate);
        Outcome(after, Ok(Some(ReplyFor(after.releases, candidate))))
  }

  function RejectApp(db: Db, t: TenantId, reviewer: bool, reason: string): Outcome {
    if !reviewer then Outcome(db, Err(NotPermitted))
    else if t !in db.tenants then Outcome(db, Err(MerchantNotFound))
    else if db.tenants[t].appStatus == AppRejected then Outcome(db, Ok(None))
    else if db.tenants[t].appStatus != InReview then Outcome(db, Err(NotInReview))
    else if reason == "" then Outcome(db, Err(ReasonRequired))
    else
      Outcome(Turned(db, t, reason), Ok(None))
  }

  /** `MerchantsService.submitAppReview`: a submission that always leaves the tenant in review. */
  function SubmitAppReview(env: Env, db: Db, t: TenantId, manifest: Value, owner: bool, facts: Facts): Outcome {
    if !owner || t !in db.tenants then Outcome(db, Err(NotPermitted))
    else
      var o := SubmitForReview(env, db, t, manifest, facts);
      if o.result.Err? || t !in o.db.tenants then o
      else Outcome(o.db.(tenants := MarkSubmitted(o.db.tenants, t)), o.result)
  }

  // ---------------------------------------------------------------- runs

  datatype Event =
    | Enrol(t: TenantId)
    | EditDraft(t: TenantId, draft: Draft)
    | Submit(t: TenantId, manifest: Value, facts: Facts)
    | SubmitApp(t: TenantId, manifest: Value, owner: bool, facts: Facts)
    | RollBackTo(t: TenantId, version: string, facts: Facts)
    | Approve(t: TenantId, reviewer: bool)
    | Reject(t: TenantId, reviewer: bool, reason: string)

  function Step(env: Env, db: Db, e: Event): Db {
    match e
    case Enrol(t) => if t in db.tenants then db else db.(tenants := db.tenants[t := Tenant(NoApp, None, None)])
    case EditDraft(t, draft) => db.(drafts := db.drafts[t := draft])
    case Submit(t, manifest, facts) => SubmitForReview(env, db, t, manifest, facts).db
    case SubmitApp(t, manifest, owner, facts) => SubmitAppReview(env, db, t, manifest, owner, facts).db
    case RollBackTo(t, version, facts) => Rollback(env, db, t, version, facts).db
    case Approve(t, reviewer) => ApproveApp(db, t, reviewer).db
    case Reject(t, reviewer, reason) => RejectApp(db, t, reviewer, reason).db
  }

  const EMPTY: Db := Db(map[], [], map[])

  function Run(env: Env, db: Db, events: seq<Event>): Db {
    if events == [] then db else Step(env, Run(env, db, events[..|events| - 1]), events[|events| - 1])
  }
}
