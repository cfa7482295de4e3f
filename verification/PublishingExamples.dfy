/** Runs with a concrete manifest, for what the publishing protocol promises less of than it seems. */
module PublishingExamples {
  import opened Options
  import opened Json
  import opened Stamping
  import opened Publishing
  import opened PublishingHistory
  import opened PublishingSafety
  import opened PublishingTheorems
  import opened PublishingReplays
  import opened PublishingReviews
  import Compatibility
  import ManifestValidator
  import Versions

  // ---------------------------------------------------------------- a small manifest

  const ALL_FINE: Facts := Facts(true, true, true)

  const HOME: Value := Obj([Field("id", Str("home"))])

  const SCREENS: Field := Field("screens", Arr([HOME]))

  function VersionField(version: string): Field {
    Field("version", Str(version))
  }

  /** `{ screens: [{ id: 'home' }], version }` */
  function Small(version: string): Value {
    Obj([SCREENS, VersionField(version)])
  }

  /** The same with its keys the other way round. */
  function VersionFirst(version: string): Value {
    Obj([VersionField(version), SCREENS])
  }

  lemma GetOfTwo(a: Field, b: Field, key: string)
    requires a.key != b.key
    ensures Get(Obj([a, b]), key)
         == if a.key == key then Some(a.value) else if b.key == key then Some(b.value) else None
  {
    IndexIs([a, b], key, if a.key == key then 0 else if b.key == key then 1 else 2);
  }

  /** A manifest with a screen list like this and otherwise nothing but a version. */
  ghost predicate OnlyScreens(m: Value, version: string) {
    && m.Obj? && version != ""
    && forall key :: Get(m, key) == if key == "screens" then Some(SCREENS.value)
                                    else if key == "version" then Some(Str(version)) else None
  }

  lemma SmallHasOnlyScreens(version: string)
    requires version != ""
    ensures OnlyScreens(Small(version), version) && OnlyScreens(VersionFirst(version), version)
  {
    forall key
      ensures Get(Small(version), key) == Get(VersionFirst(version), key)
           == if key == "screens" then Some(SCREENS.value) else if key == "version" then Some(Str(version)) else None
    {
      GetOfTwo(SCREENS, VersionField(version), key);
      GetOfTwo(VersionField(version), SCREENS, key);
    }
  }

  lemma HomeHasId()
    ensures Get(HOME, "id") == Some(Str("home")) && Get(HOME, "screenId") == None && Get(HOME, "type") == None
  {
    IndexIs(HOME.fields, "id", 0);
    IndexIs(HOME.fields, "screenId", 1);
    IndexIs(HOME.fields, "type", 1);
  }

  lemma NoProblems(m: Value, version: string)
    requires OnlyScreens(m, version)
    ensures ManifestValidator.Problems(m) == []
  {
    HomeHasId();
    assert ManifestValidator.ListScreenProblems(0, HOME) == [];
    assert ManifestValidator.ArrayProblems([HOME], 1) == [];
  }

  lemma HomeScreenIsClean(c: Compatibility.Contract)
    ensures Compatibility.NodeCountBelow(c, Arr([HOME]), 1) == 0 && Compatibility.ScreenErrors(c, [HOME], 1) == {}
  {
    HomeHasId();
    assert Compatibility.Child(HOME, 0) == Str("home");
    assert Compatibility.WalkErrorsBelow(c, HOME, 0, 1) == {};
    assert Compatibility.WalkErrors(c, HOME, 0) == {};
    assert Compatibility.NodeCount(c, HOME) == 0;
    assert Compatibility.Child(Arr([HOME]), 0) == HOME;
  }

  lemma NoErrors(c: Compatibility.Contract, m: Value, version: string)
    requires OnlyScreens(m, version)
    ensures Compatibility.Errors(c, m) == {}
  {
    HomeScreenIsClean(c);
  }

  lemma GateOpens(env: Env, m: Value)
    requires ManifestValidator.Problems(m) == [] && Compatibility.Errors(env.contract, m) == {}
    requires HasString(m, "version")
    ensures GateError(env, m, ALL_FINE).None?
  {
  }

  /** Both gates let it pass, whatever the contract of the shell. */
  lemma IsAdmitted(env: Env, m: Value, version: string)
    requires OnlyScreens(m, version)
    ensures GateError(env, m, ALL_FINE).None? && HasTruthy(m, "version")
  {
    NoProblems(m, version);
    NoErrors(env.contract, m, version);
    assert Get(m, "version") == Some(Str(version));
    GateOpens(env, m);
  }

  // ---------------------------------------------------------------- stamps on it

  lemma StampedSmall(version: string)
    ensures Stamp(Small(version), version, 1) == Small(version)
    ensures Stamp(VersionFirst(version), version, 1) == VersionFirst(version)
    ensures Stamp(Obj([SCREENS]), version, 1) == Small(version)
  {
    StampedTop(Small(version), version, 1);
    StampedTop(VersionFirst(version), version, 0);
    StampedTop(Obj([SCREENS]), version, 1);
  }

  lemma StampedTop(m: Value, version: string, i: nat)
    requires m.Obj? && i <= |m.fields| && (i < |m.fields| ==> m.fields[i].key == "version")
    requires forall k :: 0 <= k < |m.fields| && k != i ==> m.fields[k].key !in {"version", "metadata", "app"}
    ensures Stamp(m, version, 1)
         == Obj(if i < |m.fields| then m.fields[i := VersionField(version)] else m.fields + [VersionField(version)])
  {
    IndexIs(m.fields, "version", i);
    var top := StampTop(m, version);
    IndexIs(m.fields, "metadata", |m.fields|);
    IndexIs(m.fields, "app", |m.fields|);
  }

  lemma RemoveFromTwo(a: Field, b: Field, key: string)
    requires a.key != key && b.key == key
    ensures RemoveField([a, b], key) == [a] && RemoveField([b, a], key) == [a]
  {
    assert [a, b][1..] == [b] && [b, a][1..] == [a] && [a][1..] == [] && [b][1..] == [];
    assert RemoveField([], key) == [];
    assert RemoveField([b], key) == [];
    assert RemoveField([a], key) == [a] + [];
  }

  lemma StrippedSmall(version: string)
    ensures Stripped(Small(version)) == Obj([SCREENS]) && Stripped(VersionFirst(version)) == Obj([SCREENS])
  {
    RemoveFromTwo(SCREENS, VersionField(version), "version");
  }

  // ---------------------------------------------------------------- submitted and approved

  function Launch(t: TenantId, m: Value): seq<Event> {
    [Enrol(t), Submit(t, m, ALL_FINE), Approve(t, true)]
  }

  function LaunchedRow(env: Env, t: TenantId, m: Value, version: string): Release
    requires m.Obj?
  {
    Release(t, version, 1, Stamp(m, version, 1), env.checksum(Stamp(m, version, 1)), Published, None)
  }

  /** The one release of the tenant is public. */
  ghost predicate Launched(env: Env, db: Db, t: TenantId, m: Value, version: string)
    requires m.Obj?
  {
    t in db.tenants && db.releases == [LaunchedRow(env, t, m, version)] && Inv(env, db)
  }

  lemma RunOfOneMore(env: Env, events: seq<Event>, e: Event)
    ensures Run(env, EMPTY, events + [e]) == Step(env, Run(env, EMPTY, events), e)
  {
    assert (events + [e])[..|events|] == events;
  }

  lemma FirstIsStamped(env: Env, db: Db, t: TenantId, m: Value, version: string)
    requires db.releases == [] && t in db.tenants && OnlyScreens(m, version) && Versions.IsVersion(version)
    ensures var after := Step(env, db, Submit(t, m, ALL_FINE));
            after.releases == [LaunchedRow(env, t, m, version).(status := PendingReview)]
  {
    IsAdmitted(env, m, version);
    var a := Allocation(version, 1, Stamp(m, version, 1), env.checksum(Stamp(m, version, 1)));
    AllocatesRequested(env, db.releases, t, m, version, "1.0.0");
    FirstAllocation(env, t, m, version, a);
    AdmittedIs(env, db, t, m, a);
    QueuedNew(db, t, LaunchedRow(env, t, m, version).(status := PendingReview));
    assert SubmitForReview(env, db, t, m, ALL_FINE) == SubmitAdmitted(env, db, t, m);
  }

  lemma ActivateOne(r: Release, t: TenantId)
    ensures Activate([r], t, 0) == [r.(status := Published)]
  {
  }

  lemma ActivatedOne(db: Db, t: TenantId, r: Release)
    requires db.releases == [r]
    ensures Activated(db, t, 0).releases == [r.(status := Published)] && t in Activated(db, t, 0).tenants
  {
    ActivateOne(r, t);
  }

  lemma ApproveOne(env: Env, db: Db, t: TenantId, r: Release)
    requires Consistent(db) && db.releases == [r] && r.tenant == t && r.status == PendingReview
    ensures var after := Step(env, db, Approve(t, true));
            after.releases == [r.(status := Published)] && t in after.tenants
  {
    ApprovalIsNeverStuck(db, 0);
    assert Step(env, db, Approve(t, true)) == Activated(db, t, 0);
    ActivatedOne(db, t, r);
  }

  lemma PublishedAgain(r: Release)
    requires r.status == Published
    ensures r.(status := PendingReview).(status := Published) == r
  {
  }

  lemma Submits(env: Env, t: TenantId, m: Value, version: string)
    requires OnlyScreens(m, version) && Versions.IsVersion(version)
    ensures Run(env, EMPTY, [Enrol(t), Submit(t, m, ALL_FINE)]).releases
         == [LaunchedRow(env, t, m, version).(status := PendingReview)]
  {
    var start := Enrolled(env, t);
    RunOfTwo(env, EMPTY, Enrol(t), Submit(t, m, ALL_FINE));
    FirstIsStamped(env, start, t, m, version);
  }

  lemma Launches(env: Env, t: TenantId, m: Value, version: string)
    requires OnlyScreens(m, version) && Versions.IsVersion(version)
    ensures Launched(env, Run(env, EMPTY, Launch(t, m)), t, m, version)
  {
    var two := [Enrol(t), Submit(t, m, ALL_FINE)];
    assert Launch(t, m) == two + [Approve(t, true)];
    RunOfOneMore(env, two, Approve(t, true));
    EveryRunIsSafe(env, two);
    EveryRunIsSafe(env, Launch(t, m));
    Submits(env, t, m, version);
    var r := LaunchedRow(env, t, m, version);
    ApproveOne(env, Run(env, EMPTY, two), t, r.(status := PendingReview));
    PublishedAgain(r);
  }

  // ---------------------------------------------------------------- the examples

  lemma LaunchedIsReplayed(env: Env, db: Db, t: TenantId, m: Value, version: string)
    requires OnlyScreens(m, version) && Launched(env, db, t, m, version)
    ensures ReplaysPublished(env, db, t, m, ALL_FINE)
  {
    IsAdmitted(env, m, version);
    assert Names(env, db.releases, t, m, 0) && Matches(env, db.releases[0], m);
  }

  lemma ReplayedStep(env: Env, db: Db, e: Event, t: TenantId)
    requires Inv(env, db) && Replays(env, db, e, t)
    ensures NothingToReview(Step(env, db, e), t)
  {
    ReplayDecides(env, db, e, t);
    StepDecides(env, db, e, t);
  }

  /** An app submitted again after its approval: in review, with nothing to approve. */
  lemma ResubmittedApp(env: Env, t: TenantId, version: string)
    requires Versions.IsVersion(version)
    ensures var events := Launch(t, Small(version)) + [SubmitApp(t, Small(version), true, ALL_FINE)];
            NothingToReview(Run(env, EMPTY, events), t)
  {
    var m := Small(version);
    var db := Run(env, EMPTY, Launch(t, m));
    Versions.VersionIsText(version);
    SmallHasOnlyScreens(version);
    Launches(env, t, m, version);
    RunOfOneMore(env, Launch(t, m), SubmitApp(t, m, true, ALL_FINE));
    LaunchedIsReplayed(env, db, t, m, version);
    ReplayedStep(env, db, SubmitApp(t, m, true, ALL_FINE), t);
  }

  /** At the limit the next version is taken by the only release, and by its own bytes. */
  lemma OwnBytesAgain(env: Env, db: Db, t: TenantId, v: Versions.Version)
    requires Launched(env, db, t, Small(Versions.Print(v)), Versions.Print(v)) && StandsStill(env, v)
    ensures ReplaysDecided(env, db.releases, t, Obj([SCREENS]))
  {
    var version := Versions.Print(v);
    LimitOfFirst(env, db.releases, t, v);
    StampedSmall(version);
    GetOfOne(SCREENS, "version");
    assert Names(env, db.releases, t, Obj([SCREENS]), 0) && Matches(env, db.releases[0], Obj([SCREENS]));
  }

  lemma GetOfOne(a: Field, key: string)
    requires a.key != key
    ensures Get(Obj([a]), key) == None
  {
    IndexIs([a], key, 1);
  }

  lemma TargetOfLaunched(env: Env, db: Db, t: TenantId, version: string)
    requires Launched(env, db, t, Small(version), version)
    ensures RollbackTarget(db, t, version, ALL_FINE) == Some(0)
    ensures Stripped(db.releases[0].manifest) == Obj([SCREENS])
  {
    FoundByVersion(env, db.releases, t, 0);
    StampedSmall(version);
    StrippedSmall(version);
  }

  /** An app rolled back to its only release at the limit: in review, with nothing to approve. */
  lemma RolledBackToItself(env: Env, t: TenantId, v: Versions.Version)
    requires StandsStill(env, v)
    ensures var version := Versions.Print(v);
            var events := Launch(t, Small(version)) + [RollBackTo(t, version, ALL_FINE)];
            NothingToReview(Run(env, EMPTY, events), t)
  {
    var version := Versions.Print(v);
    var m := Small(version);
    var db := Run(env, EMPTY, Launch(t, m));
    Versions.RoundTrip(v);
    SmallHasOnlyScreens(version);
    Launches(env, t, m, version);
    RunOfOneMore(env, Launch(t, m), RollBackTo(t, version, ALL_FINE));
    OwnBytesAgain(env, db, t, v);
    TargetOfLaunched(env, db, t, version);
    ReplayedStep(env, db, RollBackTo(t, version, ALL_FINE), t);
  }

  /** With its keys in another order the same rollback is a version conflict, if the checksum tells the orders apart. */
  lemma ConflictingRollback(env: Env, t: TenantId, v: Versions.Version)
    requires StandsStill(env, v)
    requires env.checksum(Small(Versions.Print(v))) != env.checksum(VersionFirst(Versions.Print(v)))
    ensures var version := Versions.Print(v);
            var db := Run(env, EMPTY, Launch(t, VersionFirst(version)));
            Rollback(env, db, t, version, ALL_FINE).result == Err(VersionConflict)
  {
    var version := Versions.Print(v);
    var m := VersionFirst(version);
    var db := Run(env, EMPTY, Launch(t, m));
    Versions.RoundTrip(v);
    SmallHasOnlyScreens(version);
    Launches(env, t, m, version);
    LimitOfFirst(env, db.releases, t, v);
    StampedSmall(version);
    StrippedSmall(version);
    RollbackAtTheLimit(env, db, t, 0, 0, ALL_FINE);
  }

  // ---------------------------------------------------------------- a part that is no object

  const NOTE: Field := Field("metadata", Str("x"))

  /** `{ screens: [{ id: 'home' }], metadata: 'x', version }` */
  function Noted(version: string): Value {
    Obj([SCREENS, NOTE, VersionField(version)])
  }

  lemma GetFromNoted(version: string, key: string)
    ensures Get(Noted(version), key)
         == if key == "screens" then Some(SCREENS.value) else if key == "metadata" then Some(NOTE.value)
            else if key == "version" then Some(Str(version)) else None
  {
    IndexIs(Noted(version).fields, key,
            if key == "screens" then 0 else if key == "metadata" then 1 else if key == "version" then 2 else 3);
  }

  lemma NotedHasNoProblems(version: string)
    ensures ManifestValidator.Problems(Noted(version)) == []
  {
    HomeHasId();
    GetFromNoted(version, "screens");
    GetFromNoted(version, "metadata");
    GetFromNoted(version, "manifestVersion");
    GetFromNoted(version, "splash");
    GetFromNoted(version, "identity");
    assert ManifestValidator.ListScreenProblems(0, HOME) == [];
    assert ManifestValidator.ArrayProblems([HOME], 1) == [];
  }

  lemma NotedHasNoErrors(c: Compatibility.Contract, version: string)
    ensures Compatibility.Errors(c, Noted(version)) == {}
  {
    GetFromNoted(version, "screens");
    GetFromNoted(version, "metadata");
    GetFromNoted(version, "manifestVersion");
    HomeScreenIsClean(c);
  }

  /** A manifest that passes both gates, and whose content stamping changes. */
  lemma StampedNote(env: Env, version: string, build: nat)
    requires version != ""
    ensures GateError(env, Noted(version), ALL_FINE).None?
    ensures Content(Stamp(Noted(version), version, build)) != Content(Noted(version))
  {
    NotedHasNoProblems(version);
    NotedHasNoErrors(env.contract, version);
    GetFromNoted(version, "version");
    GetFromNoted(version, "metadata");
    GateOpens(env, Noted(version));
    StampKeepsContentExactly(Noted(version), version, build);
  }
}
