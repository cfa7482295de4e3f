/**
 * What no status change touches: the tenant, version, build, manifest and
 * checksum of each release, and how versions and builds advance together.
 */
module PublishingHistory {
  import opened Options
  import opened Json
  import opened Stamping
  import opened Publishing
  import Versions
  import Compatibility

  datatype Core = Core(tenant: TenantId, version: string, build: nat, manifest: Value, checksum: string)

  function CoreOf(r: Release): Core {
    Core(r.tenant, r.version, r.build, r.manifest, r.checksum)
  }

  ghost predicate SameCores(a: seq<Release>, b: seq<Release>) {
    |a| == |b| && forall i :: 0 <= i < |a| ==> CoreOf(a[i]) == CoreOf(b[i])
  }

  /** How many of the first n releases belong to the tenant. */
  function Earlier(rs: seq<Release>, t: TenantId, n: nat): nat
    requires n <= |rs|
  {
    if n == 0 then 0 else Earlier(rs, t, n - 1) + if rs[n - 1].tenant == t then 1 else 0
  }

  /** The builds of each tenant are numbered 1, 2, 3, ... in order of insertion. */
  ghost predicate Numbered(rs: seq<Release>) {
    forall i :: 0 <= i < |rs| ==> rs[i].build == Earlier(rs, rs[i].tenant, i) + 1
  }

  /** The stored manifest carries its own stamps and checksum, and the shell can render it. */
  ghost predicate Sound(env: Env, r: Release) {
    && IsStamped(r.manifest, r.version, r.build)
    && r.checksum == env.checksum(r.manifest)
    && Compatibility.Errors(env.contract, r.manifest) == {}
  }

  ghost predicate AllSound(env: Env, rs: seq<Release>) {
    forall i :: 0 <= i < |rs| ==> Sound(env, rs[i])
  }

  ghost predicate AllVersions(rs: seq<Release>) {
    forall i :: 0 <= i < |rs| ==> Versions.IsVersion(rs[i].version)
  }

  ghost predicate UniqueVersions(rs: seq<Release>) {
    forall i, j :: 0 <= i < |rs| && 0 <= j < |rs| && rs[i].tenant == rs[j].tenant && rs[i].version == rs[j].version
      ==> i == j
  }

  /** The version that build `build` of a tenant carries when its first release carries `first`. */
  function VersionOfBuild(first: Versions.Version, build: nat): Versions.Version
    requires build >= 1
  {
    first.(patch := first.patch + build - 1)
  }

  /** Release j follows release i, its tenant's first: same MAJOR.MINOR, patch advanced by the builds between. */
  ghost predicate Follows(rs: seq<Release>, i: nat, j: nat)
    requires i < |rs| && j < |rs|
  {
    Versions.IsVersion(rs[i].version) && rs[j].build >= 1 &&
    var first := Versions.Parse(rs[i].version);
    first.patch <= Versions.MAX_EXACT ==>
      rs[j].version == Versions.Print(VersionOfBuild(first, rs[j].build))
      && first.patch + rs[j].build - 1 <= Versions.MAX_EXACT
  }

  ghost predicate LockStep(rs: seq<Release>) {
    forall i, j :: 0 <= i < |rs| && 0 <= j < |rs| && rs[i].tenant == rs[j].tenant && rs[i].build == 1
      ==> Follows(rs, i, j)
  }

  ghost predicate History(env: Env, rs: seq<Release>) {
    Numbered(rs) && AllVersions(rs) && UniqueVersions(rs) && LockStep(rs) && AllSound(env, rs)
  }

  // ---------------------------------------------------------------- status changes keep the history

  lemma {:induction false} EarlierOfSameCores(a: seq<Release>, b: seq<Release>, t: TenantId, n: nat)
    requires n <= |a| <= |b| && forall i :: 0 <= i < n ==> a[i].tenant == b[i].tenant
    ensures Earlier(a, t, n) == Earlier(b, t, n)
  {
    if n > 0 {
      EarlierOfSameCores(a, b, t, n - 1);
    }
  }

  lemma HistoryOfSameCores(env: Env, a: seq<Release>, b: seq<Release>)
    requires SameCores(a, b) && History(env, a)
    ensures History(env, b)
  {
    NumberedOfSameCores(a, b);
    LockStepOfSameCores(a, b);
    SoundOfSameCores(env, a, b);
  }

  lemma NumberedOfSameCores(a: seq<Release>, b: seq<Release>)
    requires SameCores(a, b) && Numbered(a) && AllVersions(a) && UniqueVersions(a)
    ensures Numbered(b) && AllVersions(b) && UniqueVersions(b)
  {
    forall i | 0 <= i < |b| ensures b[i].build == Earlier(b, b[i].tenant, i) + 1 && Versions.IsVersion(b[i].version) {
      assert CoreOf(a[i]) == CoreOf(b[i]);
      EarlierOfSameCores(a, b, a[i].tenant, i);
    }
    forall i, j | 0 <= i < |b| && 0 <= j < |b| && b[i].tenant == b[j].tenant && b[i].version == b[j].version
      ensures i == j
    {
      assert CoreOf(a[i]) == CoreOf(b[i]) && CoreOf(a[j]) == CoreOf(b[j]);
    }
  }

  lemma LockStepOfSameCores(a: seq<Release>, b: seq<Release>)
    requires SameCores(a, b) && LockStep(a)
    ensures LockStep(b)
  {
    forall i, j | 0 <= i < |b| && 0 <= j < |b| && b[i].tenant == b[j].tenant && b[i].build == 1
      ensures Follows(b, i, j)
    {
      assert CoreOf(a[i]) == CoreOf(b[i]) && CoreOf(a[j]) == CoreOf(b[j]);
      assert Follows(a, i, j);
    }
  }

  lemma SoundOfSameCores(env: Env, a: seq<Release>, b: seq<Release>)
    requires SameCores(a, b) && AllSound(env, a)
    ensures AllSound(env, b)
  {
    forall i | 0 <= i < |b| ensures Sound(env, b[i]) {
      assert CoreOf(a[i]) == CoreOf(b[i]) && Sound(env, a[i]);
    }
  }

  // ---------------------------------------------------------------- builds are 1..n

  lemma {:induction false} EarlierMonotone(rs: seq<Release>, t: TenantId, m: nat, n: nat)
    requires m <= n <= |rs|
    ensures Earlier(rs, t, m) <= Earlier(rs, t, n)
    decreases n
  {
    if m < n {
      EarlierMonotone(rs, t, m, n - 1);
    }
  }

  /** The latest release carries the number of releases as its build. */
  lemma {:induction false} LatestBuildIsCount(rs: seq<Release>, t: TenantId, n: nat)
    requires n <= |rs| && Numbered(rs)
    ensures match Latest(rs, t, false, n)
            case None => Earlier(rs, t, n) == 0
            case Some(latest) => rs[latest].build == Earlier(rs, t, n)
  {
    if n > 0 {
      var before := Latest(rs, t, false, n - 1);
      LatestBuildIsCount(rs, t, n - 1);
      if rs[n - 1].tenant == t {
        assert rs[n - 1].build == Earlier(rs, t, n - 1) + 1;
        assert before.Some? ==> rs[before.value].build < rs[n - 1].build;
      } else {
        assert Latest(rs, t, false, n) == before;
      }
    }
  }

  /** A tenant's builds are exactly 1..n: none is missing. */
  lemma {:induction false} EveryBuildExists(rs: seq<Release>, t: TenantId, build: nat, n: nat)
    returns (i: ReleaseId)
    requires n <= |rs| && Numbered(rs) && 1 <= build <= Earlier(rs, t, n)
    ensures i < n && rs[i].tenant == t && rs[i].build == build
    decreases n
  {
    if build <= Earlier(rs, t, n - 1) {
      i := EveryBuildExists(rs, t, build, n - 1);
    } else {
      i := n - 1;
    }
  }

  /** ... and none is used twice. */
  lemma BuildsAreUnique(rs: seq<Release>, i: nat, j: nat)
    requires i < j < |rs| && Numbered(rs) && rs[i].tenant == rs[j].tenant
    ensures rs[i].build < rs[j].build
  {
    EarlierMonotone(rs, rs[i].tenant, i + 1, j);
  }

  // ---------------------------------------------------------------- the next version

  /**
   * While the first version of a tenant has a patch of at most 2^53, the next
   * version is one patch above the latest and unused, except that at 2^53 it
   * is the latest version itself.
   */
  lemma NextVersionIsFresh(env: Env, rs: seq<Release>, t: TenantId, latest: ReleaseId, first: ReleaseId)
    returns (v: Versions.Version)
    requires History(env, rs) && Latest(rs, t, false, |rs|) == Some(latest)
    requires first < |rs| && rs[first].tenant == t && rs[first].build == 1 && Versions.IsVersion(rs[first].version)
    requires Versions.Parse(rs[first].version).patch <= Versions.MAX_EXACT
    ensures rs[latest].version == Versions.Print(v) && v.patch <= Versions.MAX_EXACT
    ensures v == VersionOfBuild(Versions.Parse(rs[first].version), rs[latest].build)
    ensures v.patch < Versions.MAX_EXACT ==>
              var next := Versions.Print(v.(patch := v.patch + 1));
              NextVersion(env, rs, t) == Some(next) && ByVersion(rs, t, next, |rs|).None?
    ensures v.patch == Versions.MAX_EXACT ==> NextVersion(env, rs, t) == Some(rs[latest].version)
  {
    var base := Versions.Parse(rs[first].version);
    assert Follows(rs, first, latest);
    v := VersionOfBuild(base, rs[latest].build);
    Versions.IncrementOfPrint(v, env.beyond);
    if v.patch < Versions.MAX_EXACT {
      SuccessorUnused(rs, t, latest, first, v);
    }
  }

  lemma SuccessorUnused(rs: seq<Release>, t: TenantId, latest: ReleaseId, first: ReleaseId, v: Versions.Version)
    requires LockStep(rs) && Latest(rs, t, false, |rs|) == Some(latest)
    requires first < |rs| && rs[first].tenant == t && rs[first].build == 1 && Versions.IsVersion(rs[first].version)
    requires Versions.Parse(rs[first].version).patch <= Versions.MAX_EXACT && rs[latest].build >= 1
    requires v == VersionOfBuild(Versions.Parse(rs[first].version), rs[latest].build)
    ensures ByVersion(rs, t, Versions.Print(v.(patch := v.patch + 1)), |rs|).None?
  {
    var next := v.(patch := v.patch + 1);
    match ByVersion(rs, t, Versions.Print(next), |rs|)
    case None =>
    case Some(i) =>
      assert Follows(rs, first, i) && IsCandidate(rs[i], t, false);
      Versions.RoundTrip(next);
      Versions.RoundTrip(VersionOfBuild(Versions.Parse(rs[first].version), rs[i].build));
      assert false;
  }

  /** Every stored version can be incremented. */
  lemma StoredVersionsAreValid(env: Env, rs: seq<Release>, t: TenantId)
    requires AllVersions(rs)
    ensures NextVersion(env, rs, t).Some?
  {
  }

  // ---------------------------------------------------------------- insertion keeps the history

  ghost predicate Appends(env: Env, rs: seq<Release>, r: Release) {
    && Versions.IsVersion(r.version)
    && r.build == NextBuild(rs, r.tenant)
    && ByVersion(rs, r.tenant, r.version, |rs|).None?
    && (Latest(rs, r.tenant, false, |rs|).Some? ==> NextVersion(env, rs, r.tenant) == Some(r.version))
  }

  lemma AppendedNumbered(rs: seq<Release>, r: Release)
    requires Numbered(rs) && r.build == NextBuild(rs, r.tenant)
    ensures Numbered(rs + [r])
  {
    var after := rs + [r];
    forall i | 0 <= i < |after| ensures after[i].build == Earlier(after, after[i].tenant, i) + 1 {
      EarlierOfSameCores(rs, after, after[i].tenant, i);
      if i == |rs| {
        LatestBuildIsCount(rs, r.tenant, |rs|);
      }
    }
  }

  /** The inserted release carries the version after the latest one. */
  lemma AppendedVersion(env: Env, rs: seq<Release>, r: Release, first: ReleaseId)
    requires History(env, rs) && Appends(env, rs, r)
    requires first < |rs| && rs[first].tenant == r.tenant && rs[first].build == 1
    requires Versions.IsVersion(rs[first].version) && Versions.Parse(rs[first].version).patch <= Versions.MAX_EXACT
    ensures var base := Versions.Parse(rs[first].version);
            && r.build >= 1 && r.version == Versions.Print(VersionOfBuild(base, r.build))
            && base.patch + r.build - 1 <= Versions.MAX_EXACT
  {
    assert IsCandidate(rs[first], r.tenant, false);
    var latest := Latest(rs, r.tenant, false, |rs|).value;
    var base := Versions.Parse(rs[first].version);
    assert Follows(rs, first, latest);
    var v := VersionOfBuild(base, rs[latest].build);
    if v.patch == Versions.MAX_EXACT {
      NextAtTheLimit(env, rs, r.tenant, latest, v);
      assert false;
    } else {
      NextBelowTheLimit(env, rs, r.tenant, latest, v, VersionOfBuild(base, r.build));
    }
  }

  lemma NextAtTheLimit(env: Env, rs: seq<Release>, t: TenantId, latest: ReleaseId, v: Versions.Version)
    requires Latest(rs, t, false, |rs|) == Some(latest) && rs[latest].version == Versions.Print(v)
    requires v.patch == Versions.MAX_EXACT
    ensures NextVersion(env, rs, t) == Some(rs[latest].version)
  {
    Versions.IncrementOfPrint(v, env.beyond);
  }

  lemma NextBelowTheLimit(
    env: Env, rs: seq<Release>, t: TenantId, latest: ReleaseId, v: Versions.Version, next: Versions.Version)
    requires Latest(rs, t, false, |rs|) == Some(latest) && rs[latest].version == Versions.Print(v)
    requires v.patch < Versions.MAX_EXACT && next == v.(patch := v.patch + 1)
    ensures NextVersion(env, rs, t) == Some(Versions.Print(next))
  {
    Versions.IncrementOfPrint(v, env.beyond);
  }

  lemma FollowsAtEnd(rs: seq<Release>, r: Release, first: ReleaseId)
    requires first < |rs| && Versions.IsVersion(rs[first].version) && r.build >= 1
    requires var base := Versions.Parse(rs[first].version);
             base.patch <= Versions.MAX_EXACT ==>
               r.version == Versions.Print(VersionOfBuild(base, r.build))
               && base.patch + r.build - 1 <= Versions.MAX_EXACT
    ensures Follows(rs + [r], first, |rs|)
  {
    assert (rs + [r])[first] == rs[first] && (rs + [r])[|rs|] == r;
  }

  /** The inserted release follows the tenant's first one. */
  lemma AppendedFollows(env: Env, rs: seq<Release>, r: Release, first: ReleaseId)
    requires History(env, rs) && Appends(env, rs, r)
    requires first < |rs| && rs[first].tenant == r.tenant && rs[first].build == 1
    ensures Follows(rs + [r], first, |rs|)
  {
    if Versions.Parse(rs[first].version).patch <= Versions.MAX_EXACT {
      AppendedVersion(env, rs, r, first);
    }
    FollowsAtEnd(rs, r, first);
  }

  lemma AppendedInLockStep(env: Env, rs: seq<Release>, r: Release)
    requires History(env, rs) && Appends(env, rs, r)
    ensures LockStep(rs + [r])
  {
    var after := rs + [r];
    forall i, j | 0 <= i < |after| && 0 <= j < |after| && after[i].tenant == after[j].tenant && after[i].build == 1
      ensures Follows(after, i, j)
    {
      if i < |rs| && j < |rs| {
        assert Follows(rs, i, j);
      } else if i < |rs| {
        AppendedFollows(env, rs, r, i);
      } else {
        FirstReleaseIsAlone(env, rs, r, j);
      }
    }
  }

  lemma FirstReleaseIsAlone(env: Env, rs: seq<Release>, r: Release, j: nat)
    requires Numbered(rs) && Appends(env, rs, r) && r.build == 1
    requires j < |rs + [r]| && (rs + [r])[j].tenant == r.tenant
    ensures Follows(rs + [r], |rs|, j)
  {
    Versions.PrintOfParse(r.version);
    assert j < |rs| ==> IsCandidate(rs[j], r.tenant, false);
  }

  lemma HistoryOfAppend(env: Env, rs: seq<Release>, r: Release)
    requires History(env, rs) && Appends(env, rs, r) && Sound(env, r)
    ensures History(env, rs + [r])
  {
    AppendedNumbered(rs, r);
    AppendedInLockStep(env, rs, r);
    UniqueOfAppend(rs, r);
  }

  lemma UniqueOfAppend(rs: seq<Release>, r: Release)
    requires UniqueVersions(rs) && ByVersion(rs, r.tenant, r.version, |rs|).None?
    ensures UniqueVersions(rs + [r])
  {
  }
}
