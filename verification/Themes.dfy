/**
 * Theme versioning: the current theme of each tenant, the snapshots of its
 * earlier versions, and the cache in front of the store.
 */
module Themes {
  import opened Options
  import opened Json

  type TenantId = nat

  /** The twelve scalar columns. */
  datatype Look = Look(
    primaryColor: string,
    secondaryColor: string,
    backgroundColor: string,
    textColor: string,
    fontFamily: string,
    borderRadius: string,
    logo: Option<string>,
    favicon: Option<string>,
    darkPrimaryColor: string,
    darkSecondaryColor: string,
    darkBackgroundColor: string,
    darkTextColor: string
  )

  /** A theme row; an unset JSON column reads as null. */
  datatype Theme = Theme(look: Look, typography: Value, spacing: Value, custom: Value, isActive: bool, version: int)

  /** An update request; None leaves a column as it is, and Some(None) clears a nullable one. */
  datatype Changes = Changes(
    primaryColor: Option<string>,
    secondaryColor: Option<string>,
    backgroundColor: Option<string>,
    textColor: Option<string>,
    fontFamily: Option<string>,
    borderRadius: Option<string>,
    logo: Option<Option<string>>,
    favicon: Option<Option<string>>,
    darkPrimaryColor: Option<string>,
    darkSecondaryColor: Option<string>,
    darkBackgroundColor: Option<string>,
    darkTextColor: Option<string>,
    typography: Option<Value>,
    spacing: Option<Value>,
    custom: Option<Value>,
    isActive: Option<bool>
  )

  datatype Key = Key(tenant: TenantId, version: int)

  datatype State = State(themes: map<TenantId, Theme>, versions: map<Key, Theme>, cache: map<TenantId, Theme>)

  datatype Error = ThemeNotFound | VersionNotFound | VersionClash

  datatype Outcome = Outcome(state: State, result: Result<Theme, Error>)

  const EMPTY: State := State(map[], map[], map[])

  const DEFAULT_LOOK: Look := Look(
    "#0066FF", "#00CC66", "#FFFFFF", "#1A1A1A", "Inter", "8px", None, None,
    "#4D9FFF", "#33DD77", "#121212", "#E0E0E0")

  const DEFAULT_THEME: Theme := Theme(DEFAULT_LOOK, Null, Null, Null, true, 1)

  // ---------------------------------------------------------------- pure parts

  function Or<T>(change: Option<T>, current: T): T {
    if change.Some? then change.value else current
  }

  function Merge(look: Look, c: Changes): Look {
    Look(
      Or(c.primaryColor, look.primaryColor),
      Or(c.secondaryColor, look.secondaryColor),
      Or(c.backgroundColor, look.backgroundColor),
      Or(c.textColor, look.textColor),
      Or(c.fontFamily, look.fontFamily),
      Or(c.borderRadius, look.borderRadius),
      Or(c.logo, look.logo),
      Or(c.favicon, look.favicon),
      Or(c.darkPrimaryColor, look.darkPrimaryColor),
      Or(c.darkSecondaryColor, look.darkSecondaryColor),
      Or(c.darkBackgroundColor, look.darkBackgroundColor),
      Or(c.darkTextColor, look.darkTextColor))
  }

  /** The columns named by a request, and the version left to the caller. */
  function Applied(theme: Theme, c: Changes): Theme {
    Theme(Merge(theme.look, c), Or(c.typography, theme.typography), Or(c.spacing, theme.spacing),
          Or(c.custom, theme.custom), Or(c.isActive, theme.isActive), theme.version)
  }

  /** `snapshot.x || undefined`: a falsy value leaves the column as it is. */
  function Kept(snapshot: Value, current: Value): Value {
    if Truthy(snapshot) then snapshot else current
  }

  function Restored(current: Theme, snapshot: Theme): Theme {
    Theme(snapshot.look, Kept(snapshot.typography, current.typography), Kept(snapshot.spacing, current.spacing),
          Kept(snapshot.custom, current.custom), current.isActive, current.version + 1)
  }

  /** A reset sets every column but the active flag. */
  function Reset(current: Theme): Theme {
    Theme(DEFAULT_LOOK, Null, Null, Null, current.isActive, current.version + 1)
  }

  // ---------------------------------------------------------------- operations

  function GetTheme(s: State, tenant: TenantId): Outcome {
    if tenant in s.cache then Outcome(s, Ok(s.cache[tenant]))
    else if tenant !in s.themes then Outcome(s.(themes := s.themes[tenant := DEFAULT_THEME]), Ok(DEFAULT_THEME))
    else Outcome(s.(cache := s.cache[tenant := s.themes[tenant]]), Ok(s.themes[tenant]))
  }

  /** Writes the theme first and its snapshot second; a clash of the unique key comes too late. */
  function UpdateTheme(s: State, tenant: TenantId, changes: Changes): Outcome {
    if tenant !in s.themes then
      var created := Applied(DEFAULT_THEME, changes);
      Outcome(State(s.themes[tenant := created], s.versions, s.cache - {tenant}), Ok(created))
    else
      var existing := s.themes[tenant];
      var updated := Applied(existing, changes).(version := existing.version + 1);
      var key := Key(tenant, existing.version);
      if key in s.versions then Outcome(s.(themes := s.themes[tenant := updated]), Err(VersionClash))
      else Outcome(State(s.themes[tenant := updated], s.versions[key := existing], s.cache - {tenant}), Ok(updated))
  }

  /** Snapshots the current theme, then writes the next one. */
  function Replaced(s: State, tenant: TenantId, next: Theme): Outcome
    requires tenant in s.themes
  {
    var existing := s.themes[tenant];
    var key := Key(tenant, existing.version);
    if key in s.versions then Outcome(s, Err(VersionClash))
    else Outcome(State(s.themes[tenant := next], s.versions[key := existing], s.cache - {tenant}), Ok(next))
  }

  function RestoreVersion(s: State, tenant: TenantId, version: int): Outcome {
    if tenant !in s.themes then Outcome(s, Err(ThemeNotFound))
    else if Key(tenant, version) !in s.versions then Outcome(s, Err(VersionNotFound))
    else Replaced(s, tenant, Restored(s.themes[tenant], s.versions[Key(tenant, version)]))
  }

  function ResetToDefaults(s: State, tenant: TenantId): Outcome {
    if tenant !in s.themes then
      Outcome(State(s.themes[tenant := DEFAULT_THEME], s.versions, s.cache - {tenant}), Ok(DEFAULT_THEME))
    else Replaced(s, tenant, Reset(s.themes[tenant]))
  }

  datatype Call =
    | Get(tenant: TenantId)
    | Update(tenant: TenantId, changes: Changes)
    | Restore(tenant: TenantId, version: int)
    | ResetAll(tenant: TenantId)

  /** A call, or the cache dropping an entry whose time to live is over. */
  datatype Event = Made(call: Call) | Expired(tenant: TenantId)

  function Perform(s: State, c: Call): Outcome {
    match c
    case Get(tenant) => GetTheme(s, tenant)
    case Update(tenant, changes) => UpdateTheme(s, tenant, changes)
    case Restore(tenant, version) => RestoreVersion(s, tenant, version)
    case ResetAll(tenant) => ResetToDefaults(s, tenant)
  }

  function Step(s: State, e: Event): State {
    match e
    case Made(call) => Perform(s, call).state
    case Expired(tenant) => s.(cache := s.cache - {tenant})
  }

  function Run(s: State, events: seq<Event>): State
    decreases |events|
  {
    if events == [] then s else Run(Step(s, events[0]), events[1..])
  }

  // ---------------------------------------------------------------- invariant

  /** The snapshots held are exactly those of the versions before the current one. */
  ghost predicate ExactHistory(s: State) {
    && (forall t :: t in s.themes ==> s.themes[t].version >= 1)
    && (forall key :: key in s.versions <==>
          key.tenant in s.themes && 1 <= key.version < s.themes[key.tenant].version)
    && (forall key :: key in s.versions ==> s.versions[key].version == key.version)
  }

  ghost predicate CacheIsStore(s: State) {
    forall t :: t in s.cache ==> t in s.themes && s.cache[t] == s.themes[t]
  }

  ghost predicate Inv(s: State) {
    ExactHistory(s) && CacheIsStore(s)
  }

  /**
   * How a state may follow another: a theme either stays as it is or is found
   * among the snapshots, under its version, with everything that was there.
   */
  ghost predicate Follows(before: State, after: State) {
    && (forall key :: key in before.versions ==> key in after.versions && after.versions[key] == before.versions[key])
    && (forall t :: t in before.themes ==> t in after.themes && Remembered(after, t, before.themes[t]))
  }

  ghost predicate Remembered(s: State, t: TenantId, theme: Theme)
    requires t in s.themes
  {
    || s.themes[t] == theme
    || (theme.version < s.themes[t].version
        && Key(t, theme.version) in s.versions && s.versions[Key(t, theme.version)] == theme)
  }

  /** A new row for a tenant without one. */
  lemma CreationKeeps(s: State, tenant: TenantId, theme: Theme, after: State)
    requires Inv(s) && tenant !in s.themes && theme.version == 1
    requires after.themes == s.themes[tenant := theme] && after.versions == s.versions
    requires after.cache == s.cache - {tenant}
    ensures Inv(after) && Follows(s, after)
  {
  }

  /** The next version of a row together with the snapshot of the row before. */
  lemma SuccessionKeeps(s: State, tenant: TenantId, next: Theme)
    requires Inv(s) && tenant in s.themes && next.version == s.themes[tenant].version + 1
    ensures Key(tenant, s.themes[tenant].version) !in s.versions
    ensures var existing := s.themes[tenant];
            var after := State(s.themes[tenant := next], s.versions[Key(tenant, existing.version) := existing],
                               s.cache - {tenant});
            Inv(after) && Follows(s, after)
  {
  }

  /** An outcome that keeps the invariant, forgets nothing, and met no taken version key. */
  ghost predicate Keeps(s: State, o: Outcome) {
    Inv(o.state) && Follows(s, o.state) && o.result != Err(VersionClash)
  }

  lemma GetKeeps(s: State, tenant: TenantId)
    requires Inv(s)
    ensures Keeps(s, GetTheme(s, tenant))
  {
    if tenant !in s.cache && tenant !in s.themes {
      assert s.cache - {tenant} == s.cache;
      CreationKeeps(s, tenant, DEFAULT_THEME, GetTheme(s, tenant).state);
    }
  }

  lemma UpdateKeeps(s: State, tenant: TenantId, changes: Changes)
    requires Inv(s)
    ensures Keeps(s, UpdateTheme(s, tenant, changes))
  {
    if tenant in s.themes {
      SuccessionKeeps(s, tenant, Applied(s.themes[tenant], changes).(version := s.themes[tenant].version + 1));
    } else {
      CreationKeeps(s, tenant, Applied(DEFAULT_THEME, changes), UpdateTheme(s, tenant, changes).state);
    }
  }

  lemma ReplacedKeeps(s: State, tenant: TenantId, next: Theme)
    requires Inv(s) && tenant in s.themes && next.version == s.themes[tenant].version + 1
    ensures Keeps(s, Replaced(s, tenant, next))
  {
    SuccessionKeeps(s, tenant, next);
  }

  lemma ResetKeeps(s: State, tenant: TenantId)
    requires Inv(s)
    ensures Keeps(s, ResetToDefaults(s, tenant))
  {
    if tenant in s.themes {
      ReplacedKeeps(s, tenant, Reset(s.themes[tenant]));
    } else {
      CreationKeeps(s, tenant, DEFAULT_THEME, ResetToDefaults(s, tenant).state);
    }
  }

  /** Every call keeps the invariant, forgets nothing, and never meets a taken version key. */
  lemma PerformKeeps(s: State, c: Call)
    requires Inv(s)
    ensures Keeps(s, Perform(s, c))
  {
    match c
    case Get(tenant) => GetKeeps(s, tenant);
    case Update(tenant, changes) => UpdateKeeps(s, tenant, changes);
    case Restore(tenant, version) =>
      if tenant in s.themes && Key(tenant, version) in s.versions {
        ReplacedKeeps(s, tenant, Restored(s.themes[tenant], s.versions[Key(tenant, version)]));
      }
    case ResetAll(tenant) => ResetKeeps(s, tenant);
  }

  lemma ExpiryKeeps(s: State, tenant: TenantId)
    requires Inv(s)
    ensures Inv(Step(s, Expired(tenant))) && Follows(s, Step(s, Expired(tenant)))
  {
  }

  lemma FollowsIsTransitive(a: State, b: State, c: State)
    requires Follows(a, b) && Follows(b, c)
    ensures Follows(a, c)
  {
    forall t | t in a.themes ensures t in c.themes && Remembered(c, t, a.themes[t]) {
      assert Remembered(b, t, a.themes[t]) && Remembered(c, t, b.themes[t]);
    }
  }

  lemma {:induction false} RunKeeps(s: State, events: seq<Event>)
    requires Inv(s)
    ensures Inv(Run(s, events)) && Follows(s, Run(s, events))
    decreases |events|
  {
    if events != [] {
      var next := Step(s, events[0]);
      match events[0] {
        case Made(call) => PerformKeeps(s, call);
        case Expired(tenant) => ExpiryKeeps(s, tenant);
      }
      RunKeeps(next, events[1..]);
      FollowsIsTransitive(s, next, Run(next, events[1..]));
    }
  }

  lemma {:induction false} RunConcat(s: State, first: seq<Event>, later: seq<Event>)
    ensures Run(s, first + later) == Run(Run(s, first), later)
    decreases |first|
  {
    if first == [] {
      assert first + later == later;
    } else {
      assert (first + later)[1..] == first[1..] + later;
      RunConcat(Step(s, first[0]), first[1..], later);
    }
  }

  // ---------------------------------------------------------------- main results

  /** In every reachable state the snapshots are the versions 1 to current - 1, and the cache shows the store. */
  lemma EveryRunKeepsHistory(events: seq<Event>, tenant: TenantId, version: int)
    ensures var s := Run(EMPTY, events);
            && (Key(tenant, version) in s.versions <==>
                tenant in s.themes && 1 <= version < s.themes[tenant].version)
            && (tenant in s.cache ==> tenant in s.themes && s.cache[tenant] == s.themes[tenant])
            && forall c :: Perform(s, c).result != Err(VersionClash)
  {
    var s := Run(EMPTY, events);
    RunKeeps(EMPTY, events);
    forall c ensures Perform(s, c).result != Err(VersionClash) {
      PerformKeeps(s, c);
    }
  }

  /**
   * Time travel: the theme a tenant had after any part of a run is, ever
   * after, either still the current one or the snapshot under its version.
   */
  lemma TimeTravel(past: seq<Event>, since: seq<Event>, tenant: TenantId)
    requires tenant in Run(EMPTY, past).themes
    ensures var then_ := Run(EMPTY, past).themes[tenant];
            var s := Run(EMPTY, past + since);
            && tenant in s.themes
            && then_.version <= s.themes[tenant].version
            && (if then_.version == s.themes[tenant].version then s.themes[tenant] == then_
                else Key(tenant, then_.version) in s.versions && s.versions[Key(tenant, then_.version)] == then_)
  {
    RunConcat(EMPTY, past, since);
    RunKeeps(EMPTY, past);
    RunKeeps(Run(EMPTY, past), since);
    var theme := Run(EMPTY, past).themes[tenant];
    assert Remembered(Run(EMPTY, past + since), tenant, theme);
  }

  /** A new snapshot is the theme that the call replaces. */
  lemma NewSnapshot(s: State, e: Event, key: Key)
    requires key in Step(s, e).versions && key !in s.versions
    ensures key.tenant in s.themes && Step(s, e).versions[key] == s.themes[key.tenant]
  {
  }

  /** Every snapshot held was the tenant's theme at some earlier point of the run. */
  lemma {:induction false} SnapshotsWereThemes(events: seq<Event>, key: Key) returns (k: nat)
    requires key in Run(EMPTY, events).versions
    ensures k < |events| && key.tenant in Run(EMPTY, events[..k]).themes
    ensures Run(EMPTY, events[..k]).themes[key.tenant] == Run(EMPTY, events).versions[key]
    decreases |events|
  {
    if events == [] {
      assert false;
    } else {
      k := |events| - 1;
      var init, last := events[..k], events[k];
      var before := Run(EMPTY, init);
      RunKeeps(EMPTY, init);
      RunOfAppend(init, last);
      assert events == init + [last];
      if key in before.versions {
        k := SnapshotsWereThemes(init, key);
        assert init[..k] == events[..k];
        RunKeeps(before, [last]);
        assert Follows(before, Run(before, [last])) && Run(before, [last]) == Step(before, last);
      } else {
        NewSnapshot(before, last, key);
      }
    }
  }

  lemma RunOfAppend(events: seq<Event>, last: Event)
    ensures Run(EMPTY, events + [last]) == Step(Run(EMPTY, events), last) == Run(Run(EMPTY, events), [last])
  {
    RunConcat(EMPTY, events, [last]);
    assert [last][1..] == [];
  }

  /** A version can be restored exactly when it is an earlier one. */
  lemma RestorableExactly(events: seq<Event>, tenant: TenantId, version: int)
    ensures var s := Run(EMPTY, events);
            RestoreVersion(s, tenant, version).result.Ok? <==>
            tenant in s.themes && 1 <= version < s.themes[tenant].version
  {
    EveryRunKeepsHistory(events, tenant, version);
    assert Perform(Run(EMPTY, events), Restore(tenant, version)).result != Err(VersionClash);
  }

  /** A JSON column comes back from a snapshot when it had a truthy value there, or has not changed since. */
  predicate ComesBack(snapshot: Value, current: Value) {
    Truthy(snapshot) || snapshot == current
  }

  /**
   * Restoring what a tenant had earlier gives back its twelve scalar columns,
   * and each JSON column that had a truthy value or is unchanged. The whole
   * theme comes back, up to its version, exactly when all three JSON columns
   * do and the active flag, which a restore leaves alone, is unchanged too.
   */
  lemma RestoreGivesBack(past: seq<Event>, since: seq<Event>, tenant: TenantId)
    requires tenant in Run(EMPTY, past).themes && tenant in Run(EMPTY, past + since).themes
    requires Run(EMPTY, past).themes[tenant].version < Run(EMPTY, past + since).themes[tenant].version
    ensures var wanted := Run(EMPTY, past).themes[tenant];
            var current := Run(EMPTY, past + since).themes[tenant];
            var out := RestoreVersion(Run(EMPTY, past + since), tenant, wanted.version);
            && out.result.Ok?
            && var restored := out.result.value;
               && restored == out.state.themes[tenant]
               && restored.version == current.version + 1
               && restored.look == wanted.look
               && (restored.typography == wanted.typography <==> ComesBack(wanted.typography, current.typography))
               && (restored.spacing == wanted.spacing <==> ComesBack(wanted.spacing, current.spacing))
               && (restored.custom == wanted.custom <==> ComesBack(wanted.custom, current.custom))
               && restored.isActive == current.isActive
               && (restored.(version := wanted.version) == wanted <==>
                   && ComesBack(wanted.typography, current.typography)
                   && ComesBack(wanted.spacing, current.spacing)
                   && ComesBack(wanted.custom, current.custom)
                   && wanted.isActive == current.isActive)
  {
    var wanted := Run(EMPTY, past).themes[tenant];
    RunKeeps(EMPTY, past);
    TimeTravel(past, since, tenant);
    RestorableExactly(past + since, tenant, wanted.version);
  }

  /** A reader is served the stored theme, from the cache or not, and reading never makes a new version of it. */
  lemma ReadsAreCurrent(events: seq<Event>, tenant: TenantId)
    requires tenant in Run(EMPTY, events).themes
    ensures var s := Run(EMPTY, events);
            && GetTheme(s, tenant).result == Ok(s.themes[tenant])
            && GetTheme(s, tenant).state.themes == s.themes && GetTheme(s, tenant).state.versions == s.versions
  {
    EveryRunKeepsHistory(events, tenant, 1);
  }

  const NO_CHANGES: Changes := Changes(
    None, None, None, None, None, None, None, None, None, None, None, None, None, None, None, None)

  /** A theme created by a read, then given a typography: restoring version 1 does not take it away again. */
  lemma TypographyStays(tenant: TenantId)
    ensures var past := [Made(Get(tenant))];
            var since := [Made(Update(tenant, NO_CHANGES.(typography := Some(Obj([])))))];
            var s := Run(EMPTY, past + since);
            && tenant in Run(EMPTY, past).themes && Run(EMPTY, past).themes[tenant].typography == Null
            && RestoreVersion(s, tenant, 1).result.Ok?
            && RestoreVersion(s, tenant, 1).result.value.typography == Obj([])
  {
    var changes := NO_CHANGES.(typography := Some(Obj([])));
    var get, update := Made(Get(tenant)), Made(Update(tenant, changes));
    assert [get][1..] == [] && [update][1..] == [];
    var first := Step(EMPTY, get);
    assert first.themes[tenant] == DEFAULT_THEME && first.versions == map[];
    assert Run(EMPTY, [get]) == first;
    RunConcat(EMPTY, [get], [update]);
    var second := Step(first, update);
    assert Run(first, [update]) == second;
    assert second.themes[tenant] == Applied(DEFAULT_THEME, changes).(version := 2);
    RestoreGivesBack([get], [update], tenant);
  }
}
