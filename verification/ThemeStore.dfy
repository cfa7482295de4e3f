/** The theme service over its mutable tables and cache, statement by statement. */
module ThemeStore {
  import opened Options
  import opened Json
  import opened Themes

  class ThemeService {
    var themes: map<TenantId, Theme>
    var versions: map<Key, Theme>
    var cache: map<TenantId, Theme>

    /** Entries under the cache's second key, which these methods only drop. */
    var bundles: map<TenantId, string>

    constructor ()
      ensures State() == EMPTY && bundles == map[]
    {
      themes, versions, cache, bundles := map[], map[], map[], map[];
    }

    ghost function State(): Themes.State
      reads this
    {
      Themes.State(themes, versions, cache)
    }

    method InvalidateCache(tenant: TenantId)
      modifies `cache, `bundles
      ensures cache == old(cache) - {tenant} && bundles == old(bundles) - {tenant}
    {
      cache := cache - {tenant};
      bundles := bundles - {tenant};
    }

    /** Inserts a snapshot; refused when the version key is taken. */
    method CreateVersion(tenant: TenantId, version: int, snapshot: Theme) returns (ok: bool)
      modifies `versions
      ensures ok <==> Key(tenant, version) !in old(versions)
      ensures versions == if ok then old(versions)[Key(tenant, version) := snapshot] else old(versions)
    {
      ok := Key(tenant, version) !in versions;
      if ok {
        versions := versions[Key(tenant, version) := snapshot];
      }
    }

    method GetTheme(tenant: TenantId) returns (r: Result<Theme, Error>)
      modifies this
      ensures Outcome(State(), r) == Perform(old(State()), Get(tenant)) && bundles == old(bundles)
    {
      if tenant in cache {
        return Ok(cache[tenant]);
      }
      if tenant !in themes {
        themes := themes[tenant := DEFAULT_THEME];
        return Ok(DEFAULT_THEME);
      }
      cache := cache[tenant := themes[tenant]];
      return Ok(themes[tenant]);
    }

    method UpdateTheme(tenant: TenantId, changes: Changes) returns (r: Result<Theme, Error>)
      modifies this
      ensures Outcome(State(), r) == Perform(old(State()), Update(tenant, changes))
      ensures bundles == if r.Ok? then old(bundles) - {tenant} else old(bundles)
    {
      if tenant in themes {
        var existing := themes[tenant];
        var updated := Applied(existing, changes).(version := existing.version + 1);
        themes := themes[tenant := updated];
        var ok := CreateVersion(tenant, existing.version, existing);
        if !ok {
          return Err(VersionClash);
        }
        InvalidateCache(tenant);
        return Ok(updated);
      }
      var created := Applied(DEFAULT_THEME, changes);
      themes := themes[tenant := created];
      InvalidateCache(tenant);
      return Ok(created);
    }

    method RestoreVersion(tenant: TenantId, version: int) returns (r: Result<Theme, Error>)
      modifies this
      ensures Outcome(State(), r) == Perform(old(State()), Restore(tenant, version))
      ensures bundles == if r.Ok? then old(bundles) - {tenant} else old(bundles)
    {
      if tenant !in themes {
        return Err(ThemeNotFound);
      }
      if Key(tenant, version) !in versions {
        return Err(VersionNotFound);
      }
      var theme, snapshot := themes[tenant], versions[Key(tenant, version)];
      var ok := CreateVersion(tenant, theme.version, theme);
      if !ok {
        return Err(VersionClash);
      }
      var restored := theme.(look := snapshot.look, version := theme.version + 1);
      if Truthy(snapshot.typography) {
        restored := restored.(typography := snapshot.typography);
      }
      if Truthy(snapshot.spacing) {
        restored := restored.(spacing := snapshot.spacing);
      }
      if Truthy(snapshot.custom) {
        restored := restored.(custom := snapshot.custom);
      }
      themes := themes[tenant := restored];
      InvalidateCache(tenant);
      return Ok(restored);
    }

    method ResetToDefaults(tenant: TenantId) returns (r: Result<Theme, Error>)
      modifies this
      ensures Outcome(State(), r) == Perform(old(State()), ResetAll(tenant))
      ensures bundles == if r.Ok? then old(bundles) - {tenant} else old(bundles)
    {
      var defaults := DEFAULT_THEME;
      if tenant in themes {
        var existing := themes[tenant];
        var ok := CreateVersion(tenant, existing.version, existing);
        if !ok {
          return Err(VersionClash);
        }
        defaults := Theme(DEFAULT_LOOK, Null, Null, Null, existing.isActive, existing.version + 1);
      }
      themes := themes[tenant := defaults];
      InvalidateCache(tenant);
      return Ok(defaults);
    }
  }
}
