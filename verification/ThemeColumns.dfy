/** What updates, restores and resets make of each column of a theme, over single calls and whole runs. */
module ThemeColumns {
  import opened Options
  import opened Json
  import opened Themes

  /** The columns a theme service call can write, by their names. */
  datatype Column =
    | PrimaryColor | SecondaryColor | BackgroundColor | TextColor | FontFamily | BorderRadius | Logo | Favicon
    | DarkPrimaryColor | DarkSecondaryColor | DarkBackgroundColor | DarkTextColor
    | Typography | Spacing | Custom | IsActive

  datatype Cell = Text(text: string) | Nullable(value: Option<string>) | Document(json: Value) | Flag(on: bool)

  function Held(theme: Theme, column: Column): Cell {
    match column
    case PrimaryColor => Text(theme.look.primaryColor)
    case SecondaryColor => Text(theme.look.secondaryColor)
    case BackgroundColor => Text(theme.look.backgroundColor)
    case TextColor => Text(theme.look.textColor)
    case FontFamily => Text(theme.look.fontFamily)
    case BorderRadius => Text(theme.look.borderRadius)
    case Logo => Nullable(theme.look.logo)
    case Favicon => Nullable(theme.look.favicon)
    case DarkPrimaryColor => Text(theme.look.darkPrimaryColor)
    case DarkSecondaryColor => Text(theme.look.darkSecondaryColor)
    case DarkBackgroundColor => Text(theme.look.darkBackgroundColor)
    case DarkTextColor => Text(theme.look.darkTextColor)
    case Typography => Document(theme.typography)
    case Spacing => Document(theme.spacing)
    case Custom => Document(theme.custom)
    case IsActive => Flag(theme.isActive)
  }

  function Lift<T>(request: Option<T>, cell: T -> Cell): Option<Cell> {
    match request
    case None => None
    case Some(value) => Some(cell(value))
  }

  /** What a request asks a column to become, if it names it. */
  function Asked(c: Changes, column: Column): Option<Cell> {
    match column
    case PrimaryColor => Lift(c.primaryColor, x => Text(x))
    case SecondaryColor => Lift(c.secondaryColor, x => Text(x))
    case BackgroundColor => Lift(c.backgroundColor, x => Text(x))
    case TextColor => Lift(c.textColor, x => Text(x))
    case FontFamily => Lift(c.fontFamily, x => Text(x))
    case BorderRadius => Lift(c.borderRadius, x => Text(x))
    case Logo => Lift(c.logo, x => Nullable(x))
    case Favicon => Lift(c.favicon, x => Nullable(x))
    case DarkPrimaryColor => Lift(c.darkPrimaryColor, x => Text(x))
    case DarkSecondaryColor => Lift(c.darkSecondaryColor, x => Text(x))
    case DarkBackgroundColor => Lift(c.darkBackgroundColor, x => Text(x))
    case DarkTextColor => Lift(c.darkTextColor, x => Text(x))
    case Typography => Lift(c.typography, x => Document(x))
    case Spacing => Lift(c.spacing, x => Document(x))
    case Custom => Lift(c.custom, x => Document(x))
    case IsActive => Lift(c.isActive, x => Flag(x))
  }

  predicate IsDocument(column: Column) {
    column in {Typography, Spacing, Custom}
  }

  /** What the theme of a tenant without one starts from. */
  function Initial(column: Column): Cell {
    match column
    case PrimaryColor => Text("#0066FF")
    case SecondaryColor => Text("#00CC66")
    case BackgroundColor => Text("#FFFFFF")
    case TextColor => Text("#1A1A1A")
    case FontFamily => Text("Inter")
    case BorderRadius => Text("8px")
    case Logo => Nullable(None)
    case Favicon => Nullable(None)
    case DarkPrimaryColor => Text("#4D9FFF")
    case DarkSecondaryColor => Text("#33DD77")
    case DarkBackgroundColor => Text("#121212")
    case DarkTextColor => Text("#E0E0E0")
    case Typography => Document(Null)
    case Spacing => Document(Null)
    case Custom => Document(Null)
    case IsActive => Flag(true)
  }

  function Before(s: State, tenant: TenantId, column: Column): Cell {
    if tenant in s.themes then Held(s.themes[tenant], column) else Initial(column)
  }

  /**
   * The call succeeded: its answer is the row that the store now has, one
   * version further on, the row before is kept under its version, and the
   * cache has nothing of the tenant.
   */
  ghost predicate Stored(s: State, tenant: TenantId, o: Outcome) {
    && o.result.Ok? && o.state.themes == s.themes[tenant := o.result.value] && tenant !in o.state.cache
    && o.result.value.version == (if tenant in s.themes then s.themes[tenant].version + 1 else 1)
    && o.state.versions == if tenant in s.themes
                           then s.versions[Key(tenant, s.themes[tenant].version) := s.themes[tenant]] else s.versions
  }

  // ---------------------------------------------------------------- single calls

  lemma AppliedWrites(theme: Theme, changes: Changes, version: int, column: Column)
    ensures Held(Applied(theme, changes).(version := version), column)
         == match Asked(changes, column) case Some(cell) => cell case None => Held(theme, column)
  {
  }

  lemma DefaultHolds(column: Column)
    ensures Held(DEFAULT_THEME, column) == Initial(column)
  {
  }

  /** An update writes what it asks for into the columns it names, and leaves the others as they were. */
  lemma UpdateWritesColumns(s: State, tenant: TenantId, changes: Changes, column: Column)
    requires Inv(s)
    ensures var o := UpdateTheme(s, tenant, changes);
            && Stored(s, tenant, o)
            && Held(o.result.value, column)
               == match Asked(changes, column) case Some(cell) => cell case None => Before(s, tenant, column)
  {
    UpdateStores(s, tenant, changes);
    DefaultHolds(column);
    if tenant in s.themes {
      AppliedWrites(s.themes[tenant], changes, s.themes[tenant].version + 1, column);
    } else {
      AppliedWrites(DEFAULT_THEME, changes, 1, column);
    }
  }

  lemma UpdateStores(s: State, tenant: TenantId, changes: Changes)
    requires Inv(s)
    ensures var o := UpdateTheme(s, tenant, changes);
            && Stored(s, tenant, o)
            && o.result.value == if tenant in s.themes
                                 then Applied(s.themes[tenant], changes).(version := s.themes[tenant].version + 1)
                                 else Applied(DEFAULT_THEME, changes).(version := 1)
  {
    UpdateKeeps(s, tenant, changes);
  }

  /** A reset gives every column its first value, except that it leaves an existing active flag alone. */
  lemma ResetGivesDefaults(s: State, tenant: TenantId, column: Column)
    requires Inv(s)
    ensures var o := ResetToDefaults(s, tenant);
            && Stored(s, tenant, o)
            && Held(o.result.value, column)
               == if column.IsActive? then Before(s, tenant, column) else Initial(column)
  {
    ResetKeeps(s, tenant);
  }

  lemma RestoredTakes(current: Theme, snapshot: Theme, column: Column)
    ensures Held(Restored(current, snapshot), column)
         == if column.IsActive? || (IsDocument(column) && !Truthy(Held(snapshot, column).json))
            then Held(current, column) else Held(snapshot, column)
  {
  }

  lemma RestoreStores(s: State, tenant: TenantId, version: int)
    requires Inv(s) && tenant in s.themes && Key(tenant, version) in s.versions
    ensures var o := RestoreVersion(s, tenant, version);
            Stored(s, tenant, o) && o.result.value == Restored(s.themes[tenant], s.versions[Key(tenant, version)])
  {
    PerformKeeps(s, Restore(tenant, version));
  }

  /**
   * A restore is refused for want of a theme or of the version, and otherwise
   * takes every column from the snapshot, except the active flag and documents
   * for which the snapshot has no truthy value.
   */
  lemma RestoreTakesColumns(s: State, tenant: TenantId, version: int, column: Column)
    requires Inv(s)
    ensures var o := RestoreVersion(s, tenant, version);
            if tenant !in s.themes then o == Outcome(s, Err(ThemeNotFound))
            else if Key(tenant, version) !in s.versions then o == Outcome(s, Err(VersionNotFound))
            else
              var snapshot := Held(s.versions[Key(tenant, version)], column);
              && Stored(s, tenant, o)
              && Held(o.result.value, column)
                 == if column.IsActive? || (IsDocument(column) && !Truthy(snapshot.json)) then Before(s, tenant, column)
                    else snapshot
  {
    if tenant in s.themes && Key(tenant, version) in s.versions {
      RestoreStores(s, tenant, version);
      RestoredTakes(s.themes[tenant], s.versions[Key(tenant, version)], column);
    }
  }

  /** Reading a theme that is not there creates it, and a stored one is cached; what is read is what was there. */
  lemma ReadGivesColumns(s: State, tenant: TenantId, column: Column)
    requires Inv(s)
    ensures var o := GetTheme(s, tenant);
            && o.result.Ok? && Held(o.result.value, column) == Before(s, tenant, column)
            && o.state.themes == s.themes[tenant := o.result.value] && o.state.versions == s.versions
            && o.state.cache == if tenant in s.themes then s.cache[tenant := s.themes[tenant]] else s.cache
  {
  }

  /** No call touches another tenant's theme, snapshots or cache entry. */
  lemma ThemesAreIsolated(s: State, c: Call, other: TenantId, version: int)
    requires c.tenant != other
    ensures var after := Perform(s, c).state;
            && (other in after.themes <==> other in s.themes)
            && (other in s.themes ==> after.themes[other] == s.themes[other])
            && (other in after.cache <==> other in s.cache)
            && (other in s.cache ==> after.cache[other] == s.cache[other])
            && (Key(other, version) in after.versions <==> Key(other, version) in s.versions)
            && (Key(other, version) in s.versions ==>
                  after.versions[Key(other, version)] == s.versions[Key(other, version)])
  {
  }

  // ---------------------------------------------------------------- runs

  /** The event may change the column: it is an update that names it, or a restore or reset of anything but the flag. */
  predicate Touches(e: Event, tenant: TenantId, column: Column) {
    && e.Made? && e.call.tenant == tenant
    && match e.call
       case Get(_) => false
       case Update(_, changes) => Asked(changes, column).Some?
       case Restore(_, _) => !column.IsActive?
       case ResetAll(_) => !column.IsActive?
  }

  lemma StepKeepsColumn(s: State, e: Event, tenant: TenantId, column: Column)
    requires Inv(s) && tenant in s.themes && !Touches(e, tenant, column)
    ensures Inv(Step(s, e)) && tenant in Step(s, e).themes
    ensures Held(Step(s, e).themes[tenant], column) == Held(s.themes[tenant], column)
  {
    match e
    case Expired(_) =>
    case Made(call) =>
      PerformKeeps(s, call);
      if call.tenant != tenant {
        ThemesAreIsolated(s, call, tenant, 0);
      } else {
        match call
        case Get(_) =>
        case Update(_, changes) => UpdateWritesColumns(s, tenant, changes, column);
        case Restore(_, version) => RestoreTakesColumns(s, tenant, version, column);
        case ResetAll(_) => ResetGivesDefaults(s, tenant, column);
      }
  }

  lemma {:induction false} RunKeepsColumn(s: State, events: seq<Event>, tenant: TenantId, column: Column)
    requires Inv(s) && tenant in s.themes
    requires forall i :: 0 <= i < |events| ==> !Touches(events[i], tenant, column)
    ensures tenant in Run(s, events).themes
    ensures Held(Run(s, events).themes[tenant], column) == Held(s.themes[tenant], column)
    decreases |events|
  {
    if events != [] {
      StepKeepsColumn(s, events[0], tenant, column);
      RunKeepsColumn(Step(s, events[0]), events[1..], tenant, column);
    }
  }

  /** Over every run, the last update to name a column decides it, until a restore or reset of it. */
  lemma LastUpdateDecides(events: seq<Event>, k: nat, tenant: TenantId, changes: Changes, column: Column)
    requires k < |events| && events[k] == Made(Update(tenant, changes)) && Asked(changes, column).Some?
    requires forall i :: k < i < |events| ==> !Touches(events[i], tenant, column)
    ensures var s := Run(EMPTY, events);
            tenant in s.themes && Held(s.themes[tenant], column) == Asked(changes, column).value
  {
    var past, since := events[..k], events[k + 1..];
    RunKeeps(EMPTY, past);
    RunSplits(events, k);
    var after := UpdateTheme(Run(EMPTY, past), tenant, changes).state;
    UpdateWritesColumns(Run(EMPTY, past), tenant, changes, column);
    UpdateKeeps(Run(EMPTY, past), tenant, changes);
    RunKeepsColumn(after, since, tenant, column);
  }

  lemma RunSplits(events: seq<Event>, k: nat)
    requires k < |events|
    ensures Run(EMPTY, events) == Run(Step(Run(EMPTY, events[..k]), events[k]), events[k + 1..])
  {
    EventsSplit(events, k);
    RunConcat(EMPTY, events[..k] + [events[k]], events[k + 1..]);
    RunOfAppend(events[..k], events[k]);
  }

  lemma EventsSplit(events: seq<Event>, k: nat)
    requires k < |events|
    ensures events == (events[..k] + [events[k]]) + events[k + 1..]
  {
  }
}
