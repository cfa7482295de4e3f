/** Structural validation of a submitted manifest: one shared list of problems, filled while walking. */
module ManifestValidator {
  import opened Options
  import opened Json

  const MAX_DEPTH: nat := 25

  const LIST_KEYS: seq<string> := ["cats", "categories", "items", "offers", "orders", "rows"]

  const DESTINATION_KEYS: seq<string> := ["screenId", "screen", "push", "path", "route", "target"]

  datatype Segment = Key(key: string) | Index(index: nat)

  type Place = seq<Segment>

  datatype Problem =
    | NotAnObject
    | UnsupportedVersion
    | ScreensRequired
    | ScreensIsText
    | ScreensEmpty
    | ScreensNotAMap
    | ScreenNull(at: Place)
    | ScreenNotAnObject(at: Place)
    | ScreenWithoutId(at: Place)
    | SplashNotAnObject
    | IdentityNotAnObject
    | TooDeep(at: Place)
    | TapActionNotAnObject(at: Place)
    | ActionsNotAnObject(at: Place)
    | ActionNotAnObject(at: Place)
    | NavigateWithoutScreen(at: Place)

  // ---------------------------------------------------------------- one screen

  /** `typeof v !== 'object'` for a present value. */
  predicate PresentScalar(j: Value, key: string) {
    Present(j, key) && !IsStructure(Get(j, key).value)
  }

  /** `payload?.screenId ?? payload?.screen ?? ...` over the destination keys from the k-th on. */
  function Destination(payload: Value, k: nat): Option<Value>
    requires k < |DESTINATION_KEYS|
    decreases |DESTINATION_KEYS| - k
  {
    var here := Get(payload, DESTINATION_KEYS[k]);
    if k == |DESTINATION_KEYS| - 1 then here else Coalesce(here, Destination(payload, k + 1))
  }

  function ActionProblems(action: Value, at: Place): seq<Problem> {
    if action.Null? then []
    else if !IsStructure(action) then [ActionNotAnObject(at)]
    else if Get(action, "type") == Some(Str("navigate")) then
      var payload := match Get(action, "payload") case Some(p) => p case None => Null;
      var dest := Destination(payload, 0);
      if dest.Some? && Truthy(dest.value) then [] else [NavigateWithoutScreen(at)]
    else []
  }

  function EntriesProblems(entries: seq<Field>, at: Place, n: nat): seq<Problem>
    requires n <= |entries|
  {
    if n == 0 then []
    else EntriesProblems(entries, at, n - 1)
         + ActionProblems(entries[n - 1].value, at + [Key("actions"), Key(entries[n - 1].key)])
  }

  function ActionsProblems(actions: Value, at: Place): seq<Problem> {
    if !IsStructure(actions) then [ActionsNotAnObject(at + [Key("actions")])]
    else EntriesProblems(Entries(actions), at, |Entries(actions)|)
  }

  function OwnTapProblem(node: Value, at: Place): seq<Problem> {
    TapProblem(node, at + [Key("tapAction")])
  }

  function OwnActionsProblems(node: Value, at: Place): seq<Problem> {
    if Present(node, "actions") then ActionsProblems(Get(node, "actions").value, at) else []
  }

  /** The `tapAction` and `actions` of one node. */
  function EventProblems(node: Value, at: Place): seq<Problem> {
    OwnTapProblem(node, at) + OwnActionsProblems(node, at)
  }

  function TapProblem(item: Value, at: Place): seq<Problem> {
    if PresentScalar(item, "tapAction") then [TapActionNotAnObject(at)] else []
  }

  function TapProblems(items: seq<Value>, at: Place, n: nat): seq<Problem>
    requires n <= |items|
  {
    if n == 0 then []
    else TapProblems(items, at, n - 1) + TapProblem(items[n - 1], at + [Index(n - 1), Key("tapAction")])
  }

  /** `node[key] ?? node.props?.[key]` when it is a list. */
  function ListAt(node: Value, key: string): seq<Value> {
    match Coalesce(Get(node, key), Get2(node, "props", key))
    case Some(Arr(items)) => items
    case _ => []
  }

  function ListProblems(node: Value, at: Place, n: nat): seq<Problem>
    requires n <= |LIST_KEYS|
  {
    if n == 0 then []
    else
      var key := LIST_KEYS[n - 1];
      var items := ListAt(node, key);
      ListProblems(node, at, n - 1) + TapProblems(items, at + [Key(key)], |items|)
  }

  /** The children that the validator descends into: `children` and `layout.children`. */
  function ChildList(node: Value): (items: seq<Value>)
    ensures forall i :: 0 <= i < |items| ==> items[i] < node
  {
    if node.Obj? && IndexOf(node.fields, "children") < |node.fields| then
      match node.fields[IndexOf(node.fields, "children")].value
      case Arr(items) => items
      case _ => []
    else []
  }

  function LayoutList(node: Value): (items: seq<Value>)
    ensures forall i :: 0 <= i < |items| ==> items[i] < node
  {
    if node.Obj? && IndexOf(node.fields, "layout") < |node.fields| then
      ChildList(node.fields[IndexOf(node.fields, "layout")].value)
    else []
  }

  function NodeProblems(node: Value, at: Place, depth: nat): seq<Problem>
    decreases node, 1, 0
  {
    if depth > MAX_DEPTH then [TooDeep(at)]
    else if !IsStructure(node) then []
    else
      EventProblems(node, at)
      + ChildrenProblems(node, ChildList(node), at + [Key("children")], depth, |ChildList(node)|)
      + ChildrenProblems(node, LayoutList(node), at + [Key("layout"), Key("children")], depth, |LayoutList(node)|)
      + ListProblems(node, at, |LIST_KEYS|)
  }

  function ChildrenProblems(node: Value, items: seq<Value>, at: Place, depth: nat, n: nat): seq<Problem>
    requires n <= |items|
    requires forall i :: 0 <= i < |items| ==> items[i] < node
    decreases node, 0, n
  {
    if n == 0 then []
    else ChildrenProblems(node, items, at, depth, n - 1)
         + NodeProblems(items[n - 1], at + [Index(n - 1)], depth + 1)
  }

  // ---------------------------------------------------------------- the whole manifest

  predicate VersionSupported(manifest: Value) {
    var raw := Coalesce(Get(manifest, "manifestVersion"), Get2(manifest, "metadata", "schemaVersion"));
    raw.None? || raw.value.Null? || PrintsAs(raw.value, "1.0.0") || PrintsAs(raw.value, "1.0")
  }

  /** `screen.screenId ?? screen.id ?? fallback` is truthy. */
  predicate HasId(screen: Value, fallback: Option<Value>) {
    var id := Coalesce(Coalesce(Get(screen, "screenId"), Get(screen, "id")), fallback);
    id.Some? && Truthy(id.value)
  }

  function MissingId(screen: Value, fallback: Option<Value>, at: Place): seq<Problem> {
    if HasId(screen, fallback) then [] else [ScreenWithoutId(at)]
  }

  function ObjectScreenProblems(screen: Value, fallback: Option<Value>, at: Place): seq<Problem> {
    MissingId(screen, fallback, at) + NodeProblems(screen, at, 0)
  }

  function MapScreenProblems(key: string, screen: Value): seq<Problem> {
    var at := [Key("screens"), Key(key)];
    if screen.Null? then [ScreenNull(at)]
    else if screen.Str? then []
    else if !IsStructure(screen) then [ScreenNotAnObject(at)]
    else ObjectScreenProblems(screen, Some(Str(key)), at)
  }

  /** The problems of each screen of a map, in order. */
  function MapReports(fields: seq<Field>): seq<seq<Problem>> {
    seq(|fields|, i requires 0 <= i < |fields| => MapScreenProblems(fields[i].key, fields[i].value))
  }

  /** The first n reports, one after the other. */
  function Joined(reports: seq<seq<Problem>>, n: nat): seq<Problem>
    requires n <= |reports|
  {
    if n == 0 then [] else Joined(reports, n - 1) + reports[n - 1]
  }

  function ListScreenProblems(i: nat, screen: Value): seq<Problem> {
    var at := [Key("screens"), Index(i)];
    if !IsStructure(screen) then [ScreenNotAnObject(at)]
    else MissingId(screen, Get(screen, "slug"), at)
  }

  function ArrayProblems(items: seq<Value>, n: nat): seq<Problem>
    requires n <= |items|
  {
    if n == 0 then [] else ArrayProblems(items, n - 1) + ListScreenProblems(n - 1, items[n - 1])
  }

  function EmptyProblem<T>(screens: seq<T>): seq<Problem> {
    if |screens| == 0 then [ScreensEmpty] else []
  }

  function ListProblemsOf(items: seq<Value>): seq<Problem> {
    EmptyProblem(items) + ArrayProblems(items, |items|)
  }

  function MapProblemsOf(fields: seq<Field>): seq<Problem> {
    EmptyProblem(fields) + Joined(MapReports(fields), |fields|)
  }

  function ScreensProblems(manifest: Value): seq<Problem> {
    match Get(manifest, "screens")
    case None => [ScreensRequired]
    case Some(Null) => [ScreensRequired]
    case Some(Str(_)) => [ScreensIsText]
    case Some(Arr(items)) => ListProblemsOf(items)
    case Some(Obj(fields)) => MapProblemsOf(fields)
    case Some(_) => [ScreensNotAMap]
  }

  function When(found: bool, problem: Problem): seq<Problem> {
    if found then [problem] else []
  }

  function Problems(manifest: Value): seq<Problem> {
    if !manifest.Obj? then [NotAnObject]
    else
      When(!VersionSupported(manifest), UnsupportedVersion)
      + ScreensProblems(manifest)
      + When(PresentScalar(manifest, "splash"), SplashNotAnObject)
      + When(PresentScalar(manifest, "identity"), IdentityNotAnObject)
  }

  lemma Pushed(before: seq<Problem>, found: seq<Problem>, more: seq<Problem>)
    ensures before + found + more == before + (found + more)
  {
  }

  /** One validation run: `errors` is the list that every recursive call pushes into. */
  class Validation {
    var errors: seq<Problem>

    constructor ()
      ensures errors == []
    {
      errors := [];
    }

    method ValidateEvents(node: Value, at: Place)
      modifies this
      ensures errors == old(errors) + EventProblems(node, at)
    {
      if PresentScalar(node, "tapAction") {
        errors := errors + [TapActionNotAnObject(at + [Key("tapAction")])];
      }
      if Present(node, "actions") {
        ValidateActions(Get(node, "actions").value, at);
      }
      Pushed(old(errors), OwnTapProblem(node, at), OwnActionsProblems(node, at));
    }

    method ValidateActions(actions: Value, at: Place)
      modifies this
      ensures errors == old(errors) + ActionsProblems(actions, at)
    {
      if !IsStructure(actions) {
        errors := errors + [ActionsNotAnObject(at + [Key("actions")])];
      } else {
        var entries := Entries(actions);
        for i := 0 to |entries|
          invariant errors == old(errors) + EntriesProblems(entries, at, i)
        {
          var found := ActionProblems(entries[i].value, at + [Key("actions"), Key(entries[i].key)]);
          errors := errors + found;
          Pushed(old(errors), EntriesProblems(entries, at, i), found);
        }
      }
    }

    method ValidateLists(node: Value, at: Place)
      modifies this
      ensures errors == old(errors) + ListProblems(node, at, |LIST_KEYS|)
    {
      for k := 0 to |LIST_KEYS|
        invariant errors == old(errors) + ListProblems(node, at, k)
      {
        var items := ListAt(node, LIST_KEYS[k]);
        ValidateTaps(items, at + [Key(LIST_KEYS[k])]);
        Pushed(old(errors), ListProblems(node, at, k), TapProblems(items, at + [Key(LIST_KEYS[k])], |items|));
      }
    }

    method ValidateTaps(items: seq<Value>, at: Place)
      modifies this
      ensures errors == old(errors) + TapProblems(items, at, |items|)
    {
      for i := 0 to |items|
        invariant errors == old(errors) + TapProblems(items, at, i)
      {
        if PresentScalar(items[i], "tapAction") {
          errors := errors + [TapActionNotAnObject(at + [Index(i), Key("tapAction")])];
        }
        Pushed(old(errors), TapProblems(items, at, i), TapProblem(items[i], at + [Index(i), Key("tapAction")]));
      }
    }

    method ValidateScreenNode(node: Value, at: Place, depth: nat)
      modifies this
      ensures errors == old(errors) + NodeProblems(node, at, depth)
      decreases node, 1
    {
      if depth > MAX_DEPTH {
        errors := errors + [TooDeep(at)];
        return;
      }
      if !IsStructure(node) {
        return;
      }
      ghost var events := EventProblems(node, at);
      ghost var children := ChildrenProblems(node, ChildList(node), at + [Key("children")], depth, |ChildList(node)|);
      ghost var layout :=
        ChildrenProblems(node, LayoutList(node), at + [Key("layout"), Key("children")], depth, |LayoutList(node)|);
      ghost var lists := ListProblems(node, at, |LIST_KEYS|);
      ValidateEvents(node, at);
      ValidateChildren(node, ChildList(node), at + [Key("children")], depth);
      ValidateChildren(node, LayoutList(node), at + [Key("layout"), Key("children")], depth);
      ValidateLists(node, at);
      Pushed(old(errors), events, children);
      Pushed(old(errors), events + children, layout);
      Pushed(old(errors), events + children + layout, lists);
    }

    method ValidateChildren(node: Value, items: seq<Value>, at: Place, depth: nat)
      requires forall i :: 0 <= i < |items| ==> items[i] < node
      modifies this
      ensures errors == old(errors) + ChildrenProblems(node, items, at, depth, |items|)
      decreases node, 0
    {
      for i := 0 to |items|
        invariant errors == old(errors) + ChildrenProblems(node, items, at, depth, i)
      {
        ValidateScreenNode(items[i], at + [Index(i)], depth + 1);
        Pushed(
          old(errors), ChildrenProblems(node, items, at, depth, i), NodeProblems(items[i], at + [Index(i)], depth + 1));
      }
    }

    method ValidateObjectScreen(screen: Value, fallback: Option<Value>, at: Place)
      modifies this
      ensures errors == old(errors) + ObjectScreenProblems(screen, fallback, at)
    {
      ghost var missing := MissingId(screen, fallback, at);
      if !HasId(screen, fallback) {
        errors := errors + [ScreenWithoutId(at)];
      }
      assert errors == old(errors) + missing;
      ValidateScreenNode(screen, at, 0);
      Pushed(old(errors), missing, NodeProblems(screen, at, 0));
    }

    method ValidateMapScreen(key: string, screen: Value)
      modifies this
      ensures errors == old(errors) + MapScreenProblems(key, screen)
    {
      var at := [Key("screens"), Key(key)];
      if screen.Null? {
        errors := errors + [ScreenNull(at)];
      } else if screen.Str? {
      } else if !IsStructure(screen) {
        errors := errors + [ScreenNotAnObject(at)];
      } else {
        ValidateObjectScreen(screen, Some(Str(key)), at);
      }
    }

    method Validate(manifest: Value) returns (valid: bool)
      requires errors == []
      modifies this
      ensures errors == Problems(manifest)
      ensures valid <==> errors == []
    {
      if !manifest.Obj? {
        errors := [NotAnObject];
        return false;
      }
      if !VersionSupported(manifest) {
        errors := errors + [UnsupportedVersion];
      }
      assert errors == When(!VersionSupported(manifest), UnsupportedVersion);
      ValidateScreens(manifest);
      ghost var screens := errors;
      if PresentScalar(manifest, "splash") {
        errors := errors + [SplashNotAnObject];
      }
      assert errors == screens + When(PresentScalar(manifest, "splash"), SplashNotAnObject);
      if PresentScalar(manifest, "identity") {
        errors := errors + [IdentityNotAnObject];
      }
      valid := errors == [];
    }

    method ValidateScreens(manifest: Value)
      modifies this
      ensures errors == old(errors) + ScreensProblems(manifest)
    {
      match Get(manifest, "screens")
      case None => errors := errors + [ScreensRequired];
      case Some(Null) => errors := errors + [ScreensRequired];
      case Some(Str(_)) => errors := errors + [ScreensIsText];
      case Some(Arr(items)) => ValidateArray(items);
      case Some(Obj(fields)) => ValidateMap(fields);
      case Some(_) => errors := errors + [ScreensNotAMap];
    }

    method ValidateArray(items: seq<Value>)
      modifies this
      ensures errors == old(errors) + ListProblemsOf(items)
    {
      if items == [] {
        errors := errors + [ScreensEmpty];
      }
      for i := 0 to |items|
        invariant errors == old(errors) + EmptyProblem(items) + ArrayProblems(items, i)
      {
        errors := errors + ListScreenProblems(i, items[i]);
        Pushed(old(errors) + EmptyProblem(items), ArrayProblems(items, i), ListScreenProblems(i, items[i]));
      }
      Pushed(old(errors), EmptyProblem(items), ArrayProblems(items, |items|));
    }

    method ValidateMap(fields: seq<Field>)
      modifies this
      ensures errors == old(errors) + MapProblemsOf(fields)
    {
      if fields == [] {
        errors := errors + [ScreensEmpty];
      }
      for i := 0 to |fields|
        invariant errors == old(errors) + EmptyProblem(fields) + Joined(MapReports(fields), i)
      {
        ValidateMapScreen(fields[i].key, fields[i].value);
        Pushed(old(errors) + EmptyProblem(fields), Joined(MapReports(fields), i), MapReports(fields)[i]);
      }
      Pushed(old(errors), EmptyProblem(fields), Joined(MapReports(fields), |fields|));
    }
  }
}
