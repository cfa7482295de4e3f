/**
 * The runtime compatibility gate: two recursive walks over an unbounded JSON
 * screen, one for renderable nodes and nesting, one for action definitions.
 */
module Compatibility {
  import opened Options
  import opened Json

  const MAX_SCREENS: nat := 200
  const MAX_NESTING_DEPTH: nat := 25
  const MAX_COMPONENTS: nat := 2000
  const MAX_WALK_DEPTH: nat := 40

  /** Keys whose subtrees hold props or configuration rather than renderable nodes. */
  const NON_NODE_KEYS: set<string> := {
    "actions", "tapAction", "props", "style", "fills", "strokes", "effects", "state", "config", "payload",
    "theme", "metadata", "identity", "meta", "branding", "runtime", "localization", "permissions", "assets",
    "capabilities"
  }

  /** The published contract: the catalogs of the shell and the keys its node walk skips. */
  datatype Contract = Contract(components: set<string>, actions: set<string>, skipped: set<string>)

  datatype Error =
    | NotAnObject
    | UnsupportedSchema
    | TooManyScreens(screens: nat)
    | UnsupportedComponent(component: string)
    | NestedTooDeep(depth: nat)
    | TooManyComponents(components: nat)

  // ---------------------------------------------------------------- shapes

  /** Any of these keys makes an object with a `payload` a node all the same. */
  const NODE_KEYS: set<string> := {"props", "children", "layout", "key", "config", "blocks"}

  /** None of these keys may be present on an action definition. */
  const NOT_ON_ACTIONS: set<string> := {"props", "children", "layout", "key"}

  predicate HasAny(j: Value, keys: set<string>) {
    exists key :: key in keys && Present(j, key)
  }

  /** A renderable node: a string `type`, and not an action definition. */
  predicate IsNodeShape(j: Value) {
    HasString(j, "type") && !(Present(j, "payload") && !HasAny(j, NODE_KEYS))
  }

  predicate IsActionShape(j: Value) {
    HasString(j, "type") && Present(j, "payload") && !HasAny(j, NOT_ON_ACTIONS)
  }

  const ACTION_KEYS: set<string> := {"tapAction", "actions"}

  function TypeOf(j: Value): string
    requires HasString(j, "type")
  {
    Get(j, "type").value.s
  }

  // ---------------------------------------------------------------- positions

  /** A position in a JSON value: child numbers from the root down. */
  type Path = seq<nat>

  function Arity(j: Value): nat {
    match j
    case Arr(items) => |items|
    case Obj(fields) => |fields|
    case _ => 0
  }

  function Child(j: Value, i: nat): (child: Value)
    requires i < Arity(j)
    ensures child < j
  {
    match j
    case Arr(items) => items[i]
    case Obj(fields) => fields[i].value
  }

  /** Child number i is reached without crossing a key of `closed`. */
  predicate Open(j: Value, i: nat, closed: set<string>)
    requires i < Arity(j)
  {
    j.Obj? ==> j.fields[i].key !in closed
  }

  /** The position exists. */
  predicate Exists(j: Value, p: Path) {
    p == [] || (p[0] < Arity(j) && Exists(Child(j, p[0]), p[1..]))
  }

  function At(j: Value, p: Path): Value
    requires Exists(j, p)
  {
    if p == [] then j else At(Child(j, p[0]), p[1..])
  }

  /** The position exists and no object key on the way to it is in `closed`. */
  predicate Reachable(j: Value, p: Path, closed: set<string>) {
    p == [] || (p[0] < Arity(j) && Open(j, p[0], closed) && Reachable(Child(j, p[0]), p[1..], closed))
  }

  lemma {:induction false} ReachableExists(j: Value, p: Path, closed: set<string>)
    requires Reachable(j, p, closed)
    ensures Exists(j, p)
  {
    if p != [] {
      ReachableExists(Child(j, p[0]), p[1..], closed);
    }
  }

  /** An object or array that the node walk visits. */
  ghost predicate Visited(c: Contract, j: Value, p: Path) {
    Reachable(j, p, c.skipped) && Exists(j, p) && IsStructure(At(j, p))
  }

  // ---------------------------------------------------------------- what the walks compute

  function Count(b: bool): nat { if b then 1 else 0 }

  function NodeCount(c: Contract, j: Value): nat
    decreases j, Arity(j) + 1
  {
    if !IsStructure(j) then 0 else Count(IsNodeShape(j)) + NodeCountBelow(c, j, Arity(j))
  }

  /** Nodes below the first n children. */
  function NodeCountBelow(c: Contract, j: Value, n: nat): nat
    requires n <= Arity(j)
    decreases j, n
  {
    if n == 0 then 0
    else NodeCountBelow(c, j, n - 1) + if Open(j, n - 1, c.skipped) then NodeCount(c, Child(j, n - 1)) else 0
  }

  function DepthErrors(depth: nat): set<Error> {
    if depth > MAX_NESTING_DEPTH then {NestedTooDeep(depth)} else {}
  }

  function NodeErrors(c: Contract, j: Value): set<Error> {
    if IsNodeShape(j) && TypeOf(j) !in c.components then {UnsupportedComponent(TypeOf(j))} else {}
  }

  function WalkErrors(c: Contract, j: Value, depth: nat): set<Error>
    decreases j, Arity(j) + 1
  {
    if !IsStructure(j) then {}
    else
      DepthErrors(depth) + NodeErrors(c, j) + WalkErrorsBelow(c, j, depth, Arity(j))
  }

  function WalkErrorsBelow(c: Contract, j: Value, depth: nat, n: nat): set<Error>
    requires n <= Arity(j)
    decreases j, n
  {
    if n == 0 then {}
    else WalkErrorsBelow(c, j, depth, n - 1)
         + if Open(j, n - 1, c.skipped) then WalkErrors(c, Child(j, n - 1), depth + 1) else {}
  }

  /** Action types declared on this node: itself, its `tapAction`, the entries of its `actions`. */
  function ActionTypesIn(j: Value): seq<string> {
    (if IsActionShape(j) then [TypeOf(j)] else [])
    + (match Get(j, "tapAction") case Some(tap) => TypeIfAny(tap) case None => [])
    + (match Get(j, "actions") case Some(actions) => EntryTypes(actions, Arity(actions)) case None => [])
  }

  function TypeIfAny(j: Value): seq<string> {
    if HasString(j, "type") then [TypeOf(j)] else []
  }

  /** Types of the first n entries of an `actions` array or map. */
  function EntryTypes(actions: Value, n: nat): seq<string>
    requires n <= Arity(actions)
  {
    if n == 0 then [] else EntryTypes(actions, n - 1) + TypeIfAny(Child(actions, n - 1))
  }

  /** How many action definitions the full walk counts, from a position that no action key leads to. */
  function ActionCount(j: Value, depth: nat): nat
    decreases j, Arity(j) + 1
  {
    if !IsStructure(j) || depth > MAX_WALK_DEPTH then 0
    else (if j.Obj? then |ActionTypesIn(j)| else 0) + ActionCountBelow(j, depth, Arity(j))
  }

  function ActionCountBelow(j: Value, depth: nat, n: nat): nat
    requires n <= Arity(j)
    decreases j, n
  {
    if n == 0 then 0
    else ActionCountBelow(j, depth, n - 1)
         + if Open(j, n - 1, ACTION_KEYS) then ActionCount(Child(j, n - 1), depth + 1) else 0
  }

  /** The action types it warns about. */
  function ActionWarnings(c: Contract, j: Value, depth: nat): set<string>
    decreases j, Arity(j) + 1
  {
    if !IsStructure(j) || depth > MAX_WALK_DEPTH then {}
    else (if j.Obj? then Unsupported(c, ActionTypesIn(j)) else {}) + ActionWarningsBelow(c, j, depth, Arity(j))
  }

  function ActionWarningsBelow(c: Contract, j: Value, depth: nat, n: nat): set<string>
    requires n <= Arity(j)
    decreases j, n
  {
    if n == 0 then {}
    else ActionWarningsBelow(c, j, depth, n - 1)
         + if Open(j, n - 1, ACTION_KEYS) then ActionWarnings(c, Child(j, n - 1), depth + 1) else {}
  }

  predicate IsActionKey(key: Option<string>) {
    key.Some? && key.value in ACTION_KEYS
  }

  /** The types of a list that the contract does not publish. */
  function Unsupported(c: Contract, types: seq<string>): set<string> {
    if types == [] then {}
    else Unsupported(c, types[..|types| - 1])
         + if types[|types| - 1] in c.actions then {} else {types[|types| - 1]}
  }

  // ---------------------------------------------------------------- the evaluation itself

  function Screens(manifest: Value): seq<Value> {
    match Get(manifest, "screens")
    case Some(Arr(items)) => items
    case Some(Obj(fields)) => seq(|fields|, i requires 0 <= i < |fields| => fields[i].value)
    case _ => []
  }

  predicate SchemaSupported(manifest: Value) {
    var raw := Coalesce(Get(manifest, "manifestVersion"), Get2(manifest, "metadata", "schemaVersion"));
    raw.None? || raw.value.Null? || PrintsAs(raw.value, "1.0.0") || PrintsAs(raw.value, "1.0")
  }

  /** The schema, limit and component errors of a manifest. */
  function Errors(c: Contract, manifest: Value): set<Error> {
    if !manifest.Obj? then {NotAnObject}
    else
      var screens := Arr(Screens(manifest));
      var count := NodeCountBelow(c, screens, |screens.items|);
      (if SchemaSupported(manifest) then {} else {UnsupportedSchema})
      + (if |screens.items| > MAX_SCREENS then {TooManyScreens(|screens.items|)} else {})
      + ScreenErrors(c, screens.items, |screens.items|)
      + (if count > MAX_COMPONENTS then {TooManyComponents(count)} else {})
  }

  function ScreenErrors(c: Contract, screens: seq<Value>, n: nat): set<Error>
    requires n <= |screens|
  {
    if n == 0 then {} else ScreenErrors(c, screens, n - 1) + WalkErrors(c, screens[n - 1], 0)
  }

  function ScreenActions(screens: seq<Value>, n: nat): nat
    requires n <= |screens|
  {
    if n == 0 then 0 else ScreenActions(screens, n - 1) + ActionCount(screens[n - 1], 0)
  }

  function ScreenWarnings(c: Contract, screens: seq<Value>, n: nat): set<string>
    requires n <= |screens|
  {
    if n == 0 then {} else ScreenWarnings(c, screens, n - 1) + ActionWarnings(c, screens[n - 1], 0)
  }

  /** One run of `evaluate`: the counters and error sets that both walks update as they go. */
  class Evaluation {
    const contract: Contract
    var components: nat
    var actions: nat
    var errors: set<Error>
    var warnings: set<string>

    constructor (contract: Contract)
      ensures this.contract == contract
      ensures components == 0 && actions == 0 && errors == {} && warnings == {}
    {
      this.contract := contract;
      components, actions, errors, warnings := 0, 0, {}, {};
    }

    method OnDepth(depth: nat)
      modifies `errors
      ensures errors == old(errors) + DepthErrors(depth)
    {
      if depth > MAX_NESTING_DEPTH {
        errors := errors + {NestedTooDeep(depth)};
      }
    }

    method OnNode(node: Value)
      requires IsNodeShape(node)
      modifies `components, `errors
      ensures components == old(components) + 1
      ensures errors == old(errors) + NodeErrors(contract, node)
    {
      components := components + 1;
      if TypeOf(node) !in contract.components {
        errors := errors + {UnsupportedComponent(TypeOf(node))};
      }
    }

    method WalkNodes(node: Value, depth: nat)
      modifies `components, `errors
      ensures components == old(components) + NodeCount(contract, node)
      ensures errors == old(errors) + WalkErrors(contract, node, depth)
      decreases node
    {
      if !IsStructure(node) {
        return;
      }
      OnDepth(depth);
      if node.Arr? {
        for i := 0 to |node.items|
          invariant components == old(components) + NodeCountBelow(contract, node, i)
          invariant errors == old(errors) + DepthErrors(depth) + WalkErrorsBelow(contract, node, depth, i)
        {
          WalkNodes(Child(node, i), depth + 1);
        }
        return;
      }
      if IsNodeShape(node) {
        OnNode(node);
      }
      ghost var here := errors;
      for i := 0 to |node.fields|
        invariant components == old(components) + Count(IsNodeShape(node)) + NodeCountBelow(contract, node, i)
        invariant errors == here + WalkErrorsBelow(contract, node, depth, i)
      {
        if node.fields[i].key !in contract.skipped {
          WalkNodes(Child(node, i), depth + 1);
        }
      }
    }

    /** Visits every object outside nested actions; `key` is the last object key crossed. */
    method WalkAll(node: Value, depth: nat, key: Option<string>, insideActions: bool)
      modifies `actions, `warnings
      ensures var blocked := insideActions || IsActionKey(key);
              actions == old(actions) + (if blocked then 0 else ActionCount(node, depth))
              && warnings == old(warnings) + (if blocked then {} else ActionWarnings(contract, node, depth))
      decreases node, 1
    {
      if !IsStructure(node) || depth > MAX_WALK_DEPTH {
        return;
      }
      var nested := insideActions || IsActionKey(key);
      if node.Arr? {
        WalkItems(node, depth, key, insideActions, nested);
        return;
      }
      if !nested {
        Visit(node);
      }
      WalkFields(node, depth, nested);
    }

    method WalkItems(node: Value, depth: nat, key: Option<string>, insideActions: bool, ghost blocked: bool)
      requires node.Arr? && blocked == (insideActions || IsActionKey(key))
      modifies `actions, `warnings
      ensures actions == old(actions) + (if blocked then 0 else ActionCountBelow(node, depth, Arity(node)))
      ensures warnings == old(warnings)
                          + (if blocked then {} else ActionWarningsBelow(contract, node, depth, Arity(node)))
      decreases node, 0
    {
      for i := 0 to |node.items|
        invariant actions == old(actions) + (if blocked then 0 else ActionCountBelow(node, depth, i))
        invariant warnings == old(warnings) + (if blocked then {} else ActionWarningsBelow(contract, node, depth, i))
      {
        WalkAll(Child(node, i), depth + 1, key, insideActions);
      }
    }

    method WalkFields(node: Value, depth: nat, nested: bool)
      requires node.Obj?
      modifies `actions, `warnings
      ensures actions == old(actions) + (if nested then 0 else ActionCountBelow(node, depth, Arity(node)))
      ensures warnings == old(warnings)
                          + (if nested then {} else ActionWarningsBelow(contract, node, depth, Arity(node)))
      decreases node, 0
    {
      for i := 0 to |node.fields|
        invariant actions == old(actions) + (if nested then 0 else ActionCountBelow(node, depth, i))
        invariant warnings == old(warnings) + (if nested then {} else ActionWarningsBelow(contract, node, depth, i))
      {
        WalkAll(Child(node, i), depth + 1, Some(node.fields[i].key), nested);
      }
    }

    method Visit(node: Value)
      modifies `actions, `warnings
      ensures actions == old(actions) + |ActionTypesIn(node)|
      ensures warnings == old(warnings) + Unsupported(contract, ActionTypesIn(node))
    {
      Report(ActionTypesIn(node));
    }

    method Report(types: seq<string>)
      modifies `actions, `warnings
      ensures actions == old(actions) + |types|
      ensures warnings == old(warnings) + Unsupported(contract, types)
    {
      for i := 0 to |types|
        invariant actions == old(actions) + i
        invariant warnings == old(warnings) + Unsupported(contract, types[..i])
      {
        assert types[..i + 1] == types[..i] + [types[i]];
        assert types[..i + 1][..i] == types[..i];
        actions := actions + 1;
        if types[i] !in contract.actions {
          warnings := warnings + {types[i]};
        }
      }
      assert types[..|types|] == types;
    }

    method WalkScreens(screens: seq<Value>)
      requires components == 0 && actions == 0 && warnings == {}
      modifies this
      ensures components == NodeCountBelow(contract, Arr(screens), |screens|)
      ensures errors == old(errors) + ScreenErrors(contract, screens, |screens|)
      ensures actions == ScreenActions(screens, |screens|)
      ensures warnings == ScreenWarnings(contract, screens, |screens|)
    {
      for i := 0 to |screens|
        invariant components == NodeCountBelow(contract, Arr(screens), i)
        invariant errors == old(errors) + ScreenErrors(contract, screens, i)
        invariant actions == ScreenActions(screens, i)
        invariant warnings == ScreenWarnings(contract, screens, i)
      {
        assert Child(Arr(screens), i) == screens[i];
        WalkNodes(screens[i], 0);
        WalkAll(screens[i], 0, None, false);
      }
    }

    /** The part of `evaluate` up to the component limit. */
    method Evaluate(manifest: Value) returns (compatible: bool)
      requires components == 0 && actions == 0 && errors == {} && warnings == {}
      modifies this
      ensures errors == Errors(contract, manifest)
      ensures compatible <==> errors == {}
      ensures var screens := if manifest.Obj? then Screens(manifest) else [];
              components == NodeCountBelow(contract, Arr(screens), |screens|)
              && actions == ScreenActions(screens, |screens|)
              && warnings == ScreenWarnings(contract, screens, |screens|)
    {
      if !manifest.Obj? {
        errors := {NotAnObject};
        return false;
      }
      if !SchemaSupported(manifest) {
        errors := errors + {UnsupportedSchema};
      }
      var screens := Screens(manifest);
      if |screens| > MAX_SCREENS {
        errors := errors + {TooManyScreens(|screens|)};
      }
      WalkScreens(screens);
      if components > MAX_COMPONENTS {
        errors := errors + {TooManyComponents(components)};
      }
      compatible := errors == {};
    }
  }
}
