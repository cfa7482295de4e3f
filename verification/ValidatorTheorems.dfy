/** What the structural validator reports, problem by problem, over the positions of a manifest. */
module ValidatorTheorems {
  import opened Options
  import opened Json
  import opened ManifestValidator

  // ---------------------------------------------------------------- values

  /** A value is there, and is a boolean, a number or a text. */
  predicate Scalar(v: Option<Value>) {
    v.Some? && (v.value.Bool? || v.value.Num? || v.value.Str?)
  }

  predicate Missing(v: Option<Value>) {
    v.None? || v.value.Null?
  }

  /** Among these values, in order, the first one that is there and not null is truthy. */
  predicate FirstIsTruthy(values: seq<Option<Value>>) {
    values != [] && if Missing(values[0]) then FirstIsTruthy(values[1..]) else Truthy(values[0].value)
  }

  function ListOf(v: Option<Value>): seq<Value> {
    match v
    case Some(Arr(items)) => items
    case _ => []
  }

  // ---------------------------------------------------------------- positions

  /** One step down from a node: into its children, or into those of its layout. */
  datatype Down = Below(index: nat) | BelowLayout(index: nat)

  function Branch(node: Value, step: Down): seq<Value> {
    match step
    case Below(_) => ListOf(Get(node, "children"))
    case BelowLayout(_) => ListOf(Get2(node, "layout", "children"))
  }

  /** The value at the end of some steps. */
  function Follow(node: Value, path: seq<Down>): Option<Value>
    decreases |path|
  {
    if path == [] then Some(node)
    else
      var siblings := Branch(node, path[0]);
      if path[0].index < |siblings| then Follow(siblings[path[0].index], path[1..]) else None
  }

  function StepPlace(step: Down): Place {
    match step
    case Below(i) => [Key("children"), Index(i)]
    case BelowLayout(i) => [Key("layout"), Key("children"), Index(i)]
  }

  function PlaceOf(at: Place, path: seq<Down>): Place
    decreases |path|
  {
    if path == [] then at else PlaceOf(at + StepPlace(path[0]), path[1..])
  }

  // ---------------------------------------------------------------- what a node is to be told

  /** The action names a screen to go to: its payload's first destination is truthy. */
  predicate HasDestination(action: Value) {
    FirstIsTruthy([Get2(action, "payload", "screenId"), Get2(action, "payload", "screen"),
                   Get2(action, "payload", "push"), Get2(action, "payload", "path"),
                   Get2(action, "payload", "route"), Get2(action, "payload", "target")])
  }

  predicate IsNavigation(action: Value) {
    Get(action, "type") == Some(Str("navigate"))
  }

  /** The items that a node lists under a key, or else its props do. */
  function Listed(node: Value, key: string): seq<Value> {
    if Missing(Get(node, key)) then ListOf(Get2(node, "props", key)) else ListOf(Get(node, key))
  }

  /** The entry of the node's actions that a problem is about. */
  ghost predicate EntryTold(node: Value, at: Place, q: Problem, i: nat) {
    var actions := Get(node, "actions");
    && actions.Some? && IsStructure(actions.value) && i < |Entries(actions.value)|
    && var entry := Entries(actions.value)[i];
       var place := at + [Key("actions"), Key(entry.key)];
    || (q == ActionNotAnObject(place) && Scalar(Some(entry.value)))
    || (q == NavigateWithoutScreen(place) && IsNavigation(entry.value) && !HasDestination(entry.value))
  }

  predicate TapTold(item: Value, at: Place, q: Problem, i: nat) {
    Scalar(Get(item, "tapAction")) && q == TapActionNotAnObject(at + [Index(i), Key("tapAction")])
  }

  ghost predicate ItemTold(node: Value, at: Place, q: Problem, key: string, i: nat) {
    && key in {"cats", "categories", "items", "offers", "orders", "rows"} && i < |Listed(node, key)|
    && TapTold(Listed(node, key)[i], at + [Key(key)], q, i)
  }

  ghost predicate KeyTold(node: Value, at: Place, q: Problem, key: string) {
    exists i: nat :: ItemTold(node, at, q, key, i)
  }

  /** The problem is one of the node itself. */
  ghost predicate NodeTold(node: Value, at: Place, q: Problem) {
    || (q == TapActionNotAnObject(at + [Key("tapAction")]) && Scalar(Get(node, "tapAction")))
    || (q == ActionsNotAnObject(at + [Key("actions")]) && Scalar(Get(node, "actions")))
    || (exists i: nat :: EntryTold(node, at, q, i))
    || (exists key :: KeyTold(node, at, q, key))
  }

  /** The problem is one of the value that these steps lead to, or that value is 26 steps down. */
  ghost predicate ToldAt(node: Value, at: Place, depth: nat, path: seq<Down>, q: Problem) {
    && Follow(node, path).Some?
    && var value := Follow(node, path).value;
       if depth + |path| > 25 then depth + |path| == 26 && q == TooDeep(PlaceOf(at, path))
       else IsStructure(value) && NodeTold(value, PlaceOf(at, path), q)
  }

  // ---------------------------------------------------------------- one node

  function Destinations(payload: Value): seq<Option<Value>> {
    seq(|DESTINATION_KEYS|, i requires 0 <= i < |DESTINATION_KEYS| => Get(payload, DESTINATION_KEYS[i]))
  }

  lemma {:induction false} DestinationFrom(payload: Value, k: nat)
    requires k < |DESTINATION_KEYS|
    ensures var dest := Destination(payload, k);
            (dest.Some? && Truthy(dest.value)) <==> FirstIsTruthy(Destinations(payload)[k..])
    decreases |DESTINATION_KEYS| - k
  {
    var values := Destinations(payload);
    assert values[k..][0] == Get(payload, DESTINATION_KEYS[k]) && values[k..][1..] == values[k + 1..];
    if k + 1 < |DESTINATION_KEYS| {
      DestinationFrom(payload, k + 1);
    }
  }

  /** An action of an object shape is reported exactly when it navigates without a destination. */
  lemma ActionTold(action: Value, at: Place, q: Problem)
    ensures q in ActionProblems(action, at) <==>
            || (q == ActionNotAnObject(at) && Scalar(Some(action)))
            || (q == NavigateWithoutScreen(at) && IsNavigation(action) && !HasDestination(action))
  {
    DestinationExactly(action);
  }

  lemma DestinationExactly(action: Value)
    ensures var payload := match Get(action, "payload") case Some(p) => p case None => Null;
            var dest := Destination(payload, 0);
            HasDestination(action) <==> dest.Some? && Truthy(dest.value)
  {
    var payload := match Get(action, "payload") case Some(p) => p case None => Null;
    DestinationFrom(payload, 0);
    assert Destinations(payload)[0..] == [
        Get2(action, "payload", "screenId"), Get2(action, "payload", "screen"), Get2(action, "payload", "push"),
        Get2(action, "payload", "path"), Get2(action, "payload", "route"), Get2(action, "payload", "target")];
  }

  lemma {:induction false} EntriesTold(entries: seq<Field>, at: Place, n: nat, q: Problem)
    requires n <= |entries|
    ensures q in EntriesProblems(entries, at, n) <==>
            exists i :: 0 <= i < n && q in ActionProblems(entries[i].value, at + [Key("actions"), Key(entries[i].key)])
  {
    if n > 0 {
      EntriesTold(entries, at, n - 1, q);
    }
  }

  lemma {:induction false} TapsTold(items: seq<Value>, at: Place, n: nat, q: Problem)
    requires n <= |items|
    ensures q in TapProblems(items, at, n) <==>
            exists i: nat :: i < n && TapTold(items[i], at, q, i)
  {
    if n > 0 {
      TapsTold(items, at, n - 1, q);
    }
  }

  lemma KeyIsTold(node: Value, at: Place, key: string, q: Problem)
    requires key in {"cats", "categories", "items", "offers", "orders", "rows"}
    ensures var items := ListAt(node, key);
            q in TapProblems(items, at + [Key(key)], |items|) <==> KeyTold(node, at, q, key)
  {
    var items := ListAt(node, key);
    assert items == Listed(node, key);
    TapsTold(items, at + [Key(key)], |items|, q);
    forall i: nat | i < |items|
      ensures TapTold(items[i], at + [Key(key)], q, i) <==> ItemTold(node, at, q, key, i)
    {
    }
    if i: nat :| i < |items| && TapTold(items[i], at + [Key(key)], q, i) {
      assert ItemTold(node, at, q, key, i);
    }
  }

  lemma {:induction false} ListsTold(node: Value, at: Place, n: nat, q: Problem)
    requires n <= |LIST_KEYS|
    ensures q in ListProblems(node, at, n) <==> exists k :: 0 <= k < n && KeyTold(node, at, q, LIST_KEYS[k])
  {
    if n > 0 {
      ListsTold(node, at, n - 1, q);
      KeyIsTold(node, at, LIST_KEYS[n - 1], q);
    }
  }

  lemma ListsToldByKey(node: Value, at: Place, q: Problem)
    ensures q in ListProblems(node, at, |LIST_KEYS|) <==> exists key :: KeyTold(node, at, q, key)
  {
    ListsTold(node, at, |LIST_KEYS|, q);
    if key :| KeyTold(node, at, q, key) {
      var i: nat :| ItemTold(node, at, q, key, i);
      var k := KeyNumber(key);
      assert KeyTold(node, at, q, LIST_KEYS[k]);
    }
  }

  lemma KeyNumber(key: string) returns (k: nat)
    requires key in {"cats", "categories", "items", "offers", "orders", "rows"}
    ensures k < |LIST_KEYS| && LIST_KEYS[k] == key
  {
    k := if key == "cats" then 0 else if key == "categories" then 1 else if key == "items" then 2
         else if key == "offers" then 3 else if key == "orders" then 4 else 5;
  }

  lemma EventsTold(node: Value, at: Place, q: Problem)
    ensures q in EventProblems(node, at) <==>
            || (q == TapActionNotAnObject(at + [Key("tapAction")]) && Scalar(Get(node, "tapAction")))
            || (q == ActionsNotAnObject(at + [Key("actions")]) && Scalar(Get(node, "actions")))
            || (exists i: nat :: EntryTold(node, at, q, i))
  {
    if Present(node, "actions") && IsStructure(Get(node, "actions").value) {
      var entries := Entries(Get(node, "actions").value);
      EntriesTold(entries, at, |entries|, q);
      forall i: nat | i < |entries|
        ensures EntryTold(node, at, q, i) <==>
                q in ActionProblems(entries[i].value, at + [Key("actions"), Key(entries[i].key)])
      {
        ActionTold(entries[i].value, at + [Key("actions"), Key(entries[i].key)], q);
      }
    }
  }

  // ---------------------------------------------------------------- a node and what is below it

  /** The problem is in the list. */
  ghost predicate Lists(problems: seq<Problem>, q: Problem) {
    exists i :: 0 <= i < |problems| && problems[i] == q
  }

  lemma ListsIn(problems: seq<Problem>, q: Problem)
    ensures Lists(problems, q) <==> q in problems
  {
  }

  lemma ListsInConcat(a: seq<Problem>, b: seq<Problem>, q: Problem)
    ensures Lists(a + b, q) <==> Lists(a, q) || Lists(b, q)
  {
    ListsIn(a, q);
    ListsIn(b, q);
    ListsIn(a + b, q);
  }

  /** The lists of reports that `joined` puts together one after the other are those of `parts`. */
  ghost predicate Joins(joined: nat -> seq<Problem>, parts: nat -> seq<Problem>, n: nat) {
    joined(0) == [] && forall k: nat :: k < n ==> joined(k + 1) == joined(k) + parts(k)
  }

  lemma {:induction false} JoinedFrom(
    joined: nat -> seq<Problem>, parts: nat -> seq<Problem>, n: nat, q: Problem) returns (i: nat)
    requires Joins(joined, parts, n) && Lists(joined(n), q)
    ensures i < n && Lists(parts(i), q)
  {
    ListsInConcat(joined(n - 1), parts(n - 1), q);
    i := n - 1;
    if Lists(joined(n - 1), q) {
      i := JoinedFrom(joined, parts, n - 1, q);
    }
  }

  lemma {:induction false} JoinedInto(
    joined: nat -> seq<Problem>, parts: nat -> seq<Problem>, n: nat, i: nat, q: Problem)
    requires Joins(joined, parts, n) && i < n && Lists(parts(i), q)
    ensures Lists(joined(n), q)
    decreases n
  {
    ListsInConcat(joined(n - 1), parts(n - 1), q);
    if i < n - 1 {
      JoinedInto(joined, parts, n - 1, i, q);
    }
  }

  ghost function ChildrenUpTo(node: Value, items: seq<Value>, at: Place, depth: nat): nat -> seq<Problem>
    requires forall k :: 0 <= k < |items| ==> items[k] < node
  {
    (k: nat) => if k <= |items| then ChildrenProblems(node, items, at, depth, k) else []
  }

  ghost function ChildReports(items: seq<Value>, at: Place, depth: nat): nat -> seq<Problem> {
    (k: nat) => if k < |items| then NodeProblems(items[k], at + [Index(k)], depth + 1) else []
  }

  lemma ChildrenStep(node: Value, items: seq<Value>, at: Place, depth: nat, k: nat)
    requires k < |items| && forall i :: 0 <= i < |items| ==> items[i] < node
    ensures ChildrenProblems(node, items, at, depth, k + 1)
         == ChildrenProblems(node, items, at, depth, k) + NodeProblems(items[k], at + [Index(k)], depth + 1)
  {
  }

  lemma ChildrenJoin(node: Value, items: seq<Value>, at: Place, depth: nat)
    requires forall k :: 0 <= k < |items| ==> items[k] < node
    ensures Joins(ChildrenUpTo(node, items, at, depth), ChildReports(items, at, depth), |items|)
  {
    forall k: nat | k < |items|
      ensures ChildrenUpTo(node, items, at, depth)(k + 1)
           == ChildrenUpTo(node, items, at, depth)(k) + ChildReports(items, at, depth)(k)
    {
      ChildrenJoinAt(node, items, at, depth, k);
    }
  }

  lemma ChildrenJoinAt(node: Value, items: seq<Value>, at: Place, depth: nat, k: nat)
    requires k < |items| && forall i :: 0 <= i < |items| ==> items[i] < node
    ensures ChildrenUpTo(node, items, at, depth)(k + 1)
         == ChildrenUpTo(node, items, at, depth)(k) + ChildReports(items, at, depth)(k)
  {
    ChildrenStep(node, items, at, depth, k);
  }

  lemma ChildrenTold(
    node: Value, items: seq<Value>, at: Place, depth: nat, q: Problem) returns (i: nat)
    requires forall k :: 0 <= k < |items| ==> items[k] < node
    requires Lists(ChildrenProblems(node, items, at, depth, |items|), q)
    ensures i < |items| && Lists(NodeProblems(items[i], at + [Index(i)], depth + 1), q)
  {
    ChildrenJoin(node, items, at, depth);
    i := JoinedFrom(ChildrenUpTo(node, items, at, depth), ChildReports(items, at, depth), |items|, q);
  }

  lemma ChildrenTell(node: Value, items: seq<Value>, at: Place, depth: nat, i: nat, q: Problem)
    requires i < |items| && forall k :: 0 <= k < |items| ==> items[k] < node
    requires Lists(NodeProblems(items[i], at + [Index(i)], depth + 1), q)
    ensures Lists(ChildrenProblems(node, items, at, depth, |items|), q)
  {
    ChildrenJoin(node, items, at, depth);
    JoinedInto(ChildrenUpTo(node, items, at, depth), ChildReports(items, at, depth), |items|, i, q);
  }

  lemma BranchesAre(node: Value)
    ensures ChildList(node) == Branch(node, Below(0)) && LayoutList(node) == Branch(node, BelowLayout(0))
  {
  }

  /** A problem of a child is a problem of its parent, one step further down. */
  lemma ToldBelow(node: Value, at: Place, depth: nat, step: Down, path: seq<Down>, q: Problem)
    requires step.index < |Branch(node, step)| && depth <= 25
    ensures ToldAt(node, at, depth, [step] + path, q)
       <==> ToldAt(Branch(node, step)[step.index], at + StepPlace(step), depth + 1, path, q)
  {
    assert ([step] + path)[1..] == path;
  }

  lemma NodeSplits(node: Value, at: Place, depth: nat, q: Problem)
    requires depth <= 25 && IsStructure(node)
    ensures Lists(NodeProblems(node, at, depth), q) <==>
            || NodeTold(node, at, q)
            || Lists(ChildrenProblems(node, ChildList(node), at + [Key("children")], depth, |ChildList(node)|), q)
            || Lists(ChildrenProblems(node, LayoutList(node), at + [Key("layout"), Key("children")], depth,
                                      |LayoutList(node)|), q)
  {
    var events := EventProblems(node, at);
    var first := ChildrenProblems(node, ChildList(node), at + [Key("children")], depth, |ChildList(node)|);
    var second :=
      ChildrenProblems(node, LayoutList(node), at + [Key("layout"), Key("children")], depth, |LayoutList(node)|);
    var lists := ListProblems(node, at, |LIST_KEYS|);
    ListsInConcat(events + first + second, lists, q);
    ListsInConcat(events + first, second, q);
    ListsInConcat(events, first, q);
    ListsIn(events, q);
    ListsIn(lists, q);
    EventsTold(node, at, q);
    ListsToldByKey(node, at, q);
  }

  lemma FromChildren(node: Value, at: Place, depth: nat, q: Problem) returns (step: Down)
    requires Lists(ChildrenProblems(node, ChildList(node), at + [Key("children")], depth, |ChildList(node)|), q)
    ensures step.index < |Branch(node, step)| && Branch(node, step)[step.index] < node
    ensures Lists(NodeProblems(Branch(node, step)[step.index], at + StepPlace(step), depth + 1), q)
  {
    var i := ChildrenTold(node, ChildList(node), at + [Key("children")], depth, q);
    step := Below(i);
    BranchesAre(node);
    assert at + [Key("children")] + [Index(i)] == at + StepPlace(step);
  }

  lemma FromLayout(node: Value, at: Place, depth: nat, q: Problem) returns (step: Down)
    requires Lists(ChildrenProblems(node, LayoutList(node), at + [Key("layout"), Key("children")], depth,
                                    |LayoutList(node)|), q)
    ensures step.index < |Branch(node, step)| && Branch(node, step)[step.index] < node
    ensures Lists(NodeProblems(Branch(node, step)[step.index], at + StepPlace(step), depth + 1), q)
  {
    var i := ChildrenTold(node, LayoutList(node), at + [Key("layout"), Key("children")], depth, q);
    step := BelowLayout(i);
    BranchesAre(node);
    assert at + [Key("layout"), Key("children")] + [Index(i)] == at + StepPlace(step);
  }

  /** A problem that is not the node's own is one of a child, or of a child of its layout. */
  lemma WhereTold(node: Value, at: Place, depth: nat, q: Problem) returns (step: Down)
    requires depth <= 25 && IsStructure(node) && !NodeTold(node, at, q) && Lists(NodeProblems(node, at, depth), q)
    ensures step.index < |Branch(node, step)| && Branch(node, step)[step.index] < node
    ensures Lists(NodeProblems(Branch(node, step)[step.index], at + StepPlace(step), depth + 1), q)
  {
    NodeSplits(node, at, depth, q);
    if Lists(ChildrenProblems(node, ChildList(node), at + [Key("children")], depth, |ChildList(node)|), q) {
      step := FromChildren(node, at, depth, q);
    } else {
      step := FromLayout(node, at, depth, q);
    }
  }

  lemma ToldHere(node: Value, at: Place, depth: nat, q: Problem)
    ensures ToldAt(node, at, depth, [], q)
       <==> if depth > 25 then depth == 26 && q == TooDeep(at) else IsStructure(node) && NodeTold(node, at, q)
  {
  }

  lemma NothingElse(node: Value, at: Place, depth: nat, q: Problem)
    requires depth == 26 || !IsStructure(node)
    ensures Lists(NodeProblems(node, at, depth), q) <==> depth > 25 && q == TooDeep(at)
  {
    ListsIn(NodeProblems(node, at, depth), q);
  }

  /** A property of nodes that holds of one because it starts there, or because some child has it. */
  ghost predicate Falls(
    holds: (Value, Place, nat) -> bool, starts: (Value, Place, nat) -> bool, node: Value, at: Place, depth: nat)
  {
    depth <= 26 && holds(node, at, depth) ==>
      starts(node, at, depth) || exists step :: Hands(holds, node, at, depth, step)
  }

  ghost predicate Hands(holds: (Value, Place, nat) -> bool, node: Value, at: Place, depth: nat, step: Down) {
    depth <= 25 && step.index < |Branch(node, step)| && Branch(node, step)[step.index] < node
    && holds(Branch(node, step)[step.index], at + StepPlace(step), depth + 1)
  }

  lemma {:induction false} Descends(
    holds: (Value, Place, nat) -> bool, starts: (Value, Place, nat) -> bool, node: Value, at: Place, depth: nat)
    returns (path: seq<Down>)
    requires forall n, a, d :: Falls(holds, starts, n, a, d)
    requires depth <= 26 && holds(node, at, depth)
    ensures Follow(node, path).Some? && starts(Follow(node, path).value, PlaceOf(at, path), depth + |path|)
    decreases node
  {
    path := [];
    assert Falls(holds, starts, node, at, depth);
    if !starts(node, at, depth) {
      var step :| Hands(holds, node, at, depth, step);
      var rest := Descends(holds, starts, Branch(node, step)[step.index], at + StepPlace(step), depth + 1);
      path := [step] + rest;
      assert path[1..] == rest;
    }
  }

  lemma ReportFalls(
    reported: (Value, Place, nat) -> bool, told: (Value, Place, nat) -> bool,
    node: Value, at: Place, depth: nat, q: Problem)
    requires forall n, a, d :: reported(n, a, d) <==> q in NodeProblems(n, a, d)
    requires forall n, a, d :: told(n, a, d) <==> ToldAt(n, a, d, [], q)
    ensures Falls(reported, told, node, at, depth)
  {
    if depth <= 26 && reported(node, at, depth) && !told(node, at, depth) {
      ListsIn(NodeProblems(node, at, depth), q);
      ToldHere(node, at, depth, q);
      if depth == 26 || !IsStructure(node) {
        NothingElse(node, at, depth, q);
      } else {
        var step := WhereTold(node, at, depth, q);
        ListsIn(NodeProblems(Branch(node, step)[step.index], at + StepPlace(step), depth + 1), q);
        assert Hands(reported, node, at, depth, step);
      }
    }
  }

  /** Whatever is reported of a node is a problem of some value below it, at that value's place. */
  lemma Told(node: Value, at: Place, depth: nat, q: Problem) returns (path: seq<Down>)
    requires depth <= 26 && Lists(NodeProblems(node, at, depth), q)
    ensures ToldAt(node, at, depth, path, q)
  {
    var reported := (n: Value, a: Place, d: nat) => q in NodeProblems(n, a, d);
    ghost var told := (n: Value, a: Place, d: nat) => ToldAt(n, a, d, [], q);
    forall n, a, d ensures Falls(reported, told, n, a, d) {
      ReportFalls(reported, told, n, a, d, q);
    }
    ListsIn(NodeProblems(node, at, depth), q);
    path := Descends(reported, told, node, at, depth);
    ToldHere(Follow(node, path).value, PlaceOf(at, path), depth + |path|, q);
  }

  lemma ChildTells(node: Value, at: Place, depth: nat, i: nat, q: Problem)
    requires depth <= 25 && IsStructure(node) && i < |ChildList(node)|
    requires Lists(NodeProblems(ChildList(node)[i], at + [Key("children")] + [Index(i)], depth + 1), q)
    ensures Lists(NodeProblems(node, at, depth), q)
  {
    ChildrenTell(node, ChildList(node), at + [Key("children")], depth, i, q);
    NodeSplits(node, at, depth, q);
  }

  lemma LayoutTells(node: Value, at: Place, depth: nat, i: nat, q: Problem)
    requires depth <= 25 && IsStructure(node) && i < |LayoutList(node)|
    requires Lists(NodeProblems(LayoutList(node)[i], at + [Key("layout"), Key("children")] + [Index(i)], depth + 1), q)
    ensures Lists(NodeProblems(node, at, depth), q)
  {
    ChildrenTell(node, LayoutList(node), at + [Key("layout"), Key("children")], depth, i, q);
    NodeSplits(node, at, depth, q);
  }

  lemma BelowIsTold(node: Value, at: Place, depth: nat, step: Down, child: Value, place: Place, q: Problem)
    requires depth <= 25 && step.index < |Branch(node, step)| && child == Branch(node, step)[step.index]
    requires place == at + StepPlace(step) && Lists(NodeProblems(child, place, depth + 1), q)
    ensures Lists(NodeProblems(node, at, depth), q)
  {
    BranchesAre(node);
    match step
    case Below(i) =>
      assert at + [Key("children")] + [Index(i)] == place;
      ChildTells(node, at, depth, i, q);
    case BelowLayout(i) =>
      assert at + [Key("layout"), Key("children")] + [Index(i)] == place;
      LayoutTells(node, at, depth, i, q);
  }

  lemma TellsHere(node: Value, at: Place, depth: nat, q: Problem)
    requires depth <= 26 && ToldAt(node, at, depth, [], q)
    ensures Lists(NodeProblems(node, at, depth), q)
  {
    ToldHere(node, at, depth, q);
    if depth <= 25 {
      NodeSplits(node, at, depth, q);
    } else {
      NothingElse(node, at, depth, q);
    }
  }

  /** A property of nodes that one child has passes to its parent. */
  ghost predicate Rises(holds: (Value, Place, nat) -> bool, node: Value, at: Place, depth: nat, step: Down) {
    (&& depth <= 25 && step.index < |Branch(node, step)|
     && holds(Branch(node, step)[step.index], at + StepPlace(step), depth + 1)) ==> holds(node, at, depth)
  }

  lemma {:induction false} Climbs(
    holds: (Value, Place, nat) -> bool, node: Value, at: Place, depth: nat, path: seq<Down>)
    requires forall n, a, d, s :: Rises(holds, n, a, d, s)
    requires depth + |path| <= 26 && Follow(node, path).Some?
    requires holds(Follow(node, path).value, PlaceOf(at, path), depth + |path|)
    ensures holds(node, at, depth)
    decreases |path|
  {
    if path != [] {
      var child, place := Branch(node, path[0])[path[0].index], at + StepPlace(path[0]);
      Climbs(holds, child, place, depth + 1, path[1..]);
      assert Rises(holds, node, at, depth, path[0]);
    }
  }

  /** And every such problem is reported. */
  lemma Tells(node: Value, at: Place, depth: nat, path: seq<Down>, q: Problem)
    requires depth <= 26 && ToldAt(node, at, depth, path, q)
    ensures Lists(NodeProblems(node, at, depth), q)
  {
    TellsHere(Follow(node, path).value, PlaceOf(at, path), depth + |path|, q);
    var reported := (n: Value, a: Place, d: nat) => q in NodeProblems(n, a, d);
    forall n, a, d, s ensures Rises(reported, n, a, d, s) {
      RisesByReport(reported, n, a, d, s, q);
    }
    ListsIn(NodeProblems(Follow(node, path).value, PlaceOf(at, path), depth + |path|), q);
    Climbs(reported, node, at, depth, path);
    ListsIn(NodeProblems(node, at, depth), q);
  }

  lemma RisesByReport(
    reported: (Value, Place, nat) -> bool, node: Value, at: Place, depth: nat, step: Down, q: Problem)
    requires forall n, a, d :: reported(n, a, d) <==> q in NodeProblems(n, a, d)
    ensures Rises(reported, node, at, depth, step)
  {
    if depth <= 25 && step.index < |Branch(node, step)| {
      var child, place := Branch(node, step)[step.index], at + StepPlace(step);
      if reported(child, place, depth + 1) {
        ListsIn(NodeProblems(child, place, depth + 1), q);
        BelowIsTold(node, at, depth, step, child, place, q);
        ListsIn(NodeProblems(node, at, depth), q);
      }
    }
  }

  // ---------------------------------------------------------------- the version

  /** The text inside so many lists of one element. */
  function Wrapped(text: string, n: nat): Value {
    if n == 0 then Str(text) else Arr([Wrapped(text, n - 1)])
  }

  /** `String(v)` is the text: v is the text itself, alone in lists or not. */
  ghost predicate Spells(v: Value, text: string) {
    exists n: nat :: v == Wrapped(text, n)
  }

  lemma {:induction false} PrintsExactly(v: Value, text: string)
    ensures PrintsAs(v, text) <==> Spells(v, text)
    decreases v
  {
    assert Wrapped(text, 0) == Str(text);
    if v.Arr? && |v.items| == 1 {
      PrintsExactly(v.items[0], text);
      if n: nat :| v.items[0] == Wrapped(text, n) {
        assert v == Wrapped(text, n + 1);
      }
      if n: nat :| v == Wrapped(text, n) {
        assert v.items[0] == Wrapped(text, n - 1);
      }
    }
  }

  function StatedVersion(manifest: Value): Option<Value> {
    if Missing(Get(manifest, "manifestVersion")) then Get2(manifest, "metadata", "schemaVersion")
    else Get(manifest, "manifestVersion")
  }

  /** The manifest version is 1.0.0, 1.0 or not stated. */
  ghost predicate VersionInOrder(manifest: Value) {
    var v := StatedVersion(manifest);
    Missing(v) || Spells(v.value, "1.0.0") || Spells(v.value, "1.0")
  }

  lemma VersionExactly(manifest: Value)
    ensures VersionSupported(manifest) <==> VersionInOrder(manifest)
  {
    var v := StatedVersion(manifest);
    if !Missing(v) {
      PrintsExactly(v.value, "1.0.0");
      PrintsExactly(v.value, "1.0");
    }
  }

  // ---------------------------------------------------------------- screens

  ghost predicate MapScreenTold(key: string, screen: Value, q: Problem) {
    var at := [Key("screens"), Key(key)];
    || (q == ScreenNull(at) && screen.Null?)
    || (q == ScreenNotAnObject(at) && (screen.Bool? || screen.Num?))
    || (IsStructure(screen) && q == ScreenWithoutId(at)
        && !FirstIsTruthy([Get(screen, "screenId"), Get(screen, "id"), Some(Str(key))]))
    || (IsStructure(screen) && exists path :: ToldAt(screen, at, 0, path, q))
  }

  predicate ListScreenTold(i: nat, screen: Value, q: Problem) {
    var at := [Key("screens"), Index(i)];
    || (q == ScreenNotAnObject(at) && !IsStructure(screen))
    || (IsStructure(screen) && q == ScreenWithoutId(at)
        && !FirstIsTruthy([Get(screen, "screenId"), Get(screen, "id"), Get(screen, "slug")]))
  }

  lemma FirstOfThree(a: Option<Value>, b: Option<Value>, c: Option<Value>)
    ensures var id := Coalesce(Coalesce(a, b), c);
            FirstIsTruthy([a, b, c]) <==> id.Some? && Truthy(id.value)
  {
    assert [a, b, c][1..] == [b, c] && [b, c][1..] == [c] && [c][1..] == [];
    assert FirstIsTruthy([c]) <==> c.Some? && Truthy(c.value);
    assert FirstIsTruthy([b, c]) <==> if Missing(b) then FirstIsTruthy([c]) else Truthy(b.value);
  }

  lemma MapScreenExactly(key: string, screen: Value, q: Problem)
    ensures q in MapScreenProblems(key, screen) <==> MapScreenTold(key, screen, q)
  {
    var at := [Key("screens"), Key(key)];
    if IsStructure(screen) {
      FirstOfThree(Get(screen, "screenId"), Get(screen, "id"), Some(Str(key)));
      ScreenTreeExactly(screen, at, q);
    }
  }

  lemma ScreenTreeExactly(screen: Value, at: Place, q: Problem)
    ensures q in NodeProblems(screen, at, 0) <==> exists path :: ToldAt(screen, at, 0, path, q)
  {
    ListsIn(NodeProblems(screen, at, 0), q);
    if q in NodeProblems(screen, at, 0) {
      var path := Told(screen, at, 0, q);
    }
    if path :| ToldAt(screen, at, 0, path, q) {
      Tells(screen, at, 0, path, q);
    }
  }

  lemma ListScreenExactly(i: nat, screen: Value, q: Problem)
    ensures q in ListScreenProblems(i, screen) <==> ListScreenTold(i, screen, q)
  {
    FirstOfThree(Get(screen, "screenId"), Get(screen, "id"), Get(screen, "slug"));
  }

  lemma {:induction false} ListToldBelow(items: seq<Value>, n: nat, q: Problem)
    requires n <= |items|
    ensures q in ArrayProblems(items, n) <==> exists i: nat :: i < n && ListScreenTold(i, items[i], q)
  {
    if n > 0 {
      ListToldBelow(items, n - 1, q);
      ListScreenExactly(n - 1, items[n - 1], q);
    }
  }

  lemma {:induction false} JoinedTold(reports: seq<seq<Problem>>, n: nat, q: Problem)
    requires n <= |reports|
    ensures q in Joined(reports, n) <==> exists i :: 0 <= i < n && q in reports[i]
  {
    if n > 0 {
      JoinedTold(reports, n - 1, q);
    }
  }

  lemma MapToldBelow(fields: seq<Field>, q: Problem)
    ensures q in Joined(MapReports(fields), |fields|)
       <==> exists i: nat :: i < |fields| && MapScreenTold(fields[i].key, fields[i].value, q)
  {
    var reports := MapReports(fields);
    JoinedTold(reports, |fields|, q);
    forall i: nat | i < |fields|
      ensures q in reports[i] <==> MapScreenTold(fields[i].key, fields[i].value, q)
    {
      MapScreenExactly(fields[i].key, fields[i].value, q);
    }
    if i: nat :| i < |fields| && MapScreenTold(fields[i].key, fields[i].value, q) {
      assert q in reports[i];
    }
  }

  ghost predicate ScreensTold(screens: Option<Value>, q: Problem) {
    match screens
    case None => q == ScreensRequired
    case Some(Null) => q == ScreensRequired
    case Some(Str(_)) => q == ScreensIsText
    case Some(Bool(_)) => q == ScreensNotAMap
    case Some(Num(_)) => q == ScreensNotAMap
    case Some(Arr(items)) =>
      (q == ScreensEmpty && items == []) || exists i: nat :: i < |items| && ListScreenTold(i, items[i], q)
    case Some(Obj(fields)) =>
      || (q == ScreensEmpty && fields == [])
      || exists i: nat :: i < |fields| && MapScreenTold(fields[i].key, fields[i].value, q)
  }

  lemma ListScreensExactly(items: seq<Value>, q: Problem)
    ensures q in ListProblemsOf(items) <==> ScreensTold(Some(Arr(items)), q)
  {
    ListToldBelow(items, |items|, q);
  }

  lemma MapScreensExactly(fields: seq<Field>, q: Problem)
    ensures q in MapProblemsOf(fields) <==> ScreensTold(Some(Obj(fields)), q)
  {
    MapToldBelow(fields, q);
  }

  lemma ScreensExactly(manifest: Value, q: Problem)
    ensures q in ScreensProblems(manifest) <==> ScreensTold(Get(manifest, "screens"), q)
  {
    match Get(manifest, "screens")
    case Some(Arr(items)) => ListScreensExactly(items, q);
    case Some(Obj(fields)) => MapScreensExactly(fields, q);
    case _ =>
  }

  // ---------------------------------------------------------------- main results

  /** Each problem and the fault of the manifest that it stands for, at its own place. */
  ghost predicate ManifestTold(manifest: Value, q: Problem) {
    if !manifest.Obj? then q == NotAnObject
    else
      || (q == UnsupportedVersion && !VersionInOrder(manifest))
      || ScreensTold(Get(manifest, "screens"), q)
      || (q == SplashNotAnObject && Scalar(Get(manifest, "splash")))
      || (q == IdentityNotAnObject && Scalar(Get(manifest, "identity")))
  }

  /** A problem is reported exactly when its fault is there. */
  lemma ReportedExactly(manifest: Value, q: Problem)
    ensures q in Problems(manifest) <==> ManifestTold(manifest, q)
  {
    VersionExactly(manifest);
    ScreensExactly(manifest, q);
  }

  /** An entry of `actions` clears the event, or is an action that does not navigate nowhere. */
  predicate ActionInOrder(action: Value) {
    action.Null? || (IsStructure(action) && (IsNavigation(action) ==> HasDestination(action)))
  }

  predicate ActionsInOrder(actions: Option<Value>) {
    || Missing(actions)
    || (IsStructure(actions.value)
        && forall i :: 0 <= i < |Entries(actions.value)| ==> ActionInOrder(Entries(actions.value)[i].value))
  }

  predicate TapsInOrder(node: Value, key: string) {
    forall i :: 0 <= i < |Listed(node, key)| ==> !Scalar(Get(Listed(node, key)[i], "tapAction"))
  }

  predicate NodeInOrder(node: Value) {
    && !Scalar(Get(node, "tapAction"))
    && ActionsInOrder(Get(node, "actions"))
    && forall key :: key in {"cats", "categories", "items", "offers", "orders", "rows"} ==> TapsInOrder(node, key)
  }

  /** Everything below a screen is at most 25 steps down, and every node is in order. */
  ghost predicate ScreenInOrder(screen: Value) {
    forall path :: Follow(screen, path).Some? ==>
      |path| <= 25 && (IsStructure(Follow(screen, path).value) ==> NodeInOrder(Follow(screen, path).value))
  }

  predicate ListScreenInOrder(screen: Value) {
    IsStructure(screen) && FirstIsTruthy([Get(screen, "screenId"), Get(screen, "id"), Get(screen, "slug")])
  }

  ghost predicate ScreensInOrder(screens: Option<Value>) {
    match screens
    case Some(Arr(items)) =>
      items != [] && forall i :: 0 <= i < |items| ==> ListScreenInOrder(items[i])
    case Some(Obj(fields)) =>
      fields != [] && forall i :: 0 <= i < |fields| ==> MapScreenInOrder(fields[i].key, fields[i].value)
    case _ => false
  }

  /** The screen is a text, or an object with an id, and everything below it is in order. */
  ghost predicate MapScreenInOrder(key: string, screen: Value) {
    || screen.Str?
    || (IsStructure(screen) && FirstIsTruthy([Get(screen, "screenId"), Get(screen, "id"), Some(Str(key))])
        && ScreenInOrder(screen))
  }

  ghost predicate WellFormed(manifest: Value) {
    && manifest.Obj? && VersionInOrder(manifest) && ScreensInOrder(Get(manifest, "screens"))
    && !Scalar(Get(manifest, "splash")) && !Scalar(Get(manifest, "identity"))
  }

  lemma NotInOrder(node: Value, at: Place, q: Problem, i: nat)
    requires EntryTold(node, at, q, i)
    ensures !ActionsInOrder(Get(node, "actions"))
  {
    assert !ActionInOrder(Entries(Get(node, "actions").value)[i].value);
  }

  lemma ItemNotInOrder(node: Value, at: Place, q: Problem, key: string, i: nat)
    requires ItemTold(node, at, q, key, i)
    ensures !TapsInOrder(node, key)
  {
    assert Scalar(Get(Listed(node, key)[i], "tapAction"));
  }

  lemma ToldIsNotInOrder(node: Value, at: Place, q: Problem)
    requires NodeTold(node, at, q)
    ensures !NodeInOrder(node)
  {
    if i: nat :| EntryTold(node, at, q, i) {
      NotInOrder(node, at, q, i);
    } else if key :| KeyTold(node, at, q, key) {
      var i: nat :| ItemTold(node, at, q, key, i);
      ItemNotInOrder(node, at, q, key, i);
    }
  }

  lemma ActionsNotInOrder(node: Value, at: Place) returns (q: Problem)
    requires !ActionsInOrder(Get(node, "actions"))
    ensures NodeTold(node, at, q)
  {
    var actions := Get(node, "actions").value;
    if IsStructure(actions) {
      var entries := Entries(actions);
      var i: nat :| i < |entries| && !ActionInOrder(entries[i].value);
      var place := at + [Key("actions"), Key(entries[i].key)];
      q := if IsStructure(entries[i].value) then NavigateWithoutScreen(place) else ActionNotAnObject(place);
      assert EntryTold(node, at, q, i);
    } else {
      q := ActionsNotAnObject(at + [Key("actions")]);
    }
  }

  lemma NotInOrderIsTold(node: Value, at: Place) returns (q: Problem)
    requires !NodeInOrder(node)
    ensures NodeTold(node, at, q)
  {
    if Scalar(Get(node, "tapAction")) {
      q := TapActionNotAnObject(at + [Key("tapAction")]);
    } else if !ActionsInOrder(Get(node, "actions")) {
      q := ActionsNotInOrder(node, at);
    } else {
      var key :| key in {"cats", "categories", "items", "offers", "orders", "rows"} && !TapsInOrder(node, key);
      var i: nat :| i < |Listed(node, key)| && Scalar(Get(Listed(node, key)[i], "tapAction"));
      q := TapActionNotAnObject(at + [Key(key)] + [Index(i), Key("tapAction")]);
      assert ItemTold(node, at, q, key, i);
      assert KeyTold(node, at, q, key);
    }
  }

  // ---------------------------------------------------------------- from nodes to the manifest

  lemma {:induction false} FollowPrefix(node: Value, path: seq<Down>, n: nat)
    requires n <= |path| && Follow(node, path).Some?
    ensures Follow(node, path[..n]).Some?
    decreases |path|
  {
    if n > 0 {
      FollowPrefix(Branch(node, path[0])[path[0].index], path[1..], n - 1);
      assert path[..n][1..] == path[1..][..n - 1];
    }
  }

  lemma ScreenToldIsNotInOrder(screen: Value, at: Place, path: seq<Down>, q: Problem)
    requires ToldAt(screen, at, 0, path, q)
    ensures !ScreenInOrder(screen)
  {
    if |path| <= 25 {
      ToldIsNotInOrder(Follow(screen, path).value, PlaceOf(at, path), q);
    }
  }

  lemma ScreenNotInOrderIsTold(screen: Value, at: Place) returns (path: seq<Down>, q: Problem)
    requires !ScreenInOrder(screen)
    ensures ToldAt(screen, at, 0, path, q)
  {
    var deep :| Follow(screen, deep).Some?
                && !(|deep| <= 25
                     && (IsStructure(Follow(screen, deep).value) ==> NodeInOrder(Follow(screen, deep).value)));
    if |deep| > 25 {
      FollowPrefix(screen, deep, 26);
      path, q := deep[..26], TooDeep(PlaceOf(at, deep[..26]));
    } else {
      path := deep;
      q := NotInOrderIsTold(Follow(screen, path).value, PlaceOf(at, path));
    }
  }

  lemma MapScreenInOrderExactly(key: string, screen: Value)
    ensures MapScreenInOrder(key, screen) <==> forall q :: !MapScreenTold(key, screen, q)
  {
    var at := [Key("screens"), Key(key)];
    if MapScreenInOrder(key, screen) {
      forall q ensures !MapScreenTold(key, screen, q) {
        if IsStructure(screen) {
          forall path ensures !ToldAt(screen, at, 0, path, q) {
            if ToldAt(screen, at, 0, path, q) {
              ScreenToldIsNotInOrder(screen, at, path, q);
            }
          }
        }
      }
    } else if screen.Null? {
      assert MapScreenTold(key, screen, ScreenNull(at));
    } else if !IsStructure(screen) {
      assert MapScreenTold(key, screen, ScreenNotAnObject(at));
    } else if !FirstIsTruthy([Get(screen, "screenId"), Get(screen, "id"), Some(Str(key))]) {
      assert MapScreenTold(key, screen, ScreenWithoutId(at));
    } else {
      var path, q := ScreenNotInOrderIsTold(screen, at);
      assert MapScreenTold(key, screen, q);
    }
  }

  lemma ListScreenInOrderExactly(i: nat, screen: Value)
    ensures ListScreenInOrder(screen) <==> forall q :: !ListScreenTold(i, screen, q)
  {
    var at := [Key("screens"), Index(i)];
    if !IsStructure(screen) {
      assert ListScreenTold(i, screen, ScreenNotAnObject(at));
    } else if !ListScreenInOrder(screen) {
      assert ListScreenTold(i, screen, ScreenWithoutId(at));
    }
  }

  lemma MapInOrder(fields: seq<Field>)
    ensures ScreensInOrder(Some(Obj(fields))) <==> forall q :: !ScreensTold(Some(Obj(fields)), q)
  {
    forall i: nat | i < |fields|
      ensures MapScreenInOrder(fields[i].key, fields[i].value) <==>
              forall q :: !MapScreenTold(fields[i].key, fields[i].value, q)
    {
      MapScreenInOrderExactly(fields[i].key, fields[i].value);
    }
    if fields == [] {
      assert ScreensTold(Some(Obj(fields)), ScreensEmpty);
    } else if !ScreensInOrder(Some(Obj(fields))) {
      var i: nat :| i < |fields| && !MapScreenInOrder(fields[i].key, fields[i].value);
      var q :| MapScreenTold(fields[i].key, fields[i].value, q);
      assert ScreensTold(Some(Obj(fields)), q);
    }
  }

  lemma ListInOrder(items: seq<Value>)
    ensures ScreensInOrder(Some(Arr(items))) <==> forall q :: !ScreensTold(Some(Arr(items)), q)
  {
    forall i: nat | i < |items|
      ensures ListScreenInOrder(items[i]) <==> forall q :: !ListScreenTold(i, items[i], q)
    {
      ListScreenInOrderExactly(i, items[i]);
    }
    if items == [] {
      assert ScreensTold(Some(Arr(items)), ScreensEmpty);
    } else if !ScreensInOrder(Some(Arr(items))) {
      var i: nat :| i < |items| && !ListScreenInOrder(items[i]);
      var q :| ListScreenTold(i, items[i], q);
      assert ScreensTold(Some(Arr(items)), q);
    }
  }

  lemma AllScreensInOrder(screens: Option<Value>)
    ensures ScreensInOrder(screens) <==> forall q :: !ScreensTold(screens, q)
  {
    match screens
    case Some(Arr(items)) => ListInOrder(items);
    case Some(Obj(fields)) => MapInOrder(fields);
    case Some(Str(_)) => assert ScreensTold(screens, ScreensIsText);
    case Some(Bool(_)) => assert ScreensTold(screens, ScreensNotAMap);
    case Some(Num(_)) => assert ScreensTold(screens, ScreensNotAMap);
    case _ => assert ScreensTold(screens, ScreensRequired);
  }

  lemma WellFormedIsClean(manifest: Value)
    ensures WellFormed(manifest) <==> forall q :: !ManifestTold(manifest, q)
  {
    AllScreensInOrder(Get(manifest, "screens"));
    if !manifest.Obj? {
      assert ManifestTold(manifest, NotAnObject);
    } else if !VersionInOrder(manifest) {
      assert ManifestTold(manifest, UnsupportedVersion);
    } else if !ScreensInOrder(Get(manifest, "screens")) {
      var q :| ScreensTold(Get(manifest, "screens"), q);
      assert ManifestTold(manifest, q);
    } else if Scalar(Get(manifest, "splash")) {
      assert ManifestTold(manifest, SplashNotAnObject);
    } else if Scalar(Get(manifest, "identity")) {
      assert ManifestTold(manifest, IdentityNotAnObject);
    }
  }

  /** A manifest has no problems exactly when it is well formed. */
  lemma ValidExactly(manifest: Value)
    ensures Problems(manifest) == [] <==> WellFormed(manifest)
  {
    WellFormedIsClean(manifest);
    if Problems(manifest) != [] {
      ReportedExactly(manifest, Problems(manifest)[0]);
    } else if q :| ManifestTold(manifest, q) {
      ReportedExactly(manifest, q);
    }
  }
}
