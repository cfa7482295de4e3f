/** What the compatibility walks establish, stated over positions of the manifest. */
module GateTheorems {
  import opened Options
  import opened Json
  import opened Compatibility
  import ManifestValidator
  import ValidatorTheorems

  // ---------------------------------------------------------------- shapes

  /** The key is there and its value is not null. */
  predicate Given(j: Value, key: string) {
    Get(j, key).Some? && Get(j, key).value != Null
  }

  /** A component: an object with a text `type` that has no `payload`, or something only components have. */
  predicate IsComponent(j: Value) {
    && Get(j, "type").Some? && Get(j, "type").value.Str?
    && (|| !Given(j, "payload")
        || Given(j, "props") || Given(j, "children") || Given(j, "layout")
        || Given(j, "key") || Given(j, "config") || Given(j, "blocks"))
  }

  lemma ComponentKeys(j: Value)
    ensures HasAny(j, NODE_KEYS) <==>
            || Given(j, "props") || Given(j, "children") || Given(j, "layout")
            || Given(j, "key") || Given(j, "config") || Given(j, "blocks")
  {
    if HasAny(j, NODE_KEYS) {
      var key :| key in NODE_KEYS && Present(j, key);
      assert Given(j, key);
    } else {
      forall key | key in NODE_KEYS ensures !Given(j, key) {
        assert !Present(j, key);
      }
    }
  }

  lemma ComponentShape(j: Value)
    ensures IsNodeShape(j) <==> IsComponent(j)
  {
    ComponentKeys(j);
    assert Given(j, "payload") <==> Present(j, "payload");
  }

  /** A component that the node walk visits. */
  ghost predicate NodeAt(c: Contract, j: Value, p: Path) {
    Visited(c, j, p) && IsComponent(At(j, p))
  }

  /** The screens of a manifest are the entries of its list or the values of its map. */
  lemma ScreensAre(manifest: Value)
    ensures match Get(manifest, "screens")
            case Some(Arr(items)) => Screens(manifest) == items
            case Some(Obj(fields)) =>
              |Screens(manifest)| == |fields|
              && forall i :: 0 <= i < |fields| ==> Screens(manifest)[i] == fields[i].value
            case _ => Screens(manifest) == []
  {
  }

  // ---------------------------------------------------------------- counting nodes

  /** The positions of a set, moved below child i. */
  ghost function Under(i: nat, s: set<Path>): set<Path> {
    set p | p in s :: [i] + p
  }

  lemma {:induction false} UnderSize(i: nat, s: set<Path>)
    ensures |Under(i, s)| == |s|
    decreases |s|
  {
    if s != {} {
      var p :| p in s;
      var rest := s - {p};
      UnderSize(i, rest);
      assert Under(i, s) == Under(i, rest) + {[i] + p};
      assert [i] + p !in Under(i, rest) by {
        forall q | q in rest ensures [i] + q != [i] + p {
          assert ([i] + q)[1..] == q && ([i] + p)[1..] == p;
        }
      }
    }
  }

  lemma UnderMembership(i: nat, s: set<Path>, p: Path)
    ensures p in Under(i, s) <==> p != [] && p[0] == i && p[1..] in s
  {
    if p != [] && p[0] == i && p[1..] in s {
      assert p == [i] + p[1..];
    }
  }

  /** Positions below earlier children and positions below this one are not shared. */
  lemma AddedSize(below: set<Path>, i: nat, deeper: set<Path>)
    requires forall p :: p in below ==> p != [] && p[0] < i
    ensures |below + Under(i, deeper)| == |below| + |deeper|
  {
    UnderSize(i, deeper);
    assert below !! Under(i, deeper);
  }

  /** The set of node positions of a value. */
  ghost function Nodes(c: Contract, j: Value): set<Path>
    decreases j, Arity(j) + 1
  {
    if !IsStructure(j) then {} else (if IsNodeShape(j) then {[]} else {}) + NodesBelow(c, j, Arity(j))
  }

  ghost function NodesBelow(c: Contract, j: Value, n: nat): set<Path>
    requires n <= Arity(j)
    decreases j, n
  {
    if n == 0 then {}
    else if Open(j, n - 1, c.skipped) then NodesBelow(c, j, n - 1) + Under(n - 1, Nodes(c, Child(j, n - 1)))
    else NodesBelow(c, j, n - 1)
  }

  lemma {:induction false} NodesBelowMembership(c: Contract, j: Value, n: nat, p: Path)
    requires n <= Arity(j)
    ensures p in NodesBelow(c, j, n)
       <==> p != [] && p[0] < n && Open(j, p[0], c.skipped) && p[1..] in Nodes(c, Child(j, p[0]))
  {
    if n > 0 {
      NodesBelowMembership(c, j, n - 1, p);
      UnderMembership(n - 1, Nodes(c, Child(j, n - 1)), p);
    }
  }

  /** `Nodes` is the set of reachable renderable nodes, no more and no less. */
  lemma {:induction false} NodesAreReachableNodes(c: Contract, j: Value, p: Path)
    ensures p in Nodes(c, j) <==> NodeAt(c, j, p)
    decreases p
  {
    ComponentShape(j);
    if IsStructure(j) {
      NodesBelowMembership(c, j, Arity(j), p);
      if p != [] && p[0] < Arity(j) {
        NodesAreReachableNodes(c, Child(j, p[0]), p[1..]);
      }
    }
  }

  /** The counter of the node walk is the exact number of such positions. */
  lemma {:induction false} NodeCountIsExact(c: Contract, j: Value)
    ensures NodeCount(c, j) == |Nodes(c, j)|
    decreases j, Arity(j) + 1
  {
    if IsStructure(j) {
      NodeCountBelowIsExact(c, j, Arity(j));
      NodesBelowMembership(c, j, Arity(j), []);
    }
  }

  lemma {:induction false} NodeCountBelowIsExact(c: Contract, j: Value, n: nat)
    requires n <= Arity(j)
    ensures NodeCountBelow(c, j, n) == |NodesBelow(c, j, n)|
    decreases j, n
  {
    if n > 0 {
      NodeCountIsExact(c, Child(j, n - 1));
      NodeCountBelowIsExact(c, j, n - 1);
      AddChild(c, j, n);
    }
  }

  lemma AddChild(c: Contract, j: Value, n: nat)
    requires 0 < n <= Arity(j)
    requires NodeCountBelow(c, j, n - 1) == |NodesBelow(c, j, n - 1)|
    requires NodeCount(c, Child(j, n - 1)) == |Nodes(c, Child(j, n - 1))|
    ensures NodeCountBelow(c, j, n) == |NodesBelow(c, j, n)|
  {
    CountOfNext(c, j, n);
    if Open(j, n - 1, c.skipped) {
      SizeOfNext(c, j, n, NodesBelow(c, j, n), Nodes(c, Child(j, n - 1)));
    }
  }

  lemma CountOfNext(c: Contract, j: Value, n: nat)
    requires 0 < n <= Arity(j)
    ensures NodeCountBelow(c, j, n)
         == NodeCountBelow(c, j, n - 1) + if Open(j, n - 1, c.skipped) then NodeCount(c, Child(j, n - 1)) else 0
  {
  }

  lemma SizeOfNext(c: Contract, j: Value, n: nat, total: set<Path>, deeper: set<Path>)
    requires 0 < n <= Arity(j) && Open(j, n - 1, c.skipped)
    requires deeper == Nodes(c, Child(j, n - 1)) && total == NodesBelow(c, j, n)
    ensures |total| == |NodesBelow(c, j, n - 1)| + |deeper|
  {
    NodesBelowStart(c, j, n - 1);
    AddedSize(NodesBelow(c, j, n - 1), n - 1, deeper);
  }

  lemma NodesBelowStart(c: Contract, j: Value, n: nat)
    requires n <= Arity(j)
    ensures forall p :: p in NodesBelow(c, j, n) ==> p != [] && p[0] < n
  {
    forall p | p in NodesBelow(c, j, n) ensures p != [] && p[0] < n {
      NodesBelowMembership(c, j, n, p);
    }
  }

  // ---------------------------------------------------------------- errors of the node walk

  /** The errors that one visited value raises at its depth. */
  function Raised(c: Contract, value: Value, depth: nat): set<Error> {
    (if depth > 25 then {NestedTooDeep(depth)} else {})
    + if IsComponent(value) && TypeOf(value) !in c.components then {UnsupportedComponent(TypeOf(value))} else {}
  }

  lemma RaisedHere(c: Contract, value: Value, depth: nat)
    ensures DepthErrors(depth) + NodeErrors(c, value) == Raised(c, value, depth)
  {
    ComponentShape(value);
  }

  lemma BelowChild(c: Contract, j: Value, i: nat, q: Path)
    requires i < Arity(j) && Open(j, i, c.skipped) && Visited(c, Child(j, i), q)
    ensures var p := [i] + q; Visited(c, j, p) && At(j, p) == At(Child(j, i), q)
  {
    assert ([i] + q)[1..] == q;
  }

  /** Every error of a walk comes from a visited position. */
  lemma {:induction false} ErrorHasSource(c: Contract, j: Value, depth: nat, e: Error) returns (p: Path)
    requires e in WalkErrors(c, j, depth)
    ensures Visited(c, j, p) && e in Raised(c, At(j, p), depth + |p|)
    decreases j, Arity(j) + 1
  {
    RaisedHere(c, j, depth);
    if e in Raised(c, j, depth) {
      p := [];
    } else {
      p := ErrorBelowHasSource(c, j, depth, Arity(j), e);
    }
  }

  lemma {:induction false} ErrorBelowHasSource(c: Contract, j: Value, depth: nat, n: nat, e: Error) returns (p: Path)
    requires n <= Arity(j)
    requires e in WalkErrorsBelow(c, j, depth, n)
    ensures Visited(c, j, p) && e in Raised(c, At(j, p), depth + |p|)
    decreases j, n
  {
    if e in WalkErrorsBelow(c, j, depth, n - 1) {
      p := ErrorBelowHasSource(c, j, depth, n - 1, e);
    } else {
      var q := ErrorHasSource(c, Child(j, n - 1), depth + 1, e);
      p := [n - 1] + q;
      BelowChild(c, j, n - 1, q);
    }
  }

  /** Every visited position reports its errors. */
  lemma {:induction false} SourceHasError(c: Contract, j: Value, depth: nat, p: Path, e: Error)
    requires Visited(c, j, p) && e in Raised(c, At(j, p), depth + |p|)
    ensures e in WalkErrors(c, j, depth)
    decreases p
  {
    RaisedHere(c, j, depth);
    if p != [] {
      SourceHasError(c, Child(j, p[0]), depth + 1, p[1..], e);
      ErrorsBelowInclude(c, j, depth, Arity(j), p[0], e);
    }
  }

  lemma {:induction false} ErrorsBelowInclude(c: Contract, j: Value, depth: nat, n: nat, i: nat, e: Error)
    requires i < n <= Arity(j) && Open(j, i, c.skipped)
    requires e in WalkErrors(c, Child(j, i), depth + 1)
    ensures e in WalkErrorsBelow(c, j, depth, n)
    decreases n
  {
    if i < n - 1 {
      ErrorsBelowInclude(c, j, depth, n - 1, i, e);
    }
  }

  lemma {:induction false} ScreenErrorsInclude(c: Contract, screens: seq<Value>, n: nat, i: nat, e: Error)
    requires i < n <= |screens| && e in WalkErrors(c, screens[i], 0)
    ensures e in ScreenErrors(c, screens, n)
    decreases n
  {
    if i < n - 1 {
      ScreenErrorsInclude(c, screens, n - 1, i, e);
    }
  }

  lemma {:induction false} ScreenErrorsComeFrom(c: Contract, screens: seq<Value>, n: nat, e: Error) returns (i: nat)
    requires n <= |screens| && e in ScreenErrors(c, screens, n)
    ensures i < n && e in WalkErrors(c, screens[i], 0)
    decreases n
  {
    i := n - 1;
    if e in ScreenErrors(c, screens, n - 1) {
      i := ScreenErrorsComeFrom(c, screens, n - 1, e);
    }
  }

  // ---------------------------------------------------------------- the gate

  /** A screen the shell can render: shallow enough everywhere, and every node of a published type. */
  ghost predicate Renderable(c: Contract, screen: Value) {
    forall p :: Visited(c, screen, p) ==>
      |p| <= 25 && (IsComponent(At(screen, p)) ==> TypeOf(At(screen, p)) in c.components)
  }

  /** The declarative meaning of the schema, component, depth and count part of the gate. */
  ghost predicate Acceptable(c: Contract, manifest: Value) {
    && manifest.Obj?
    && ValidatorTheorems.VersionInOrder(manifest)
    && |Screens(manifest)| <= 200
    && (forall i :: 0 <= i < |Screens(manifest)| ==> Renderable(c, Screens(manifest)[i]))
    && |Nodes(c, Arr(Screens(manifest)))| <= 2000
  }

  lemma WalkIsClean(c: Contract, screen: Value)
    ensures WalkErrors(c, screen, 0) == {} <==> Renderable(c, screen)
  {
    if WalkErrors(c, screen, 0) != {} {
      var e :| e in WalkErrors(c, screen, 0);
      var p := ErrorHasSource(c, screen, 0, e);
    } else {
      forall p | Visited(c, screen, p)
        ensures |p| <= 25 && (IsComponent(At(screen, p)) ==> TypeOf(At(screen, p)) in c.components)
      {
        if |p| > 25 {
          SourceHasError(c, screen, 0, p, NestedTooDeep(|p|));
        }
        var value := At(screen, p);
        if IsComponent(value) && TypeOf(value) !in c.components {
          SourceHasError(c, screen, 0, p, UnsupportedComponent(TypeOf(value)));
        }
      }
    }
  }

  lemma ScreensAreClean(c: Contract, screens: seq<Value>)
    ensures ScreenErrors(c, screens, |screens|) == {}
       <==> forall i :: 0 <= i < |screens| ==> Renderable(c, screens[i])
  {
    if ScreenErrors(c, screens, |screens|) != {} {
      var e :| e in ScreenErrors(c, screens, |screens|);
      var i := ScreenErrorsComeFrom(c, screens, |screens|, e);
      WalkIsClean(c, screens[i]);
    } else {
      forall i | 0 <= i < |screens| ensures Renderable(c, screens[i]) {
        WalkIsClean(c, screens[i]);
        if WalkErrors(c, screens[i], 0) != {} {
          var e :| e in WalkErrors(c, screens[i], 0);
          ScreenErrorsInclude(c, screens, |screens|, i, e);
        }
      }
    }
  }

  /** The schema check of the gate accepts the same versions as the validator: 1.0.0, 1.0 and none at all. */
  lemma SchemaExactly(manifest: Value)
    ensures SchemaSupported(manifest) <==> ValidatorTheorems.VersionInOrder(manifest)
  {
    ValidatorTheorems.VersionExactly(manifest);
  }

  /** The fault of a manifest that a gate error stands for. */
  ghost predicate Faulty(c: Contract, manifest: Value, e: Error) {
    if !manifest.Obj? then e == NotAnObject
    else
      var screens := Screens(manifest);
      || (e == UnsupportedSchema && !ValidatorTheorems.VersionInOrder(manifest))
      || (e == TooManyScreens(|screens|) && |screens| > 200)
      || (e == TooManyComponents(|Nodes(c, Arr(screens))|) && |Nodes(c, Arr(screens))| > 2000)
      || (exists i: nat :: i < |screens| && FaultyScreen(c, screens[i], e))
  }

  ghost predicate FaultyScreen(c: Contract, screen: Value, e: Error) {
    exists p :: FaultyAt(c, screen, p, e)
  }

  ghost predicate FaultyAt(c: Contract, screen: Value, p: Path, e: Error) {
    Visited(c, screen, p) && e in Raised(c, At(screen, p), |p|)
  }

  lemma FaultyScreenExactly(c: Contract, screen: Value, e: Error)
    ensures e in WalkErrors(c, screen, 0) <==> FaultyScreen(c, screen, e)
  {
    if e in WalkErrors(c, screen, 0) {
      var p := ErrorHasSource(c, screen, 0, e);
      assert FaultyAt(c, screen, p, e);
    }
    if p :| FaultyAt(c, screen, p, e) {
      SourceHasError(c, screen, 0, p, e);
    }
  }

  lemma FaultyScreens(c: Contract, screens: seq<Value>, e: Error)
    ensures e in ScreenErrors(c, screens, |screens|) <==>
            exists i: nat :: i < |screens| && FaultyScreen(c, screens[i], e)
  {
    if e in ScreenErrors(c, screens, |screens|) {
      var i := ScreenErrorsComeFrom(c, screens, |screens|, e);
      FaultyScreenExactly(c, screens[i], e);
    } else if i: nat :| i < |screens| && FaultyScreen(c, screens[i], e) {
      FaultyScreenExactly(c, screens[i], e);
      ScreenErrorsInclude(c, screens, |screens|, i, e);
    }
  }

  /** The gate reports an error exactly when its fault is there. */
  lemma GateReportsExactly(c: Contract, manifest: Value, e: Error)
    ensures e in Errors(c, manifest) <==> Faulty(c, manifest, e)
  {
    if manifest.Obj? {
      SchemaExactly(manifest);
      FaultyScreens(c, Screens(manifest), e);
      NodeCountIsExact(c, Arr(Screens(manifest)));
      ComponentShape(Arr(Screens(manifest)));
    }
  }

  /** The walk reports nothing exactly when the manifest is acceptable. */
  lemma GateIsExact(c: Contract, manifest: Value)
    ensures Errors(c, manifest) == {} <==> Acceptable(c, manifest)
  {
    if manifest.Obj? {
      SchemaExactly(manifest);
      var screens := Screens(manifest);
      ScreensAreClean(c, screens);
      NodeCountIsExact(c, Arr(screens));
      var count := NodeCountBelow(c, Arr(screens), |screens|);
      assert count == |Nodes(c, Arr(screens))|;
      assert |screens| > MAX_SCREENS ==> TooManyScreens(|screens|) in Errors(c, manifest);
      assert count > MAX_COMPONENTS ==> TooManyComponents(count) in Errors(c, manifest);
      assert !SchemaSupported(manifest) ==> UnsupportedSchema in Errors(c, manifest);
      assert ScreenErrors(c, screens, |screens|) <= Errors(c, manifest);
    } else {
      assert NotAnObject in Errors(c, manifest);
    }
  }

  // ---------------------------------------------------------------- the validator behind the gate

  /** The keys the validator descends through are not skipped by the node walk. */
  predicate FollowsChildren(c: Contract) {
    "children" !in c.skipped && "layout" !in c.skipped
  }

  /** Nor are they in the shell, which skips what holds props, actions or configuration. */
  lemma ShellFollowsChildren(c: Contract)
    requires c.skipped == NON_NODE_KEYS
    ensures FollowsChildren(c)
    ensures c.skipped == {"props", "style", "fills", "strokes", "effects", "state", "config", "payload"}
                         + {"actions", "tapAction", "theme", "branding", "localization", "runtime"}
                         + {"metadata", "meta", "identity", "permissions", "assets", "capabilities"}
  {
  }

  predicate SaysTooDeep(problems: seq<ManifestValidator.Problem>) {
    exists i :: 0 <= i < |problems| && problems[i].TooDeep?
  }

  lemma TooDeepInConcat(a: seq<ManifestValidator.Problem>, b: seq<ManifestValidator.Problem>)
    ensures SaysTooDeep(a + b) <==> SaysTooDeep(a) || SaysTooDeep(b)
  {
    if i :| 0 <= i < |a| && a[i].TooDeep? {
      assert (a + b)[i].TooDeep?;
    }
    if i :| 0 <= i < |b| && b[i].TooDeep? {
      assert (a + b)[|a| + i].TooDeep?;
    }
  }

  lemma {:induction false} EntriesNotTooDeep(entries: seq<Field>, at: ManifestValidator.Place, n: nat)
    requires n <= |entries|
    ensures !SaysTooDeep(ManifestValidator.EntriesProblems(entries, at, n))
  {
    if n > 0 {
      EntriesNotTooDeep(entries, at, n - 1);
    }
  }

  lemma {:induction false} TapsNotTooDeep(items: seq<Value>, at: ManifestValidator.Place, n: nat)
    requires n <= |items|
    ensures !SaysTooDeep(ManifestValidator.TapProblems(items, at, n))
  {
    if n > 0 {
      TapsNotTooDeep(items, at, n - 1);
    }
  }

  lemma {:induction false} ListsNotTooDeep(node: Value, at: ManifestValidator.Place, n: nat)
    requires n <= |ManifestValidator.LIST_KEYS|
    ensures !SaysTooDeep(ManifestValidator.ListProblems(node, at, n))
  {
    if n > 0 {
      var key := ManifestValidator.LIST_KEYS[n - 1];
      var items := ManifestValidator.ListAt(node, key);
      ListsNotTooDeep(node, at, n - 1);
      TapsNotTooDeep(items, at + [ManifestValidator.Key(key)], |items|);
    }
  }

  lemma EventsNotTooDeep(node: Value, at: ManifestValidator.Place)
    ensures !SaysTooDeep(ManifestValidator.EventProblems(node, at))
  {
    if Present(node, "actions") {
      var entries := Entries(Get(node, "actions").value);
      EntriesNotTooDeep(entries, at, |entries|);
    }
    TooDeepInConcat(ManifestValidator.OwnTapProblem(node, at), ManifestValidator.OwnActionsProblems(node, at));
  }

  lemma {:induction false} TooDeepChild(node: Value, items: seq<Value>, at: ManifestValidator.Place, depth: nat, n: nat)
    returns (i: nat)
    requires n <= |items| && forall k :: 0 <= k < |items| ==> items[k] < node
    requires SaysTooDeep(ManifestValidator.ChildrenProblems(node, items, at, depth, n))
    ensures i < n && SaysTooDeep(ManifestValidator.NodeProblems(items[i], at + [ManifestValidator.Index(i)], depth + 1))
    decreases n
  {
    var before := ManifestValidator.ChildrenProblems(node, items, at, depth, n - 1);
    TooDeepInConcat(
      before, ManifestValidator.NodeProblems(items[n - 1], at + [ManifestValidator.Index(n - 1)], depth + 1));
    i := n - 1;
    if SaysTooDeep(before) {
      i := TooDeepChild(node, items, at, depth, n - 1);
    }
  }

  /** A nesting problem comes from one of the two child lists. */
  lemma TooDeepList(node: Value, at: ManifestValidator.Place, depth: nat)
    requires depth <= ManifestValidator.MAX_DEPTH && SaysTooDeep(ManifestValidator.NodeProblems(node, at, depth))
    ensures var children, layout := ManifestValidator.ChildList(node), ManifestValidator.LayoutList(node);
            || SaysTooDeep(ManifestValidator.ChildrenProblems(
                 node, children, at + [ManifestValidator.Key("children")], depth, |children|))
            || SaysTooDeep(ManifestValidator.ChildrenProblems(
                 node, layout, at + [ManifestValidator.Key("layout"), ManifestValidator.Key("children")], depth,
                 |layout|))
  {
    var children, layout := ManifestValidator.ChildList(node), ManifestValidator.LayoutList(node);
    var events := ManifestValidator.EventProblems(node, at);
    var first := ManifestValidator.ChildrenProblems(
      node, children, at + [ManifestValidator.Key("children")], depth, |children|);
    var second := ManifestValidator.ChildrenProblems(
      node, layout, at + [ManifestValidator.Key("layout"), ManifestValidator.Key("children")], depth, |layout|);
    var lists := ManifestValidator.ListProblems(node, at, |ManifestValidator.LIST_KEYS|);
    EventsNotTooDeep(node, at);
    ListsNotTooDeep(node, at, |ManifestValidator.LIST_KEYS|);
    TooDeepInConcat(events + first + second, lists);
    TooDeepInConcat(events + first, second);
    TooDeepInConcat(events, first);
  }

  /** The list of children sits two steps above each child, and the walk visits it. */
  lemma ChildListVisited(c: Contract, node: Value) returns (k: nat)
    requires FollowsChildren(c) && ManifestValidator.ChildList(node) != []
    ensures k < Arity(node) && Open(node, k, c.skipped) && Child(node, k) == Arr(ManifestValidator.ChildList(node))
    ensures Visited(c, node, [k])
  {
    k := IndexOf(node.fields, "children");
    BelowChild(c, node, k, []);
    assert [k] + [] == [k];
  }

  lemma LayoutVisited(c: Contract, node: Value) returns (k: nat)
    requires FollowsChildren(c) && ManifestValidator.LayoutList(node) != []
    ensures k < Arity(node) && Open(node, k, c.skipped)
    ensures ManifestValidator.ChildList(Child(node, k)) == ManifestValidator.LayoutList(node)
  {
    k := IndexOf(node.fields, "layout");
  }

  /** A nesting problem below a child list means a visited position twice as deep. */
  lemma {:induction false} TooDeepBelowList(
    c: Contract, node: Value, owner: Value, at: ManifestValidator.Place, depth: nat)
    returns (p: Path)
    requires FollowsChildren(c) && depth <= ManifestValidator.MAX_DEPTH
    requires var items := ManifestValidator.ChildList(owner);
             (forall k :: 0 <= k < |items| ==> items[k] < node)
             && SaysTooDeep(ManifestValidator.ChildrenProblems(node, items, at, depth, |items|))
    ensures Visited(c, owner, p) && |p| >= 2 * (ManifestValidator.MAX_DEPTH - depth) + 1
    decreases node, 0
  {
    var items := ManifestValidator.ChildList(owner);
    var i := TooDeepChild(node, items, at, depth, |items|);
    var k := ChildListVisited(c, owner);
    p := [k];
    if depth < ManifestValidator.MAX_DEPTH {
      var q := TooDeepVisits(c, items[i], at + [ManifestValidator.Index(i)], depth + 1);
      TwoStepsDown(c, owner, k, items, i, q);
      p := [k, i] + q;
    }
  }

  lemma TwoStepsDown(c: Contract, owner: Value, k: nat, items: seq<Value>, i: nat, q: Path)
    requires k < Arity(owner) && Open(owner, k, c.skipped) && Child(owner, k) == Arr(items)
    requires i < |items| && Visited(c, items[i], q)
    ensures Visited(c, owner, [k, i] + q)
  {
    BelowChild(c, Arr(items), i, q);
    BelowChild(c, owner, k, [i] + q);
    assert [k] + ([i] + q) == [k, i] + q;
  }

  /** The validator's depth counts nodes, the walk's depth counts JSON levels. */
  lemma {:induction false} TooDeepVisits(c: Contract, node: Value, at: ManifestValidator.Place, depth: nat)
    returns (p: Path)
    requires FollowsChildren(c) && depth <= ManifestValidator.MAX_DEPTH
    requires SaysTooDeep(ManifestValidator.NodeProblems(node, at, depth))
    ensures Visited(c, node, p) && |p| >= 2 * (ManifestValidator.MAX_DEPTH - depth) + 1
    decreases node, 1
  {
    TooDeepList(node, at, depth);
    var children := ManifestValidator.ChildList(node);
    if SaysTooDeep(ManifestValidator.ChildrenProblems(
         node, children, at + [ManifestValidator.Key("children")], depth, |children|)) {
      p := TooDeepBelowList(c, node, node, at + [ManifestValidator.Key("children")], depth);
    } else {
      var k := LayoutVisited(c, node);
      var q := TooDeepBelowList(
        c, node, Child(node, k), at + [ManifestValidator.Key("layout"), ManifestValidator.Key("children")], depth);
      BelowChild(c, node, k, q);
      p := [k] + q;
    }
  }

  /** A screen that passes the gate never makes the validator report its nesting error. */
  lemma RenderableIsNotTooDeep(c: Contract, screen: Value, at: ManifestValidator.Place)
    requires FollowsChildren(c) && Renderable(c, screen)
    ensures !SaysTooDeep(ManifestValidator.NodeProblems(screen, at, 0))
  {
    if SaysTooDeep(ManifestValidator.NodeProblems(screen, at, 0)) {
      var p := TooDeepVisits(c, screen, at, 0);
      assert false;
    }
  }

  lemma MapScreenNotTooDeep(c: Contract, key: string, screen: Value)
    requires FollowsChildren(c) && Renderable(c, screen)
    ensures !SaysTooDeep(ManifestValidator.MapScreenProblems(key, screen))
  {
    var at := [ManifestValidator.Key("screens"), ManifestValidator.Key(key)];
    if !screen.Null? && !screen.Str? && IsStructure(screen) {
      var missing := ManifestValidator.MissingId(screen, Some(Str(key)), at);
      assert !SaysTooDeep(missing);
      RenderableIsNotTooDeep(c, screen, at);
      TooDeepInConcat(missing, ManifestValidator.NodeProblems(screen, at, 0));
    }
  }

  lemma {:induction false} TooDeepReport(reports: seq<seq<ManifestValidator.Problem>>, n: nat) returns (i: nat)
    requires n <= |reports| && SaysTooDeep(ManifestValidator.Joined(reports, n))
    ensures i < n && SaysTooDeep(reports[i])
    decreases n
  {
    TooDeepInConcat(ManifestValidator.Joined(reports, n - 1), reports[n - 1]);
    i := n - 1;
    if SaysTooDeep(ManifestValidator.Joined(reports, n - 1)) {
      i := TooDeepReport(reports, n - 1);
    }
  }

  lemma {:induction false} ArrayNotTooDeep(items: seq<Value>, n: nat)
    requires n <= |items|
    ensures !SaysTooDeep(ManifestValidator.ArrayProblems(items, n))
  {
    if n > 0 {
      ArrayNotTooDeep(items, n - 1);
      TooDeepInConcat(ManifestValidator.ArrayProblems(items, n - 1),
                      ManifestValidator.ListScreenProblems(n - 1, items[n - 1]));
    }
  }

  lemma ScreensNotTooDeep(c: Contract, manifest: Value)
    requires FollowsChildren(c) && manifest.Obj?
    requires forall i :: 0 <= i < |Screens(manifest)| ==> Renderable(c, Screens(manifest)[i])
    ensures !SaysTooDeep(ManifestValidator.ScreensProblems(manifest))
  {
    match Get(manifest, "screens")
    case Some(Arr(items)) =>
      ArrayNotTooDeep(items, |items|);
      TooDeepInConcat(ManifestValidator.EmptyProblem(items), ManifestValidator.ArrayProblems(items, |items|));
    case Some(Obj(fields)) =>
      var reports := ManifestValidator.MapReports(fields);
      if SaysTooDeep(ManifestValidator.Joined(reports, |reports|)) {
        var i := TooDeepReport(reports, |reports|);
        assert Screens(manifest)[i] == fields[i].value;
        MapScreenNotTooDeep(c, fields[i].key, fields[i].value);
      }
      TooDeepInConcat(ManifestValidator.EmptyProblem(fields), ManifestValidator.Joined(reports, |reports|));
    case _ =>
  }

  /** A manifest that passes the gate can never trigger the validator's own nesting error. */
  lemma PassedIsNeverTooDeep(c: Contract, manifest: Value)
    requires FollowsChildren(c) && Errors(c, manifest) == {}
    ensures !SaysTooDeep(ManifestValidator.Problems(manifest))
  {
    GateIsExact(c, manifest);
    ScreensNotTooDeep(c, manifest);
    var version := ManifestValidator.When(
      !ManifestValidator.VersionSupported(manifest), ManifestValidator.UnsupportedVersion);
    var screens := ManifestValidator.ScreensProblems(manifest);
    var splash := ManifestValidator.When(
      ManifestValidator.PresentScalar(manifest, "splash"), ManifestValidator.SplashNotAnObject);
    TooDeepInConcat(version, screens);
    TooDeepInConcat(version + screens, splash);
  }
}
