/**
 * Live preview: which components of a draft are shown in a context, decided by
 * their visibility conditions, and where they end up in the rendered tree.
 */
module Preview {
  import opened Options
  import opened Json

  // ---------------------------------------------------------------- conditions

  datatype Condition = Condition(field: string, operator: string, value: Value)

  /** Any logic other than 'AND' counts as 'OR'. */
  datatype Group = Group(logic: string, conditions: seq<Item>)

  datatype Item = Nested(group: Group) | Single(condition: Condition)

  /** Which single conditions hold in the context of a preview. */
  type Context = Condition -> bool

  predicate EvaluateGroup(group: Group, holds: Context)
    decreases group
  {
    var results := EvaluateAll(group.conditions, holds);
    if group.logic == "AND" then forall i :: 0 <= i < |results| ==> results[i]
    else exists i :: 0 <= i < |results| && results[i]
  }

  function EvaluateAll(items: seq<Item>, holds: Context): (results: seq<bool>)
    ensures |results| == |items|
    decreases items
  {
    if items == [] then []
    else [EvaluateItem(items[0], holds)] + EvaluateAll(items[1..], holds)
  }

  predicate EvaluateItem(item: Item, holds: Context)
    decreases item
  {
    match item
    case Nested(group) => EvaluateGroup(group, holds)
    case Single(condition) => holds(condition)
  }

  lemma {:induction false} ResultAt(items: seq<Item>, i: nat, holds: Context)
    requires i < |items|
    ensures EvaluateAll(items, holds)[i] == EvaluateItem(items[i], holds)
  {
    if i > 0 {
      ResultAt(items[1..], i - 1, holds);
    }
  }

  /** A nested group holds as a group of its own, and a single condition when the context says so. */
  predicate ItemHolds(item: Item, holds: Context) {
    match item
    case Nested(group) => EvaluateGroup(group, holds)
    case Single(condition) => holds(condition)
  }

  /** 'AND' asks for all conditions, anything else for one; an empty group holds only under 'AND'. */
  lemma GroupMeaning(group: Group, holds: Context)
    ensures EvaluateGroup(group, holds) <==>
            if group.logic == "AND"
            then forall i :: 0 <= i < |group.conditions| ==> ItemHolds(group.conditions[i], holds)
            else exists i :: 0 <= i < |group.conditions| && ItemHolds(group.conditions[i], holds)
  {
    forall i | 0 <= i < |group.conditions|
      ensures EvaluateAll(group.conditions, holds)[i] == ItemHolds(group.conditions[i], holds)
    {
      ResultAt(group.conditions, i, holds);
    }
  }

  /** Nothing that holds stops holding when more single conditions do. */
  lemma {:induction false} GroupIsMonotone(group: Group, holds: Context, more: Context)
    requires forall c :: holds(c) ==> more(c)
    requires EvaluateGroup(group, holds)
    ensures EvaluateGroup(group, more)
    decreases group
  {
    GroupMeaning(group, holds);
    GroupMeaning(group, more);
    forall i | 0 <= i < |group.conditions| && ItemHolds(group.conditions[i], holds)
      ensures ItemHolds(group.conditions[i], more)
    {
      var item := group.conditions[i];
      if item.Nested? {
        GroupIsMonotone(item.group, holds, more);
      }
    }
  }

  // ---------------------------------------------------------------- components

  datatype Props = Props(conditions: Option<Group>, bindings: Option<Value>, actions: Option<Value>, others: Value)

  /** A list of components, or something that is no list. */
  datatype Children = Absent | List(nodes: seq<Node>)

  /** A component of a draft or of a rendered page; only a rendered one carries a copy of its actions. */
  datatype Node = Node(
    id: Option<string>,
    key: Option<string>,
    kind: string,
    props: Props,
    actions: Option<Value>,
    children: Children,
    layout: Layout
  )

  datatype Layout = NoLayout | Layout(style: Value, children: Children)

  predicate Visible(n: Node, holds: Context) {
    n.props.conditions.Some? ==> EvaluateGroup(n.props.conditions.value, holds)
  }

  /** `resolve` drops bindings and conditions and adds what the bindings resolve to. */
  function ResolveProps(props: Props, resolve: Props -> Props): Props {
    if props.bindings.None? then props else resolve(props)
  }

  function Render(n: Node, holds: Context, resolve: Props -> Props): Option<Node>
    decreases n
  {
    if !Visible(n, holds) then None
    else
      var children := RenderChildren(n.children, holds, resolve);
      Some(Node(if n.id.Some? then n.id else n.key, None, n.kind, ResolveProps(n.props, resolve), n.props.actions,
                if children == [] then Absent else List(children), RenderLayout(n.layout, holds, resolve)))
  }

  /** The children of a layout are always a list once rendered. */
  function RenderLayout(layout: Layout, holds: Context, resolve: Props -> Props): Layout
    decreases layout
  {
    match layout
    case NoLayout => NoLayout
    case Layout(style, children) => Layout(style, List(RenderChildren(children, holds, resolve)))
  }

  function RenderChildren(children: Children, holds: Context, resolve: Props -> Props): seq<Node>
    decreases children
  {
    match children
    case Absent => []
    case List(nodes) => RenderList(nodes, holds, resolve)
  }

  function RenderList(nodes: seq<Node>, holds: Context, resolve: Props -> Props): seq<Node>
    decreases nodes
  {
    if nodes == [] then []
    else
      var first := Render(nodes[0], holds, resolve);
      (if first.Some? then [first.value] else []) + RenderList(nodes[1..], holds, resolve)
  }

  // ---------------------------------------------------------------- siblings

  /** How many of the first siblings are visible: the place of the next one in the rendered list. */
  function Rank(nodes: seq<Node>, i: nat, holds: Context): nat
    requires i <= |nodes|
  {
    if i == 0 then 0 else (if Visible(nodes[0], holds) then 1 else 0) + Rank(nodes[1..], i - 1, holds)
  }

  /** A visible sibling is found, rendered, at its rank. */
  lemma {:induction false} RenderedAtRank(nodes: seq<Node>, i: nat, holds: Context, resolve: Props -> Props)
    requires i < |nodes| && Visible(nodes[i], holds)
    ensures var list := RenderList(nodes, holds, resolve);
            Rank(nodes, i, holds) < |list| && Render(nodes[i], holds, resolve) == Some(list[Rank(nodes, i, holds)])
  {
    if i > 0 {
      RenderedAtRank(nodes[1..], i - 1, holds, resolve);
    }
  }

  /** Every rendered sibling comes from a visible one. */
  lemma {:induction false} RankCovers(nodes: seq<Node>, j: nat, holds: Context, resolve: Props -> Props)
    returns (i: nat)
    requires j < |RenderList(nodes, holds, resolve)|
    ensures i < |nodes| && Visible(nodes[i], holds) && Rank(nodes, i, holds) == j
  {
    if Visible(nodes[0], holds) && j == 0 {
      i := 0;
    } else {
      var rest := RankCovers(nodes[1..], if Visible(nodes[0], holds) then j - 1 else j, holds, resolve);
      i := rest + 1;
    }
  }

  /** Siblings keep their order, and no two land on the same place. */
  lemma {:induction false} RankKeepsOrder(nodes: seq<Node>, i: nat, k: nat, holds: Context)
    requires i < k < |nodes| && Visible(nodes[i], holds)
    ensures Rank(nodes, i, holds) < Rank(nodes, k, holds)
  {
    if i > 0 {
      RankKeepsOrder(nodes[1..], i - 1, k - 1, holds);
    }
  }

  // ---------------------------------------------------------------- positions

  datatype Step = Child(index: nat) | LayoutChild(index: nat)

  function Items(children: Children): seq<Node> {
    if children.List? then children.nodes else []
  }

  /** The list of siblings that a step goes into. */
  function Siblings(n: Node, step: Step): seq<Node> {
    match step
    case Child(_) => Items(n.children)
    case LayoutChild(_) => if n.layout.Layout? then Items(n.layout.children) else []
  }

  predicate Has(n: Node, path: seq<Step>)
    decreases |path|
  {
    path == []
    || (path[0].index < |Siblings(n, path[0])| && Has(Siblings(n, path[0])[path[0].index], path[1..]))
  }

  function At(n: Node, path: seq<Step>): Node
    requires Has(n, path)
    decreases |path|
  {
    if path == [] then n else At(Siblings(n, path[0])[path[0].index], path[1..])
  }

  /** The conditions of a component and of all its ancestors hold. */
  predicate Shown(n: Node, path: seq<Step>, holds: Context)
    requires Has(n, path)
    decreases |path|
  {
    Visible(n, holds) && (path == [] || Shown(Siblings(n, path[0])[path[0].index], path[1..], holds))
  }

  /** The ancestor after k steps is there, and it has no conditions or they hold. */
  predicate VisibleAt(n: Node, path: seq<Step>, k: nat, holds: Context) {
    && k <= |path| && Has(n, path[..k])
    && match At(n, path[..k]).props.conditions
       case None => true
       case Some(group) => EvaluateGroup(group, holds)
  }

  lemma VisibleBelow(n: Node, path: seq<Step>, k: nat, holds: Context)
    requires Has(n, path) && 0 < k <= |path|
    ensures VisibleAt(n, path, k, holds)
       <==> VisibleAt(Siblings(n, path[0])[path[0].index], path[1..], k - 1, holds)
  {
    assert path[..k][1..] == path[1..][..k - 1];
  }

  /** A component is shown exactly when its own conditions and those of every ancestor hold. */
  lemma {:induction false} ShownExactly(n: Node, path: seq<Step>, holds: Context)
    requires Has(n, path)
    ensures Shown(n, path, holds) <==> forall k: nat :: k <= |path| ==> VisibleAt(n, path, k, holds)
    decreases |path|
  {
    assert VisibleAt(n, path, 0, holds) <==> Visible(n, holds);
    if path != [] {
      var child := Siblings(n, path[0])[path[0].index];
      ShownExactly(child, path[1..], holds);
      forall k: nat | 0 < k <= |path|
        ensures VisibleAt(n, path, k, holds) <==> VisibleAt(child, path[1..], k - 1, holds)
      {
        VisibleBelow(n, path, k, holds);
      }
      forall k: nat | k <= |path[1..]|
        ensures VisibleAt(n, path, k + 1, holds) <==> VisibleAt(child, path[1..], k, holds)
      {
        VisibleBelow(n, path, k + 1, holds);
      }
    }
  }

  function AtRank(step: Step, rank: nat): Step {
    match step
    case Child(_) => Child(rank)
    case LayoutChild(_) => LayoutChild(rank)
  }

  /** Where a position of the draft is found in the rendered tree. */
  function Target(n: Node, path: seq<Step>, holds: Context): seq<Step>
    requires Has(n, path)
    decreases |path|
  {
    if path == [] then []
    else
      var siblings := Siblings(n, path[0]);
      [AtRank(path[0], Rank(siblings, path[0].index, holds))] + Target(siblings[path[0].index], path[1..], holds)
  }

  lemma RenderedItems(children: Children, holds: Context, resolve: Props -> Props)
    ensures RenderChildren(children, holds, resolve) == RenderList(Items(children), holds, resolve)
  {
  }

  lemma RenderedSiblings(n: Node, step: Step, holds: Context, resolve: Props -> Props)
    requires Visible(n, holds)
    ensures Siblings(Render(n, holds, resolve).value, step) == RenderList(Siblings(n, step), holds, resolve)
  {
    RenderedItems(n.children, holds, resolve);
    if n.layout.Layout? {
      RenderedItems(n.layout.children, holds, resolve);
    }
    RenderedItems(Absent, holds, resolve);
  }

  /** What rendering makes of a single component, whatever hangs below it. */
  predicate RenderedFrom(out: Node, n: Node, resolve: Props -> Props) {
    && out.id == (if n.id.Some? then n.id else n.key) && out.key == None && out.kind == n.kind
    && out.props == (if n.props.bindings == None then n.props else resolve(n.props)) && out.actions == n.props.actions
    && out.layout.Layout? == n.layout.Layout?
    && (n.layout.Layout? ==> out.layout.style == n.layout.style && out.layout.children.List?)
  }

  /** Every shown component is found at its target. */
  lemma {:induction false} ShownIsRendered(n: Node, path: seq<Step>, holds: Context, resolve: Props -> Props)
    requires Has(n, path) && Shown(n, path, holds)
    ensures var out := Render(n, holds, resolve);
            && out.Some? && Has(out.value, Target(n, path, holds))
            && RenderedFrom(At(out.value, Target(n, path, holds)), At(n, path), resolve)
    decreases |path|
  {
    if path != [] {
      var siblings := Siblings(n, path[0]);
      RenderedSiblings(n, path[0], holds, resolve);
      RenderedSiblings(n, AtRank(path[0], Rank(siblings, path[0].index, holds)), holds, resolve);
      RenderedAtRank(siblings, path[0].index, holds, resolve);
      ShownIsRendered(siblings[path[0].index], path[1..], holds, resolve);
    }
  }

  /** Everything rendered is the target of a shown component. */
  lemma {:induction false} RenderedIsShown(n: Node, target: seq<Step>, holds: Context, resolve: Props -> Props)
    returns (path: seq<Step>)
    requires Visible(n, holds) && Has(Render(n, holds, resolve).value, target)
    ensures Has(n, path) && Shown(n, path, holds) && Target(n, path, holds) == target
    decreases |target|
  {
    if target == [] {
      path := [];
    } else {
      var step := target[0];
      var siblings := Siblings(n, step);
      RenderedSiblings(n, step, holds, resolve);
      var i := RankCovers(siblings, step.index, holds, resolve);
      RenderedAtRank(siblings, i, holds, resolve);
      var rest := RenderedIsShown(siblings[i], target[1..], holds, resolve);
      var first := AtRank(step, i);
      path := [first] + rest;
      assert path[1..] == rest && Siblings(n, first) == siblings;
      assert target == [step] + target[1..];
    }
  }

  /** A rendered component has a list of children exactly when some child of the draft is visible. */
  lemma ChildrenAreVisible(n: Node, holds: Context, resolve: Props -> Props)
    requires Visible(n, holds)
    ensures var children := Render(n, holds, resolve).value.children;
            children.List? <==> exists i :: 0 <= i < |Items(n.children)| && Visible(Items(n.children)[i], holds)
  {
    var items := Items(n.children);
    RenderedItems(n.children, holds, resolve);
    if i :| 0 <= i < |items| && Visible(items[i], holds) {
      RenderedAtRank(items, i, holds, resolve);
    }
    if RenderList(items, holds, resolve) != [] {
      var i := RankCovers(items, 0, holds, resolve);
    }
  }

  /** Different shown components have different targets, in the order of siblings. */
  lemma {:induction false} TargetsDiffer(n: Node, a: seq<Step>, b: seq<Step>, holds: Context)
    requires Has(n, a) && Has(n, b) && Shown(n, a, holds) && Shown(n, b, holds)
    requires Target(n, a, holds) == Target(n, b, holds)
    ensures a == b
    decreases |a|
  {
    if a != [] && b != [] {
      var (ta, tb) := (Target(n, a, holds), Target(n, b, holds));
      assert ta[0] == tb[0] && ta[1..] == tb[1..];
      var siblings := Siblings(n, a[0]);
      assert Siblings(n, b[0]) == siblings;
      if a[0].index < b[0].index {
        RankKeepsOrder(siblings, a[0].index, b[0].index, holds);
      } else if b[0].index < a[0].index {
        RankKeepsOrder(siblings, b[0].index, a[0].index, holds);
      } else {
        TargetsDiffer(siblings[a[0].index], a[1..], b[1..], holds);
        assert a == [a[0]] + a[1..] && b == [b[0]] + b[1..];
      }
    }
  }

  // ---------------------------------------------------------------- idempotence

  /** Resolving these props again changes nothing, they are still visible, and their actions are the same. */
  predicate Stable(p: Props, holds: Context, resolve: Props -> Props) {
    var r := ResolveProps(p, resolve);
    && ResolveProps(r, resolve) == r && r.actions == p.actions
    && (r.conditions.Some? ==> EvaluateGroup(r.conditions.value, holds))
  }

  /** Every visible component of a tree has stable props. */
  predicate Settled(n: Node, holds: Context, resolve: Props -> Props)
    decreases n
  {
    && (Visible(n, holds) ==> Stable(n.props, holds, resolve))
    && (n.children.List? ==> AllSettled(n.children.nodes, holds, resolve))
    && (n.layout.Layout? && n.layout.children.List? ==> AllSettled(n.layout.children.nodes, holds, resolve))
  }

  predicate AllSettled(nodes: seq<Node>, holds: Context, resolve: Props -> Props)
    decreases nodes
  {
    nodes == [] || (Settled(nodes[0], holds, resolve) && AllSettled(nodes[1..], holds, resolve))
  }

  /** What resolving is meant to do: it drops bindings and conditions and leaves the actions alone. */
  ghost predicate DropsBindings(resolve: Props -> Props) {
    forall p :: resolve(p).bindings.None? && resolve(p).conditions.None? && resolve(p).actions == p.actions
  }

  /** Then every tree is settled. */
  lemma {:induction false} DroppingSettles(n: Node, holds: Context, resolve: Props -> Props)
    requires DropsBindings(resolve)
    ensures Settled(n, holds, resolve)
    decreases n
  {
    assert resolve(n.props).bindings.None?;
    if n.children.List? {
      DroppingSettlesAll(n.children.nodes, holds, resolve);
    }
    if n.layout.Layout? && n.layout.children.List? {
      DroppingSettlesAll(n.layout.children.nodes, holds, resolve);
    }
  }

  lemma {:induction false} DroppingSettlesAll(nodes: seq<Node>, holds: Context, resolve: Props -> Props)
    requires DropsBindings(resolve)
    ensures AllSettled(nodes, holds, resolve)
    decreases nodes
  {
    if nodes != [] {
      DroppingSettles(nodes[0], holds, resolve);
      DroppingSettlesAll(nodes[1..], holds, resolve);
    }
  }

  predicate BindingFree(n: Node)
    decreases n
  {
    && n.props.bindings.None?
    && (n.children.List? ==> AllBindingFree(n.children.nodes))
    && (n.layout.Layout? && n.layout.children.List? ==> AllBindingFree(n.layout.children.nodes))
  }

  predicate AllBindingFree(nodes: seq<Node>)
    decreases nodes
  {
    nodes == [] || (BindingFree(nodes[0]) && AllBindingFree(nodes[1..]))
  }

  /** A tree without bindings is settled whatever resolving does. */
  lemma {:induction false} BindingFreeSettles(n: Node, holds: Context, resolve: Props -> Props)
    requires BindingFree(n)
    ensures Settled(n, holds, resolve)
    decreases n
  {
    if n.children.List? {
      BindingFreeSettlesAll(n.children.nodes, holds, resolve);
    }
    if n.layout.Layout? && n.layout.children.List? {
      BindingFreeSettlesAll(n.layout.children.nodes, holds, resolve);
    }
  }

  lemma {:induction false} BindingFreeSettlesAll(nodes: seq<Node>, holds: Context, resolve: Props -> Props)
    requires AllBindingFree(nodes)
    ensures AllSettled(nodes, holds, resolve)
    decreases nodes
  {
    if nodes != [] {
      BindingFreeSettles(nodes[0], holds, resolve);
      BindingFreeSettlesAll(nodes[1..], holds, resolve);
    }
  }

  /** Rendering what was rendered in the same context changes nothing. */
  lemma {:induction false} RenderIsIdempotent(n: Node, holds: Context, resolve: Props -> Props)
    requires Settled(n, holds, resolve) && Visible(n, holds)
    ensures Render(Render(n, holds, resolve).value, holds, resolve) == Render(n, holds, resolve)
    decreases n
  {
    RenderChildrenIsIdempotent(n.children, holds, resolve);
    RenderLayoutIsIdempotent(n.layout, holds, resolve);
    var out := Render(n, holds, resolve).value;
    assert Visible(out, holds) && RenderLayout(out.layout, holds, resolve) == out.layout;
    assert RenderChildren(out.children, holds, resolve) == RenderChildren(n.children, holds, resolve);
  }

  lemma {:induction false} RenderLayoutIsIdempotent(layout: Layout, holds: Context, resolve: Props -> Props)
    requires layout.Layout? && layout.children.List? ==> AllSettled(layout.children.nodes, holds, resolve)
    ensures var out := RenderLayout(layout, holds, resolve); RenderLayout(out, holds, resolve) == out
    decreases layout
  {
    if layout.Layout? {
      RenderChildrenIsIdempotent(layout.children, holds, resolve);
      var items := RenderChildren(layout.children, holds, resolve);
      assert RenderLayout(Layout(layout.style, List(items)), holds, resolve) == Layout(layout.style, List(items));
    }
  }

  lemma {:induction false} RenderChildrenIsIdempotent(children: Children, holds: Context, resolve: Props -> Props)
    requires children.List? ==> AllSettled(children.nodes, holds, resolve)
    ensures var out := RenderChildren(children, holds, resolve);
            && RenderChildren(List(out), holds, resolve) == out
            && (out == [] ==> RenderChildren(Absent, holds, resolve) == out)
    decreases children
  {
    if children.List? {
      RenderListIsIdempotent(children.nodes, holds, resolve);
    }
    RenderedItems(List(RenderChildren(children, holds, resolve)), holds, resolve);
  }

  lemma {:induction false} RenderListIsIdempotent(nodes: seq<Node>, holds: Context, resolve: Props -> Props)
    requires AllSettled(nodes, holds, resolve)
    ensures var out := RenderList(nodes, holds, resolve); RenderList(out, holds, resolve) == out
    decreases nodes
  {
    if nodes != [] {
      var rest := RenderList(nodes[1..], holds, resolve);
      RenderListIsIdempotent(nodes[1..], holds, resolve);
      if Visible(nodes[0], holds) {
        RenderIsIdempotent(nodes[0], holds, resolve);
        var first := Render(nodes[0], holds, resolve).value;
        assert ([first] + rest)[1..] == rest;
      } else {
        assert RenderList(nodes, holds, resolve) == rest;
      }
    }
  }

  // ---------------------------------------------------------------- pages

  datatype DraftSection = DraftSection(
    id: string, kind: string, conditions: Option<Group>, config: Value, draftComponents: seq<Node>)

  datatype RenderedSection = RenderedSection(
    id: string, kind: string, conditions: Option<Group>, config: Value, components: seq<Node>)

  predicate SectionVisible(s: DraftSection, holds: Context) {
    s.conditions.Some? ==> EvaluateGroup(s.conditions.value, holds)
  }

  function RenderSection(s: DraftSection, holds: Context, resolve: Props -> Props): Option<RenderedSection> {
    if SectionVisible(s, holds)
    then Some(RenderedSection(s.id, s.kind, s.conditions, s.config, RenderList(s.draftComponents, holds, resolve)))
    else None
  }

  function RenderPage(sections: seq<DraftSection>, holds: Context, resolve: Props -> Props): seq<RenderedSection> {
    if sections == [] then []
    else
      var first := RenderSection(sections[0], holds, resolve);
      (if first.Some? then [first.value] else []) + RenderPage(sections[1..], holds, resolve)
  }

  /** A section is shown when it has no conditions or they hold, as itself with its components rendered. */
  lemma SectionMeaning(s: DraftSection, holds: Context, resolve: Props -> Props)
    ensures RenderPage([s], holds, resolve)
         == if s.conditions == None || EvaluateGroup(s.conditions.value, holds)
            then [RenderedSection(s.id, s.kind, s.conditions, s.config, RenderList(s.draftComponents, holds, resolve))]
            else []
  {
    assert [s][1..] == [];
  }

  /** A page renders section by section: any cut of the sections is a cut of what is shown. */
  lemma {:induction false} PageKeepsOrder(
    before: seq<DraftSection>, after: seq<DraftSection>, holds: Context, resolve: Props -> Props)
    ensures RenderPage(before + after, holds, resolve)
         == RenderPage(before, holds, resolve) + RenderPage(after, holds, resolve)
  {
    if before == [] {
      assert before + after == after;
    } else {
      var first := RenderSection(before[0], holds, resolve);
      var head := if first.Some? then [first.value] else [];
      assert (before + after)[0] == before[0] && (before + after)[1..] == before[1..] + after;
      PageKeepsOrder(before[1..], after, holds, resolve);
      PageRegroup(head, RenderPage(before[1..], holds, resolve), RenderPage(after, holds, resolve));
    }
  }

  lemma PageRegroup(a: seq<RenderedSection>, b: seq<RenderedSection>, c: seq<RenderedSection>)
    ensures a + (b + c) == a + b + c
  {
  }

  /** A rendered page taken as a draft again. */
  function AsDraft(sections: seq<RenderedSection>): seq<DraftSection> {
    if sections == [] then []
    else
      var s := sections[0];
      [DraftSection(s.id, s.kind, s.conditions, s.config, s.components)] + AsDraft(sections[1..])
  }

  lemma {:induction false} RenderPageIsIdempotent(sections: seq<DraftSection>, holds: Context, resolve: Props -> Props)
    requires forall s :: s in sections ==> AllSettled(s.draftComponents, holds, resolve)
    ensures var out := RenderPage(sections, holds, resolve); RenderPage(AsDraft(out), holds, resolve) == out
  {
    if sections != [] {
      var rest := RenderPage(sections[1..], holds, resolve);
      RenderPageIsIdempotent(sections[1..], holds, resolve);
      if SectionVisible(sections[0], holds) {
        RenderListIsIdempotent(sections[0].draftComponents, holds, resolve);
        var first := RenderSection(sections[0], holds, resolve).value;
        assert ([first] + rest)[1..] == rest;
      } else {
        assert RenderPage(sections, holds, resolve) == rest;
      }
    }
  }
}
