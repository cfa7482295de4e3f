/** The action counter of the full walk, stated over positions of a screen. */
module ActionTheorems {
  import opened Options
  import opened Json
  import opened Compatibility
  import opened GateTheorems

  /** An object that the full walk reports on: no action key leads to it, and it is not too deep. */
  ghost predicate Owner(j: Value, p: Path, depth: nat) {
    Reachable(j, p, {"tapAction", "actions"}) && Exists(j, p) && At(j, p).Obj? && depth + |p| <= 40
  }

  /** An action by itself: a text `type` and a `payload`, and nothing that only components have. */
  predicate IsDefinition(j: Value) {
    && Get(j, "type").Some? && Get(j, "type").value.Str? && Given(j, "payload")
    && !Given(j, "props") && !Given(j, "children") && !Given(j, "layout") && !Given(j, "key")
  }

  lemma DefinitionShape(j: Value)
    ensures IsActionShape(j) <==> IsDefinition(j)
  {
    assert forall key :: Given(j, key) <==> Present(j, key);
    if HasAny(j, NOT_ON_ACTIONS) {
      var key :| key in NOT_ON_ACTIONS && Present(j, key);
    }
  }

  /** Position of the value that the property read `object.key` sees. */
  predicate Reads(o: Value, key: string, i: nat) {
    o.Obj? && i < |o.fields| && i == IndexOf(o.fields, key)
  }

  /**
   * An action definition on an object: the object itself, its `tapAction`, or
   * an entry of its `actions` array or map.
   */
  ghost predicate Declares(o: Value, r: Path) {
    || (r == [] && IsDefinition(o))
    || (|r| == 1 && Reads(o, "tapAction", r[0]) && HasString(Child(o, r[0]), "type"))
    || (|r| == 2 && Reads(o, "actions", r[0]) && r[1] < Arity(Child(o, r[0]))
        && HasString(Child(Child(o, r[0]), r[1]), "type"))
  }

  /** An action definition outside nested actions, owned by the object n steps down. */
  ghost predicate OwnedAt(j: Value, p: Path, n: nat, depth: nat) {
    n <= |p| && Owner(j, p[..n], depth) && Declares(At(j, p[..n]), p[n..])
  }

  ghost predicate ActionAt(j: Value, p: Path, depth: nat) {
    exists n: nat :: OwnedAt(j, p, n, depth)
  }

  // ---------------------------------------------------------------- definitions on one object

  ghost function SelfPosition(o: Value): set<Path> {
    if IsActionShape(o) then {[]} else {}
  }

  ghost function TapPosition(o: Value): set<Path>
    requires o.Obj?
  {
    var i := IndexOf(o.fields, "tapAction");
    if i < |o.fields| && HasString(o.fields[i].value, "type") then {[i]} else {}
  }

  ghost function EntryPositions(i: nat, actions: Value, n: nat): set<Path>
    requires n <= Arity(actions)
  {
    if n == 0 then {}
    else if HasString(Child(actions, n - 1), "type") then EntryPositions(i, actions, n - 1) + {[i, n - 1]}
    else EntryPositions(i, actions, n - 1)
  }

  ghost function ActionsPositions(o: Value): set<Path>
    requires o.Obj?
  {
    var i := IndexOf(o.fields, "actions");
    if i < |o.fields| then EntryPositions(i, o.fields[i].value, Arity(o.fields[i].value)) else {}
  }

  ghost function Declared(o: Value): set<Path>
    requires o.Obj?
  {
    SelfPosition(o) + TapPosition(o) + ActionsPositions(o)
  }

  lemma {:induction false} EntryMembership(i: nat, actions: Value, n: nat, p: Path)
    requires n <= Arity(actions)
    ensures p in EntryPositions(i, actions, n)
       <==> |p| == 2 && p[0] == i && p[1] < n && HasString(Child(actions, p[1]), "type")
  {
    if n > 0 {
      EntryMembership(i, actions, n - 1, p);
      assert p == [i, n - 1] <==> |p| == 2 && p[0] == i && p[1] == n - 1;
    }
  }

  lemma {:induction false} EntryCount(i: nat, actions: Value, n: nat)
    requires n <= Arity(actions)
    ensures |EntryPositions(i, actions, n)| == |EntryTypes(actions, n)|
  {
    if n > 0 {
      EntryCount(i, actions, n - 1);
      EntryMembership(i, actions, n - 1, [i, n - 1]);
    }
  }

  lemma DeclaredMembership(o: Value, p: Path)
    requires o.Obj?
    ensures p in Declared(o) <==> Declares(o, p)
  {
    DefinitionShape(o);
    var i := IndexOf(o.fields, "actions");
    if i < |o.fields| {
      EntryMembership(i, o.fields[i].value, Arity(o.fields[i].value), p);
    }
    var t := IndexOf(o.fields, "tapAction");
    assert p == [t] <==> |p| == 1 && p[0] == t;
  }

  lemma DeclaredCount(o: Value)
    requires o.Obj?
    ensures |Declared(o)| == |ActionTypesIn(o)|
  {
    var i := IndexOf(o.fields, "actions");
    if i < |o.fields| {
      EntryCount(i, o.fields[i].value, Arity(o.fields[i].value));
      forall p | p in ActionsPositions(o) ensures |p| == 2 {
        EntryMembership(i, o.fields[i].value, Arity(o.fields[i].value), p);
      }
    }
    var small := SelfPosition(o) + TapPosition(o);
    assert SelfPosition(o) !! TapPosition(o);
    assert small !! ActionsPositions(o);
  }

  // ---------------------------------------------------------------- definitions in a whole screen

  ghost function Actions(j: Value, depth: nat): set<Path>
    decreases j, Arity(j) + 1
  {
    if !IsStructure(j) || depth > MAX_WALK_DEPTH then {}
    else (if j.Obj? then Declared(j) else {}) + ActionsBelow(j, depth, Arity(j))
  }

  ghost function ActionsBelow(j: Value, depth: nat, n: nat): set<Path>
    requires n <= Arity(j)
    decreases j, n
  {
    if n == 0 then {}
    else if Open(j, n - 1, ACTION_KEYS) then
      ActionsBelow(j, depth, n - 1) + Under(n - 1, Actions(Child(j, n - 1), depth + 1))
    else ActionsBelow(j, depth, n - 1)
  }

  lemma {:induction false} ActionsBelowMembership(j: Value, depth: nat, n: nat, p: Path)
    requires n <= Arity(j)
    ensures p in ActionsBelow(j, depth, n)
       <==> p != [] && p[0] < n && Open(j, p[0], ACTION_KEYS) && p[1..] in Actions(Child(j, p[0]), depth + 1)
  {
    if n > 0 {
      ActionsBelowMembership(j, depth, n - 1, p);
      UnderMembership(n - 1, Actions(Child(j, n - 1), depth + 1), p);
    }
  }

  lemma OwnedBelow(j: Value, p: Path, n: nat, depth: nat)
    requires p != [] && 0 < n
    ensures OwnedAt(j, p, n, depth)
       <==> p[0] < Arity(j) && Open(j, p[0], ACTION_KEYS) && OwnedAt(Child(j, p[0]), p[1..], n - 1, depth + 1)
  {
    if n <= |p| {
      assert p[..n][1..] == p[1..][..n - 1];
      assert p[n..] == p[1..][n - 1..];
    }
  }

  lemma ActionsHereOrBelow(j: Value, p: Path, depth: nat)
    requires IsStructure(j) && depth <= MAX_WALK_DEPTH
    ensures p in Actions(j, depth)
       <==> (j.Obj? && p in Declared(j)) || (p != [] && p[0] < Arity(j) && Open(j, p[0], ACTION_KEYS)
                                             && p[1..] in Actions(Child(j, p[0]), depth + 1))
  {
    ActionsBelowMembership(j, depth, Arity(j), p);
  }

  lemma OwnedHereOrBelow(j: Value, p: Path, depth: nat)
    requires depth <= MAX_WALK_DEPTH
    ensures ActionAt(j, p, depth)
       <==> (j.Obj? && p in Declared(j)) || (p != [] && p[0] < Arity(j) && Open(j, p[0], ACTION_KEYS)
                                             && ActionAt(Child(j, p[0]), p[1..], depth + 1))
  {
    OwnedHere(j, p, depth);
    HereOrDeeper(j, p, depth);
    if p != [] {
      OwnedDeeper(j, p, depth);
    }
  }

  /** The walk counts exactly the action definitions outside nested actions. */
  lemma {:induction false} ActionsAreDefinitions(j: Value, p: Path, depth: nat)
    ensures p in Actions(j, depth) <==> ActionAt(j, p, depth)
    decreases p
  {
    if !IsStructure(j) || depth > MAX_WALK_DEPTH {
      NothingOwned(j, p, depth);
    } else {
      ActionsHereOrBelow(j, p, depth);
      OwnedHereOrBelow(j, p, depth);
      if p != [] && p[0] < Arity(j) {
        ActionsAreDefinitions(Child(j, p[0]), p[1..], depth + 1);
      }
    }
  }

  lemma HereOrDeeper(j: Value, p: Path, depth: nat)
    ensures ActionAt(j, p, depth) <==> OwnedAt(j, p, 0, depth) || exists n: nat :: 0 < n && OwnedAt(j, p, n, depth)
  {
  }

  lemma OwnedHere(j: Value, p: Path, depth: nat)
    requires depth <= MAX_WALK_DEPTH
    ensures OwnedAt(j, p, 0, depth) <==> j.Obj? && p in Declared(j)
  {
    assert p[..0] == [] && p[0..] == p;
    if j.Obj? {
      DeclaredMembership(j, p);
    }
  }

  lemma OwnedDeeper(j: Value, p: Path, depth: nat)
    requires p != []
    ensures (exists n: nat :: 0 < n && OwnedAt(j, p, n, depth))
       <==> p[0] < Arity(j) && Open(j, p[0], ACTION_KEYS) && ActionAt(Child(j, p[0]), p[1..], depth + 1)
  {
    if n: nat :| 0 < n && OwnedAt(j, p, n, depth) {
      OwnedBelow(j, p, n, depth);
    }
    if p[0] < Arity(j) && Open(j, p[0], ACTION_KEYS) && ActionAt(Child(j, p[0]), p[1..], depth + 1) {
      var n: nat :| OwnedAt(Child(j, p[0]), p[1..], n, depth + 1);
      OwnedBelow(j, p, n + 1, depth);
    }
  }

  lemma NothingOwned(j: Value, p: Path, depth: nat)
    requires !IsStructure(j) || depth > MAX_WALK_DEPTH
    ensures !ActionAt(j, p, depth)
  {
    if n: nat :| OwnedAt(j, p, n, depth) {
      assert false;
    }
  }

  function SumTo(part: nat -> nat, n: nat): nat {
    if n == 0 then 0 else SumTo(part, n - 1) + part(n - 1)
  }

  /** The positions of the first n parts, each below its own number. */
  ghost function UnionTo(part: nat -> set<Path>, n: nat): set<Path> {
    if n == 0 then {} else UnionTo(part, n - 1) + Under(n - 1, part(n - 1))
  }

  lemma {:induction false} UnionStart(part: nat -> set<Path>, n: nat)
    ensures forall p :: p in UnionTo(part, n) ==> p != [] && p[0] < n
  {
    if n > 0 {
      UnionStart(part, n - 1);
      UnderStart(n - 1, part(n - 1));
    }
  }

  lemma UnderStart(i: nat, s: set<Path>)
    ensures forall p :: p in Under(i, s) ==> p != [] && p[0] == i
  {
  }

  lemma UnionStep(part: nat -> set<Path>, n: nat)
    ensures |UnionTo(part, n + 1)| == |UnionTo(part, n)| + |part(n)|
  {
    UnionStart(part, n);
    AddedSize(UnionTo(part, n), n, part(n));
  }

  lemma {:induction false} UnionSize(counts: nat -> nat, part: nat -> set<Path>, n: nat)
    requires forall k: nat :: k < n ==> counts(k) == |part(k)|
    ensures SumTo(counts, n) == |UnionTo(part, n)|
  {
    if n > 0 {
      UnionSize(counts, part, n - 1);
      UnionStep(part, n - 1);
    }
  }

  function ChildCounts(j: Value, depth: nat): nat -> nat {
    (k: nat) => if k < Arity(j) && Open(j, k, ACTION_KEYS) then ActionCount(Child(j, k), depth + 1) else 0
  }

  ghost function ChildActions(j: Value, depth: nat): nat -> set<Path> {
    (k: nat) => if k < Arity(j) && Open(j, k, ACTION_KEYS) then Actions(Child(j, k), depth + 1) else {}
  }

  lemma {:induction false} CountBelowIsSum(j: Value, depth: nat, n: nat)
    requires n <= Arity(j)
    ensures ActionCountBelow(j, depth, n) == SumTo(ChildCounts(j, depth), n)
  {
    if n > 0 {
      CountBelowIsSum(j, depth, n - 1);
    }
  }

  lemma {:induction false} ActionsBelowIsUnion(j: Value, depth: nat, n: nat)
    requires n <= Arity(j)
    ensures ActionsBelow(j, depth, n) == UnionTo(ChildActions(j, depth), n)
  {
    if n > 0 {
      ActionsBelowIsUnion(j, depth, n - 1);
      ActionsBelowStep(j, depth, n - 1);
    }
  }

  lemma ActionsBelowStep(j: Value, depth: nat, n: nat)
    requires n < Arity(j)
    ensures ActionsBelow(j, depth, n + 1) == ActionsBelow(j, depth, n) + Under(n, ChildActions(j, depth)(n))
  {
    assert Under(n, {}) == {};
  }

  /** The counter equals the number of such positions: each is counted exactly once. */
  lemma {:induction false} ActionCountIsExact(j: Value, depth: nat)
    ensures ActionCount(j, depth) == |Actions(j, depth)|
    decreases j
  {
    if IsStructure(j) && depth <= MAX_WALK_DEPTH {
      forall k: nat | k < Arity(j)
        ensures ChildCounts(j, depth)(k) == |ChildActions(j, depth)(k)|
      {
        ActionCountIsExact(Child(j, k), depth + 1);
      }
      UnionSize(ChildCounts(j, depth), ChildActions(j, depth), Arity(j));
      CountBelowIsSum(j, depth, Arity(j));
      ActionsBelowIsUnion(j, depth, Arity(j));
      OwnAndBelow(j, depth);
    }
  }

  lemma OwnAndBelow(j: Value, depth: nat)
    requires IsStructure(j) && depth <= MAX_WALK_DEPTH
    requires ActionCountBelow(j, depth, Arity(j)) == |ActionsBelow(j, depth, Arity(j))|
    ensures ActionCount(j, depth) == |Actions(j, depth)|
  {
    if j.Obj? {
      DeclaredCount(j);
      forall p | p in Declared(j) ensures p !in ActionsBelow(j, depth, Arity(j)) {
        DeclaredMembership(j, p);
        ActionsBelowMembership(j, depth, Arity(j), p);
      }
      assert Declared(j) !! ActionsBelow(j, depth, Arity(j));
    }
  }

  // ---------------------------------------------------------------- warnings

  /** The value at the position is of this type. */
  ghost predicate Names(j: Value, p: Path, type_: string) {
    Exists(j, p) && Get(At(j, p), "type") == Some(Str(type_))
  }

  lemma NamesBelow(j: Value, i: nat, q: Path, type_: string)
    ensures Names(j, [i] + q, type_) <==> i < Arity(j) && Names(Child(j, i), q, type_)
  {
    assert ([i] + q)[1..] == q;
  }

  lemma {:induction false} EntryNamed(i: nat, actions: Value, n: nat, type_: string) returns (k: nat)
    requires n <= Arity(actions) && type_ in EntryTypes(actions, n)
    ensures k < n && Get(Child(actions, k), "type") == Some(Str(type_)) && [i, k] in EntryPositions(i, actions, n)
  {
    k := n - 1;
    if type_ in EntryTypes(actions, n - 1) {
      k := EntryNamed(i, actions, n - 1, type_);
    }
    EntryMembership(i, actions, n, [i, k]);
  }

  lemma {:induction false} EntryListed(actions: Value, n: nat, k: nat, type_: string)
    requires k < n <= Arity(actions) && Get(Child(actions, k), "type") == Some(Str(type_))
    ensures type_ in EntryTypes(actions, n)
  {
    if k < n - 1 {
      EntryListed(actions, n - 1, k, type_);
    }
  }

  /** A type declared on an object is that of one of its definitions. */
  lemma TypeFound(o: Value, type_: string) returns (r: Path)
    requires o.Obj? && type_ in ActionTypesIn(o)
    ensures r in Declared(o) && Names(o, r, type_)
  {
    var t, a := IndexOf(o.fields, "tapAction"), IndexOf(o.fields, "actions");
    if IsActionShape(o) && type_ == TypeOf(o) {
      r := [];
    } else if t < |o.fields| && type_ in TypeIfAny(o.fields[t].value) {
      r := [t];
      NamesBelow(o, t, [], type_);
      assert [t] + [] == [t];
    } else {
      var actions := o.fields[a].value;
      var k := EntryNamed(a, actions, Arity(actions), type_);
      r := [a, k];
      NamesBelow(actions, k, [], type_);
      NamesBelow(o, a, [k], type_);
      assert [a] + [k] == [a, k] && [k] + [] == [k];
    }
  }

  lemma OwnTypeIn(o: Value, type_: string)
    requires IsActionShape(o) && TypeOf(o) == type_
    ensures type_ in ActionTypesIn(o)
  {
    assert ActionTypesIn(o)[0] == type_;
  }

  lemma TapTypeIn(o: Value, tap: Value, type_: string)
    requires Get(o, "tapAction") == Some(tap) && Get(tap, "type") == Some(Str(type_))
    ensures type_ in ActionTypesIn(o)
  {
    assert type_ in TypeIfAny(tap);
  }

  lemma EntryTypeIn(o: Value, actions: Value, type_: string)
    requires Get(o, "actions") == Some(actions) && type_ in EntryTypes(actions, Arity(actions))
    ensures type_ in ActionTypesIn(o)
  {
  }

  /** And the type of each definition is declared. */
  lemma TypeListed(o: Value, r: Path, type_: string)
    requires o.Obj? && r in Declared(o) && Names(o, r, type_)
    ensures type_ in ActionTypesIn(o)
  {
    DeclaredMembership(o, r);
    if r == [] {
      DefinitionShape(o);
      OwnTypeIn(o, type_);
    } else if |r| == 1 {
      NamesBelow(o, r[0], [], type_);
      assert [r[0]] + [] == r;
      TapTypeIn(o, Child(o, r[0]), type_);
    } else {
      EntryIsListed(o, r[0], r[1], r, type_);
      EntryTypeIn(o, Child(o, r[0]), type_);
    }
  }

  lemma EntryIsListed(o: Value, a: nat, k: nat, r: Path, type_: string)
    requires r == [a, k] && Reads(o, "actions", a) && Names(o, r, type_)
    ensures k < Arity(Child(o, a)) && type_ in EntryTypes(Child(o, a), Arity(Child(o, a)))
  {
    var actions := Child(o, a);
    assert [a] + [k] == r && [k] + [] == [k];
    NamesBelow(o, a, [k], type_);
    NamesBelow(actions, k, [], type_);
    EntryListed(actions, Arity(actions), k, type_);
  }

  lemma {:induction false} UnsupportedExactly(c: Contract, types: seq<string>, type_: string)
    ensures type_ in Unsupported(c, types) <==> type_ in types && type_ !in c.actions
  {
    if types != [] {
      var n := |types| - 1;
      UnsupportedExactly(c, types[..n], type_);
      assert types == types[..n] + [types[n]];
    }
  }

  lemma {:induction false} WarningBelow(c: Contract, j: Value, depth: nat, n: nat, type_: string) returns (i: nat)
    requires n <= Arity(j) && type_ in ActionWarningsBelow(c, j, depth, n)
    ensures i < n && Open(j, i, ACTION_KEYS) && type_ in ActionWarnings(c, Child(j, i), depth + 1)
    decreases n
  {
    i := n - 1;
    if type_ in ActionWarningsBelow(c, j, depth, n - 1) {
      i := WarningBelow(c, j, depth, n - 1, type_);
    }
  }

  lemma {:induction false} WarnsBelow(c: Contract, j: Value, depth: nat, n: nat, i: nat, type_: string)
    requires i < n <= Arity(j) && Open(j, i, ACTION_KEYS) && type_ in ActionWarnings(c, Child(j, i), depth + 1)
    ensures type_ in ActionWarningsBelow(c, j, depth, n)
    decreases n
  {
    if i < n - 1 {
      WarnsBelow(c, j, depth, n - 1, i, type_);
    }
  }

  /** Where a warning of the walk comes from. */
  lemma WarningSource(c: Contract, j: Value, depth: nat, type_: string)
    requires IsStructure(j) && depth <= MAX_WALK_DEPTH
    ensures type_ in ActionWarnings(c, j, depth)
       <==> || (j.Obj? && type_ in ActionTypesIn(j) && type_ !in c.actions)
            || type_ in ActionWarningsBelow(c, j, depth, Arity(j))
  {
    if j.Obj? {
      UnsupportedExactly(c, ActionTypesIn(j), type_);
    }
  }

  lemma WarningRises(j: Value, i: nat, q: Path, depth: nat, type_: string) returns (p: Path)
    requires depth <= MAX_WALK_DEPTH && i < Arity(j) && Open(j, i, ACTION_KEYS)
    requires ActionAt(Child(j, i), q, depth + 1) && Names(Child(j, i), q, type_)
    ensures ActionAt(j, p, depth) && Names(j, p, type_)
  {
    p := [i] + q;
    assert ([i] + q)[1..] == q;
    NamesBelow(j, i, q, type_);
    OwnedHereOrBelow(j, [i] + q, depth);
  }

  lemma ActionFalls(j: Value, p: Path, depth: nat, type_: string)
    requires depth <= MAX_WALK_DEPTH && ActionAt(j, p, depth) && Names(j, p, type_)
    requires !(j.Obj? && p in Declared(j))
    ensures p != [] && p[0] < Arity(j) && Open(j, p[0], ACTION_KEYS)
    ensures ActionAt(Child(j, p[0]), p[1..], depth + 1) && Names(Child(j, p[0]), p[1..], type_)
  {
    OwnedHereOrBelow(j, p, depth);
    NameFalls(j, p, type_);
  }

  lemma NameFalls(j: Value, p: Path, type_: string)
    requires p != [] && Names(j, p, type_)
    ensures p[0] < Arity(j) && Names(Child(j, p[0]), p[1..], type_)
  {
  }

  lemma OwnWarning(j: Value, depth: nat, type_: string) returns (p: Path)
    requires j.Obj? && depth <= MAX_WALK_DEPTH && type_ in ActionTypesIn(j)
    ensures ActionAt(j, p, depth) && Names(j, p, type_)
  {
    p := TypeFound(j, type_);
    OwnedHere(j, p, depth);
  }

  /** A warning is of a type declared on the object itself, or comes from a child. */
  lemma WarningWhere(c: Contract, j: Value, depth: nat, type_: string) returns (below: Option<nat>)
    requires type_ in ActionWarnings(c, j, depth)
    ensures depth <= MAX_WALK_DEPTH
    ensures match below
            case None => j.Obj? && type_ in ActionTypesIn(j) && type_ !in c.actions
            case Some(i) =>
              i < Arity(j) && Open(j, i, ACTION_KEYS) && type_ in ActionWarnings(c, Child(j, i), depth + 1)
  {
    WarningSource(c, j, depth, type_);
    below := None;
    if type_ in ActionWarningsBelow(c, j, depth, Arity(j)) {
      var i := WarningBelow(c, j, depth, Arity(j), type_);
      below := Some(i);
    }
  }

  lemma {:induction false} WarningHasAction(c: Contract, j: Value, depth: nat, type_: string) returns (p: Path)
    requires type_ in ActionWarnings(c, j, depth)
    ensures type_ !in c.actions && ActionAt(j, p, depth) && Names(j, p, type_)
    decreases j
  {
    var below := WarningWhere(c, j, depth, type_);
    match below {
      case None => p := OwnWarning(j, depth, type_);
      case Some(i) =>
        var q := WarningHasAction(c, Child(j, i), depth + 1, type_);
        p := WarningRises(j, i, q, depth, type_);
    }
  }

  lemma {:induction false} ActionIsWarned(c: Contract, j: Value, depth: nat, p: Path, type_: string)
    requires ActionAt(j, p, depth) && Names(j, p, type_) && type_ !in c.actions
    ensures type_ in ActionWarnings(c, j, depth)
    decreases p
  {
    if !IsStructure(j) || depth > MAX_WALK_DEPTH {
      NothingOwned(j, p, depth);
    } else {
      WarningSource(c, j, depth, type_);
      if j.Obj? && p in Declared(j) {
        TypeListed(j, p, type_);
      } else {
        ActionFalls(j, p, depth, type_);
        ActionIsWarned(c, Child(j, p[0]), depth + 1, p[1..], type_);
        WarnsBelow(c, j, depth, Arity(j), p[0], type_);
      }
    }
  }

  /** An action of this type is defined outside nested actions. */
  ghost predicate Defines(j: Value, depth: nat, type_: string) {
    exists p :: ActionAt(j, p, depth) && Names(j, p, type_)
  }

  /** The walk warns of a type exactly when the contract does not publish it and some definition has it. */
  lemma WarnedExactly(c: Contract, j: Value, depth: nat, type_: string)
    ensures type_ in ActionWarnings(c, j, depth) <==> type_ !in c.actions && Defines(j, depth, type_)
  {
    if type_ in ActionWarnings(c, j, depth) {
      var p := WarningHasAction(c, j, depth, type_);
    }
    if type_ !in c.actions && Defines(j, depth, type_) {
      var p :| ActionAt(j, p, depth) && Names(j, p, type_);
      ActionIsWarned(c, j, depth, p, type_);
    }
  }

  lemma {:induction false} ScreenWarned(c: Contract, screens: seq<Value>, n: nat, type_: string) returns (i: nat)
    requires n <= |screens| && type_ in ScreenWarnings(c, screens, n)
    ensures i < n && type_ in ActionWarnings(c, screens[i], 0)
    decreases n
  {
    i := n - 1;
    if type_ in ScreenWarnings(c, screens, n - 1) {
      i := ScreenWarned(c, screens, n - 1, type_);
    }
  }

  lemma {:induction false} ScreenWarns(c: Contract, screens: seq<Value>, n: nat, i: nat, type_: string)
    requires i < n <= |screens| && type_ in ActionWarnings(c, screens[i], 0)
    ensures type_ in ScreenWarnings(c, screens, n)
    decreases n
  {
    if i < n - 1 {
      ScreenWarns(c, screens, n - 1, i, type_);
    }
  }

  /** Over all screens: the warnings of an evaluation are the unpublished types that some screen defines. */
  lemma ScreensWarnedExactly(c: Contract, screens: seq<Value>, n: nat, type_: string)
    requires n <= |screens|
    ensures type_ in ScreenWarnings(c, screens, n) <==>
            type_ !in c.actions && exists i :: 0 <= i < n && Defines(screens[i], 0, type_)
  {
    if type_ in ScreenWarnings(c, screens, n) {
      var i := ScreenWarned(c, screens, n, type_);
      WarnedExactly(c, screens[i], 0, type_);
    } else if i :| 0 <= i < n && Defines(screens[i], 0, type_) {
      WarnedExactly(c, screens[i], 0, type_);
      if type_ !in c.actions {
        ScreenWarns(c, screens, n, i, type_);
      }
    }
  }
}
