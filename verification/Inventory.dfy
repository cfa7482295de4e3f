/**
 * Inventory: stock and reserved stock of products and variants, and the
 * reservations that move quantities between them.
 */
module Inventory {
  import opened Options

  type ReservationId = nat

  /** Stock is kept by a variant when one is named, and by its product otherwise. */
  datatype PoolId = Product(id: nat) | Variant(id: nat)

  datatype Pool = Pool(stock: int, reserved: int)

  datatype Status = Active | Released | Confirmed

  datatype Reservation = Reservation(product: nat, variant: Option<nat>, quantity: int, status: Status)

  datatype State = State(pools: map<PoolId, Pool>, reservations: seq<Reservation>)

  datatype Error =
    | ProductNotFound | VariantNotFound | ReservationNotFound | InsufficientStock(available: int) | RowMissing

  datatype StockInfo = StockInfo(total: int, reserved: int, available: int)

  function PoolOf(product: nat, variant: Option<nat>): PoolId {
    if variant.Some? then Variant(variant.value) else Product(product)
  }

  function PoolFor(r: Reservation): PoolId {
    PoolOf(r.product, r.variant)
  }

  // ---------------------------------------------------------------- operations

  function GetAvailableStock(s: State, product: nat, variant: Option<nat>): Result<StockInfo, Error> {
    var id := PoolOf(product, variant);
    if id !in s.pools then Err(if variant.Some? then VariantNotFound else ProductNotFound)
    else
      var free := s.pools[id].stock - s.pools[id].reserved;
      Ok(StockInfo(s.pools[id].stock, s.pools[id].reserved, if free > 0 then free else 0))
  }

  function Add(s: State, id: PoolId, stock: int, reserved: int): State
    requires id in s.pools
  {
    s.(pools := s.pools[id := Pool(s.pools[id].stock + stock, s.pools[id].reserved + reserved)])
  }

  function Reserve(s: State, product: nat, quantity: int, variant: Option<nat>): Result<State, Error> {
    if Product(product) !in s.pools then Err(ProductNotFound)
    else match GetAvailableStock(s, product, variant)
      case Err(e) => Err(e)
      case Ok(info) =>
        if info.available < quantity then Err(InsufficientStock(info.available))
        else
          var reservation := Reservation(product, variant, quantity, Active);
          Ok(Add(s, PoolOf(product, variant), 0, quantity).(reservations := s.reservations + [reservation]))
  }

  function Marked(s: State, id: ReservationId, status: Status): State
    requires id < |s.reservations|
  {
    s.(reservations := s.reservations[id := s.reservations[id].(status := status)])
  }

  /** A missing or inactive reservation counts as released already. */
  function Release(s: State, id: ReservationId): Result<State, Error> {
    if id >= |s.reservations| || s.reservations[id].status != Active then Ok(s)
    else
      var r := s.reservations[id];
      if PoolFor(r) !in s.pools then Err(RowMissing)
      else Ok(Marked(Add(s, PoolFor(r), 0, -r.quantity), id, Released))
  }

  /** The status of the reservation is not looked at. */
  function Confirm(s: State, id: ReservationId): Result<State, Error> {
    if id >= |s.reservations| then Err(ReservationNotFound)
    else
      var r := s.reservations[id];
      if PoolFor(r) !in s.pools then Err(RowMissing)
      else Ok(Marked(Add(s, PoolFor(r), -r.quantity, -r.quantity), id, Confirmed))
  }

  function Adjust(s: State, product: nat, delta: int, variant: Option<nat>): Result<State, Error> {
    var id := PoolOf(product, variant);
    if id !in s.pools then Err(if variant.Some? then VariantNotFound else ProductNotFound)
    else if s.pools[id].stock + delta < 0 then Err(InsufficientStock(s.pools[id].stock))
    else Ok(Add(s, id, delta, 0))
  }

  datatype Event =
    | Reserving(product: nat, quantity: int, variant: Option<nat>)
    | Releasing(id: ReservationId)
    | Confirming(id: ReservationId)
    | Adjusting(product: nat, delta: int, variant: Option<nat>)

  function Perform(s: State, e: Event): Result<State, Error> {
    match e
    case Reserving(product, quantity, variant) => Reserve(s, product, quantity, variant)
    case Releasing(id) => Release(s, id)
    case Confirming(id) => Confirm(s, id)
    case Adjusting(product, delta, variant) => Adjust(s, product, delta, variant)
  }

  /** A refused call changes nothing. */
  function Step(s: State, e: Event): State {
    if Perform(s, e).Ok? then Perform(s, e).value else s
  }

  function Run(s: State, events: seq<Event>): State
    decreases |events|
  {
    if events == [] then s else Run(Step(s, events[0]), events[1..])
  }

  // ---------------------------------------------------------------- sums over reservations

  /** What an active reservation holds of a pool. */
  function Hold(r: Reservation, id: PoolId): int {
    if r.status == Active && PoolFor(r) == id then r.quantity else 0
  }

  function ActiveSum(reservations: seq<Reservation>, id: PoolId): int {
    if reservations == [] then 0
    else ActiveSum(reservations[..|reservations| - 1], id) + Hold(reservations[|reservations| - 1], id)
  }

  lemma ActiveSumOfAppend(reservations: seq<Reservation>, r: Reservation, id: PoolId)
    ensures ActiveSum(reservations + [r], id) == ActiveSum(reservations, id) + Hold(r, id)
  {
    assert (reservations + [r])[..|reservations|] == reservations;
  }

  lemma {:induction false} ActiveSumOfUpdate(reservations: seq<Reservation>, i: nat, r: Reservation, id: PoolId)
    requires i < |reservations|
    ensures ActiveSum(reservations[i := r], id)
         == ActiveSum(reservations, id) - Hold(reservations[i], id) + Hold(r, id)
  {
    var last := |reservations| - 1;
    if i < last {
      ActiveSumOfUpdate(reservations[..last], i, r, id);
      assert reservations[i := r][..last] == reservations[..last][i := r];
    } else {
      assert reservations[i := r][..last] == reservations[..last];
    }
  }

  lemma {:induction false} ActiveSumBounds(reservations: seq<Reservation>, i: nat, id: PoolId)
    requires forall k :: 0 <= k < |reservations| ==> reservations[k].quantity >= 0
    ensures ActiveSum(reservations, id) >= 0
    ensures i < |reservations| ==> ActiveSum(reservations, id) >= Hold(reservations[i], id)
  {
    if reservations != [] {
      var last := |reservations| - 1;
      ActiveSumBounds(reservations[..last], i, id);
    }
  }

  // ---------------------------------------------------------------- the ledger

  /** Everything that calls have moved in or out of a pool. */
  datatype Ledger = Ledger(adjusted: int, taken: int, released: int, confirmed: int)

  const NOTHING: Ledger := Ledger(0, 0, 0, 0)

  function Plus(a: Ledger, b: Ledger): Ledger {
    Ledger(a.adjusted + b.adjusted, a.taken + b.taken, a.released + b.released, a.confirmed + b.confirmed)
  }

  /** What one successful call moves, by its request and the reservation it names. */
  function Movement(s: State, e: Event, id: PoolId): Ledger {
    if Perform(s, e).Err? then NOTHING
    else match e
      case Reserving(product, quantity, variant) =>
        if PoolOf(product, variant) == id then NOTHING.(taken := quantity) else NOTHING
      case Releasing(r) => if r < |s.reservations| then NOTHING.(released := Hold(s.reservations[r], id)) else NOTHING
      case Confirming(r) =>
        if r < |s.reservations| && PoolFor(s.reservations[r]) == id
        then NOTHING.(confirmed := s.reservations[r].quantity) else NOTHING
      case Adjusting(product, delta, variant) =>
        if PoolOf(product, variant) == id then NOTHING.(adjusted := delta) else NOTHING
  }

  function Movements(s: State, events: seq<Event>, id: PoolId): Ledger
    decreases |events|
  {
    if events == [] then NOTHING else Plus(Movement(s, events[0], id), Movements(Step(s, events[0]), events[1..], id))
  }

  lemma StepBalances(s: State, e: Event, id: PoolId)
    requires id in s.pools
    ensures var after, m := Step(s, e), Movement(s, e, id);
            && id in after.pools
            && after.pools[id].stock == s.pools[id].stock + m.adjusted - m.confirmed
            && after.pools[id].reserved == s.pools[id].reserved + m.taken - m.released - m.confirmed
  {
  }

  /** Over every run, stock and reserved stock are what was there plus what the calls moved. */
  lemma {:induction false} LedgerBalances(s: State, events: seq<Event>, id: PoolId)
    requires id in s.pools
    ensures var after, m := Run(s, events), Movements(s, events, id);
            && id in after.pools
            && after.pools[id].stock == s.pools[id].stock + m.adjusted - m.confirmed
            && after.pools[id].reserved == s.pools[id].reserved + m.taken - m.released - m.confirmed
    decreases |events|
  {
    if events != [] {
      StepBalances(s, events[0], id);
      LedgerBalances(Step(s, events[0]), events[1..], id);
    }
  }

  // ---------------------------------------------------------------- reserved stock and active reservations

  /** What a confirmation takes from a pool although its reservation is not active. */
  function Stray(s: State, e: Event, id: PoolId): int {
    if e.Confirming? && Perform(s, e).Ok?
       && s.reservations[e.id].status != Active && PoolFor(s.reservations[e.id]) == id
    then s.reservations[e.id].quantity else 0
  }

  function Strays(s: State, events: seq<Event>, id: PoolId): int
    decreases |events|
  {
    if events == [] then 0 else Stray(s, events[0], id) + Strays(Step(s, events[0]), events[1..], id)
  }

  /** Reserved stock that no active reservation accounts for. */
  function Excess(s: State, id: PoolId): int
    requires id in s.pools
  {
    s.pools[id].reserved - ActiveSum(s.reservations, id)
  }

  lemma StepExcess(s: State, e: Event, id: PoolId)
    requires id in s.pools
    ensures id in Step(s, e).pools && Excess(Step(s, e), id) == Excess(s, id) - Stray(s, e, id)
  {
    if Perform(s, e).Ok? {
      match e
      case Reserving(product, quantity, variant) =>
        ActiveSumOfAppend(s.reservations, Reservation(product, variant, quantity, Active), id);
      case Releasing(r) =>
        if r < |s.reservations| && s.reservations[r].status == Active {
          ActiveSumOfUpdate(s.reservations, r, s.reservations[r].(status := Released), id);
        }
      case Confirming(r) =>
        ActiveSumOfUpdate(s.reservations, r, s.reservations[r].(status := Confirmed), id);
      case Adjusting(_, _, _) =>
    }
  }

  /** Over every run, only stray confirmations separate reserved stock from the sum of active reservations. */
  lemma {:induction false} RunExcess(s: State, events: seq<Event>, id: PoolId)
    requires id in s.pools
    ensures id in Run(s, events).pools && Excess(Run(s, events), id) == Excess(s, id) - Strays(s, events, id)
    decreases |events|
  {
    if events != [] {
      StepExcess(s, events[0], id);
      RunExcess(Step(s, events[0]), events[1..], id);
    }
  }

  /** The callers' side: no confirmation of an inactive reservation, except of quantity zero. */
  ghost predicate OnlyActiveConfirmed(s: State, events: seq<Event>)
    decreases |events|
  {
    events != [] ==>
      (forall id :: Stray(s, events[0], id) == 0) && OnlyActiveConfirmed(Step(s, events[0]), events[1..])
  }

  ghost predicate NonNegative(s: State) {
    forall i :: 0 <= i < |s.reservations| ==> s.reservations[i].quantity >= 0
  }

  /** No request names a negative quantity. */
  predicate Sensible(events: seq<Event>) {
    forall i :: 0 <= i < |events| && events[i].Reserving? ==> events[i].quantity >= 0
  }

  lemma {:induction false} StraysAreNonNegative(s: State, events: seq<Event>, id: PoolId)
    requires NonNegative(s) && Sensible(events)
    ensures Strays(s, events, id) >= 0
    decreases |events|
  {
    if events != [] {
      StraysAreNonNegative(Step(s, events[0]), events[1..], id);
    }
  }

  ghost predicate NoStrays(s: State, events: seq<Event>) {
    forall id :: Strays(s, events, id) == 0
  }

  lemma {:induction false} NoStraysExactly(s: State, events: seq<Event>)
    requires NonNegative(s) && Sensible(events)
    ensures OnlyActiveConfirmed(s, events) <==> NoStrays(s, events)
    decreases |events|
  {
    if events != [] {
      var next := Step(s, events[0]);
      NoStraysExactly(next, events[1..]);
      forall id
        ensures Strays(s, events, id) == 0 <==> Stray(s, events[0], id) == 0 && Strays(next, events[1..], id) == 0
      {
        StraysAreNonNegative(next, events[1..], id);
      }
    }
  }

  lemma {:induction false} StraysOutside(s: State, events: seq<Event>, id: PoolId)
    requires id !in s.pools
    ensures Strays(s, events, id) == 0
    decreases |events|
  {
    if events != [] {
      StraysOutside(Step(s, events[0]), events[1..], id);
    }
  }

  /** A stock from which nothing is reserved yet. */
  predicate Fresh(s: State) {
    s.reservations == [] && forall id :: id in s.pools ==> s.pools[id].reserved == 0 && s.pools[id].stock >= 0
  }

  ghost predicate ReservedIsActive(s: State, pools: set<PoolId>) {
    forall id :: id in pools ==> id in s.pools && s.pools[id].reserved == ActiveSum(s.reservations, id)
  }

  /**
   * Reserved stock is the sum of active reservations in every pool exactly
   * when what stray confirmations took from each pool adds up to nothing.
   */
  lemma ReservedIsActiveSum(s: State, events: seq<Event>)
    requires Fresh(s)
    ensures ReservedIsActive(Run(s, events), s.pools.Keys) <==> NoStrays(s, events)
  {
    forall id
      ensures if id in s.pools then id in Run(s, events).pools
                && (Strays(s, events, id) == 0 <==>
                    Run(s, events).pools[id].reserved == ActiveSum(Run(s, events).reservations, id))
              else Strays(s, events, id) == 0
    {
      if id in s.pools {
        RunExcess(s, events, id);
      } else {
        StraysOutside(s, events, id);
      }
    }
    if !NoStrays(s, events) {
      var id :| Strays(s, events, id) != 0;
      assert id in s.pools;
    }
  }

  /** Without negative quantities: exactly when every confirmation found its reservation active (or empty). */
  lemma ReservedIsActiveSumExactly(s: State, events: seq<Event>)
    requires Fresh(s) && Sensible(events)
    ensures ReservedIsActive(Run(s, events), s.pools.Keys) <==> OnlyActiveConfirmed(s, events)
  {
    ReservedIsActiveSum(s, events);
    NoStraysExactly(s, events);
  }

  // ---------------------------------------------------------------- bounds

  /** An adjustment that takes stock below what is reserved. */
  predicate Undercuts(s: State, e: Event) {
    e.Adjusting? && Perform(s, e).Ok?
    && var pool := s.pools[PoolOf(e.product, e.variant)]; pool.stock + e.delta < pool.reserved
  }

  ghost predicate NeverUndercuts(s: State, events: seq<Event>)
    decreases |events|
  {
    events == [] || (!Undercuts(s, events[0]) && NeverUndercuts(Step(s, events[0]), events[1..]))
  }

  /** The release of an active reservation whose negative quantity is more than what is free. */
  predicate Overreleases(s: State, e: Event) {
    e.Releasing? && e.id < |s.reservations| && s.reservations[e.id].status == Active
    && var r := s.reservations[e.id];
       PoolFor(r) in s.pools && s.pools[PoolFor(r)].stock < s.pools[PoolFor(r)].reserved - r.quantity
  }

  predicate Oversells(s: State, e: Event) {
    Undercuts(s, e) || Overreleases(s, e)
  }

  ghost predicate Covered(s: State) {
    forall id :: id in s.pools ==> s.pools[id].reserved <= s.pools[id].stock
  }

  /**
   * A call leaves every pool covered exactly when it is neither an adjustment
   * below what is reserved nor such a release.
   */
  lemma CoveredExactly(s: State, e: Event)
    requires Covered(s)
    ensures Covered(Step(s, e)) <==> !Oversells(s, e)
  {
    var after := Step(s, e);
    if Undercuts(s, e) {
      assert PoolOf(e.product, e.variant) in after.pools;
    } else if Overreleases(s, e) {
      assert PoolFor(s.reservations[e.id]) in after.pools;
    }
  }

  ghost predicate AlwaysCovered(s: State, events: seq<Event>)
    decreases |events|
  {
    Covered(s) && (events != [] ==> AlwaysCovered(Step(s, events[0]), events[1..]))
  }

  ghost predicate NeverOversells(s: State, events: seq<Event>)
    decreases |events|
  {
    events == [] || (!Oversells(s, events[0]) && NeverOversells(Step(s, events[0]), events[1..]))
  }

  /** Nothing is promised that is not there, throughout a run, exactly when no call of the run oversells. */
  lemma {:induction false} NeverOversold(s: State, events: seq<Event>)
    requires Covered(s)
    ensures AlwaysCovered(s, events) <==> NeverOversells(s, events)
    decreases |events|
  {
    if events != [] {
      CoveredExactly(s, events[0]);
      if Covered(Step(s, events[0])) {
        NeverOversold(Step(s, events[0]), events[1..]);
      }
    }
  }

  /** Without negative quantities only adjustments can oversell. */
  lemma {:induction false} SensibleCalls(s: State, events: seq<Event>)
    requires Covered(s) && NonNegative(s) && Sensible(events) && NeverUndercuts(s, events)
    ensures NeverOversells(s, events) && Covered(Run(s, events)) && NonNegative(Run(s, events))
    decreases |events|
  {
    if events != [] {
      CoveredExactly(s, events[0]);
      SensibleCalls(Step(s, events[0]), events[1..]);
    }
  }

  /** A call that takes the reserved stock of its pool below zero. */
  predicate Sinks(s: State, e: Event) {
    Perform(s, e).Ok?
    && match e
       case Reserving(product, quantity, variant) => s.pools[PoolOf(product, variant)].reserved + quantity < 0
       case Releasing(r) =>
         r < |s.reservations| && s.reservations[r].status == Active
         && s.pools[PoolFor(s.reservations[r])].reserved < s.reservations[r].quantity
       case Confirming(r) => s.pools[PoolFor(s.reservations[r])].reserved < s.reservations[r].quantity
       case Adjusting(_, _, _) => false
  }

  ghost predicate Bounded(s: State) {
    forall id :: id in s.pools ==> 0 <= s.pools[id].reserved <= s.pools[id].stock
  }

  ghost predicate AlwaysBounded(s: State, events: seq<Event>)
    decreases |events|
  {
    Bounded(s) && (events != [] ==> AlwaysBounded(Step(s, events[0]), events[1..]))
  }

  ghost predicate NeverBreaks(s: State, events: seq<Event>)
    decreases |events|
  {
    events == []
    || (!Oversells(s, events[0]) && !Sinks(s, events[0]) && NeverBreaks(Step(s, events[0]), events[1..]))
  }

  /** The pool that a call is about. */
  function Target(s: State, e: Event): PoolId
    requires (e.Releasing? || e.Confirming?) ==> e.id < |s.reservations|
  {
    match e
    case Reserving(product, _, variant) => PoolOf(product, variant)
    case Releasing(r) => PoolFor(s.reservations[r])
    case Confirming(r) => PoolFor(s.reservations[r])
    case Adjusting(product, _, variant) => PoolOf(product, variant)
  }

  lemma BoundedExactly(s: State, e: Event)
    requires Bounded(s)
    ensures Bounded(Step(s, e)) <==> !Oversells(s, e) && !Sinks(s, e)
  {
    CoveredExactly(s, e);
    var after := Step(s, e);
    if Sinks(s, e) {
      assert after.pools[Target(s, e)].reserved < 0;
    } else if !Oversells(s, e) {
      forall id | id in after.pools ensures 0 <= after.pools[id].reserved <= after.pools[id].stock {
        assert id in s.pools && Covered(after);
      }
    } else {
      assert !Covered(after);
    }
  }

  /** Reserved stock stays between zero and stock, throughout a run, exactly when no call of the run breaks that. */
  lemma {:induction false} ReservedWithinStock(s: State, events: seq<Event>)
    requires Bounded(s)
    ensures AlwaysBounded(s, events) <==> NeverBreaks(s, events)
    decreases |events|
  {
    if events != [] {
      BoundedExactly(s, events[0]);
      if Bounded(Step(s, events[0])) {
        ReservedWithinStock(Step(s, events[0]), events[1..]);
      }
    }
  }

  /**
   * From a fresh stock this is so without negative quantities, undercutting
   * adjustments and confirmations of inactive reservations.
   */
  lemma CarefulCallers(s: State, events: seq<Event>, id: PoolId)
    requires Fresh(s) && Sensible(events) && NeverUndercuts(s, events) && OnlyActiveConfirmed(s, events)
    requires id in s.pools
    ensures var pools := Run(s, events).pools;
            id in pools && 0 <= pools[id].reserved <= pools[id].stock
  {
    ReservedIsActiveSumExactly(s, events);
    SensibleCalls(s, events);
    ActiveSumBounds(Run(s, events).reservations, 0, id);
  }

  /** A negative reservation is accepted, makes room for more than there is, and can be released. */
  lemma NegativeReservation()
    ensures var s := State(map[Product(1) := Pool(5, 0)], []);
            var after := Run(s, [Reserving(1, -3, None), Reserving(1, 8, None), Releasing(0)]);
            after.pools[Product(1)] == Pool(5, 8)
  {
    var s := State(map[Product(1) := Pool(5, 0)], []);
    var a, b, c := Reserving(1, -3, None), Reserving(1, 8, None), Releasing(0);
    var one := Step(s, a);
    assert one.pools[Product(1)] == Pool(5, -3);
    var two := Step(one, b);
    assert two.pools[Product(1)] == Pool(5, 5) && two.reservations[0].quantity == -3;
    var three := Step(two, c);
    assert three.pools[Product(1)] == Pool(5, 8);
    assert [a, b, c][1..] == [b, c] && [b, c][1..] == [c] && [c][1..] == [];
  }

  /** Confirming twice is accepted, and takes the reserved stock below zero. */
  lemma ConfirmedTwice()
    ensures var s := State(map[Product(1) := Pool(5, 0)], []);
            var after := Run(s, [Reserving(1, 2, None), Confirming(0), Confirming(0)]);
            after.pools[Product(1)] == Pool(1, -2) && ActiveSum(after.reservations, Product(1)) == 0
  {
  }
}
