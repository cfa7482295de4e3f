/** When each inventory call is refused, and what it writes when it is not. */
module InventoryAnswers {
  import opened Options
  import opened Inventory

  /** What the call is about is known: the named variant, or else the product. */
  predicate Known(s: State, product: nat, variant: Option<nat>) {
    match variant
    case Some(v) => Variant(v) in s.pools
    case None => Product(product) in s.pools
  }

  function Place(product: nat, variant: Option<nat>): PoolId {
    match variant
    case Some(v) => Variant(v)
    case None => Product(product)
  }

  /** The same pools, but for the stock and the reserved stock of one of them. */
  ghost predicate OnlyPool(before: State, after: State, id: PoolId, stock: int, reserved: int) {
    && after.pools.Keys == before.pools.Keys && id in after.pools && after.pools[id] == Pool(stock, reserved)
    && forall other :: other in before.pools && other != id ==> after.pools[other] == before.pools[other]
  }

  /** The same reservations, but for the status of one of them. */
  ghost predicate OnlyStatus(before: State, after: State, id: ReservationId, status: Status) {
    && id < |before.reservations| == |after.reservations|
    && after.reservations[id] == before.reservations[id].(status := status)
    && forall i :: 0 <= i < |before.reservations| && i != id ==> after.reservations[i] == before.reservations[i]
  }

  /** What is free is stock less reserved stock, and nothing when more is reserved than there is. */
  lemma AvailableExactly(s: State, product: nat, variant: Option<nat>)
    ensures var r := GetAvailableStock(s, product, variant);
            if !Known(s, product, variant) then r == Err(if variant == None then ProductNotFound else VariantNotFound)
            else
              var pool := s.pools[Place(product, variant)];
              && r.Ok? && r.value.total == pool.stock && r.value.reserved == pool.reserved && r.value.available >= 0
              && (pool.stock >= pool.reserved ==> r.value.available == pool.stock - pool.reserved)
              && (pool.stock < pool.reserved ==> r.value.available == 0)
  {
  }

  /**
   * A reservation is refused exactly when the product or the named variant is
   * missing, or the quantity is more than zero and more than what is free.
   */
  lemma ReservedExactly(s: State, product: nat, quantity: int, variant: Option<nat>)
    ensures var r := Reserve(s, product, quantity, variant);
            if Product(product) !in s.pools then r == Err(ProductNotFound)
            else if !Known(s, product, variant) then r == Err(VariantNotFound)
            else
              var id := Place(product, variant);
              var (stock, reserved) := (s.pools[id].stock, s.pools[id].reserved);
              if quantity > 0 && reserved + quantity > stock
              then r == Err(InsufficientStock(if reserved < stock then stock - reserved else 0))
              else
                && r.Ok? && OnlyPool(s, r.value, id, stock, reserved + quantity)
                && r.value.reservations == s.reservations + [Reservation(product, variant, quantity, Active)]
  {
  }

  /** A release gives back what an active reservation holds, once; of any other reservation it changes nothing. */
  lemma ReleasedExactly(s: State, id: ReservationId)
    ensures var r := Release(s, id);
            if id < |s.reservations| && s.reservations[id].status == Active then
              var held := s.reservations[id];
              var place := Place(held.product, held.variant);
              if place !in s.pools then r == Err(RowMissing)
              else
                && r.Ok? && OnlyStatus(s, r.value, id, Released)
                && OnlyPool(s, r.value, place, s.pools[place].stock, s.pools[place].reserved - held.quantity)
                && Release(r.value, id) == r
            else r == Ok(s)
  {
  }

  /** A confirmation takes the quantity from stock and reserved stock, whatever the reservation's status. */
  lemma ConfirmedExactly(s: State, id: ReservationId)
    ensures var r := Confirm(s, id);
            if id >= |s.reservations| then r == Err(ReservationNotFound)
            else
              var held := s.reservations[id];
              var place := Place(held.product, held.variant);
              if place !in s.pools then r == Err(RowMissing)
              else
                && r.Ok? && OnlyStatus(s, r.value, id, Confirmed)
                && OnlyPool(s, r.value, place,
                            s.pools[place].stock - held.quantity, s.pools[place].reserved - held.quantity)
  {
  }

  /** An adjustment is refused exactly when there is no such stock, or less than nothing would be left of it. */
  lemma AdjustedExactly(s: State, product: nat, delta: int, variant: Option<nat>)
    ensures var r := Adjust(s, product, delta, variant);
            if !Known(s, product, variant) then r == Err(if variant == None then ProductNotFound else VariantNotFound)
            else
              var id := Place(product, variant);
              var (stock, reserved) := (s.pools[id].stock, s.pools[id].reserved);
              if stock + delta < 0 then r == Err(InsufficientStock(stock))
              else
                && r.Ok? && OnlyPool(s, r.value, id, stock + delta, reserved)
                && r.value.reservations == s.reservations
  {
  }

  /** No stock is below zero. */
  ghost predicate StockIsThere(s: State) {
    forall id :: id in s.pools ==> s.pools[id].stock >= 0
  }

  /** The call confirms more than is in stock. */
  predicate Oversells(s: State, e: Event) {
    && e.Confirming? && e.id < |s.reservations|
    && var r := s.reservations[e.id];
       var place := Place(r.product, r.variant);
       place in s.pools && s.pools[place].stock < r.quantity
  }

  /** No adjustment ever makes stock negative: only confirming more than is in stock does. */
  lemma StockStaysExactly(s: State, e: Event)
    requires StockIsThere(s)
    ensures StockIsThere(Step(s, e)) <==> !Oversells(s, e)
  {
    if Oversells(s, e) {
      var r := s.reservations[e.id];
      assert Step(s, e).pools[Place(r.product, r.variant)].stock < 0;
    }
  }
}
