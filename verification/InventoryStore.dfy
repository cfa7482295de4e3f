/** The inventory part of the commerce service over its mutable tables, statement by statement. */
module InventoryStore {
  import opened Options
  import opened Inventory

  class InventoryService {
    var pools: map<PoolId, Pool>
    var reservations: seq<Reservation>

    constructor (pools: map<PoolId, Pool>)
      ensures State() == Inventory.State(pools, [])
    {
      this.pools, reservations := pools, [];
    }

    ghost function State(): Inventory.State
      reads this
    {
      Inventory.State(pools, reservations)
    }

    method GetAvailableStock(product: nat, variant: Option<nat>) returns (r: Result<StockInfo, Error>)
      ensures r == Inventory.GetAvailableStock(State(), product, variant)
      ensures r.Ok? ==> r.value.available >= 0 && r.value.available >= r.value.total - r.value.reserved
    {
      if variant.Some? {
        if Variant(variant.value) !in pools {
          return Err(VariantNotFound);
        }
        var row := pools[Variant(variant.value)];
        return Ok(StockInfo(row.stock, row.reserved, if row.stock > row.reserved then row.stock - row.reserved else 0));
      }
      if Product(product) !in pools {
        return Err(ProductNotFound);
      }
      var row := pools[Product(product)];
      return Ok(StockInfo(row.stock, row.reserved, if row.stock > row.reserved then row.stock - row.reserved else 0));
    }

    /** One row update; refused when the row is missing. */
    method Increment(id: PoolId, stock: int, reserved: int) returns (ok: bool)
      modifies `pools
      ensures ok <==> id in old(pools)
      ensures State() == if ok then Add(old(State()), id, stock, reserved) else old(State())
    {
      ok := id in pools;
      if ok {
        pools := pools[id := Pool(pools[id].stock + stock, pools[id].reserved + reserved)];
      }
    }

    method ReserveInventory(product: nat, quantity: int, variant: Option<nat>) returns (r: Result<ReservationId, Error>)
      modifies this
      ensures State() == Step(old(State()), Reserving(product, quantity, variant))
      ensures match Reserve(old(State()), product, quantity, variant)
              case Ok(_) => r == Ok(|old(reservations)|)
              case Err(e) => r == Err(e)
    {
      if Product(product) !in pools {
        return Err(ProductNotFound);
      }
      var info := GetAvailableStock(product, variant);
      if info.Err? {
        return Err(info.error);
      }
      if info.value.available < quantity {
        return Err(InsufficientStock(info.value.available));
      }
      r := Ok(|reservations|);
      reservations := reservations + [Reservation(product, variant, quantity, Active)];
      var _ := Increment(PoolOf(product, variant), 0, quantity);
    }

    method ReleaseReservation(id: ReservationId) returns (r: Result<bool, Error>)
      modifies this
      ensures State() == Step(old(State()), Releasing(id))
      ensures match Release(old(State()), id)
              case Ok(after) => r == Ok(after != old(State()))
              case Err(e) => r == Err(e)
    {
      if id >= |reservations| || reservations[id].status != Active {
        return Ok(false);
      }
      var reservation := reservations[id];
      var ok := Increment(PoolFor(reservation), 0, -reservation.quantity);
      if !ok {
        return Err(RowMissing);
      }
      reservations := reservations[id := reservation.(status := Released)];
      assert reservations[id] != old(reservations)[id];
      return Ok(true);
    }

    method ConfirmReservation(id: ReservationId) returns (r: Result<(), Error>)
      modifies this
      ensures State() == Step(old(State()), Confirming(id))
      ensures match Confirm(old(State()), id)
              case Ok(_) => r == Ok(())
              case Err(e) => r == Err(e)
    {
      if id >= |reservations| {
        return Err(ReservationNotFound);
      }
      var reservation := reservations[id];
      var ok := Increment(PoolFor(reservation), -reservation.quantity, -reservation.quantity);
      if !ok {
        return Err(RowMissing);
      }
      reservations := reservations[id := reservation.(status := Confirmed)];
      return Ok(());
    }

    method AdjustStock(product: nat, delta: int, variant: Option<nat>) returns (r: Result<Pool, Error>)
      modifies this
      ensures State() == Step(old(State()), Adjusting(product, delta, variant))
      ensures match Adjust(old(State()), product, delta, variant)
              case Ok(after) => r == Ok(after.pools[PoolOf(product, variant)])
              case Err(e) => r == Err(e)
    {
      var id := PoolOf(product, variant);
      if id !in pools {
        return Err(if variant.Some? then VariantNotFound else ProductNotFound);
      }
      var newStock := pools[id].stock + delta;
      if newStock < 0 {
        return Err(InsufficientStock(pools[id].stock));
      }
      pools := pools[id := pools[id].(stock := newStock)];
      return Ok(pools[id]);
    }
  }
}
