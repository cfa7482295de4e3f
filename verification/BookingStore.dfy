/** The booking service over its mutable tables. */
module BookingStore {
  import opened Options
  import opened Bookings
  import opened Slots

  class BookingService {
    const services: map<ServiceId, Service>
    var bookings: seq<Booking>
    var schedules: seq<Schedule>

    constructor (services: map<ServiceId, Service>, schedules: seq<Schedule>)
      ensures this.services == services && this.schedules == schedules && bookings == []
    {
      this.services := services;
      this.schedules := schedules;
      bookings := [];
    }

    method CreateBooking(tenant: TenantId, id: ServiceId, staff: Option<StaffId>, start: Instant)
      returns (r: Result<BookingId, Error>)
      modifies `bookings
      ensures bookings == Step(services, old(bookings), Create(tenant, id, staff, start))
      ensures match Bookings.CreateBooking(services, old(bookings), tenant, id, staff, start)
              case Ok(_) => r == Ok(|old(bookings)|)
              case Err(e) => r == Err(e)
    {
      if id !in services {
        return Err(ServiceNotFound);
      }
      var end := start + services[id].duration * MINUTE;
      var existing := Count(bookings, Rivals(tenant, id, staff, start, end));
      if existing >= services[id].capacity {
        return Err(NoAvailability);
      }
      r := Ok(|bookings|);
      bookings := bookings + [NewBooking(tenant, id, staff, start, end)];
    }

    method UpdateBookingStatus(id: BookingId, target: Option<Status>, reason: Option<string>, now: Instant)
      returns (r: Result<Booking, Error>)
      modifies `bookings
      ensures bookings == Step(services, old(bookings), Update(id, target, reason, now))
      ensures match Bookings.UpdateBookingStatus(old(bookings), id, target, reason, now)
              case Ok(after) => r == Ok(after[id])
              case Err(e) => r == Err(e)
    {
      if id >= |bookings| {
        return Err(BookingNotFound);
      }
      var booking := bookings[id];
      if target.None? || target.value !in Allowed(booking.status) {
        return Err(BadTransition(booking.status));
      }
      var updated := booking.(
        status := target.value,
        history := booking.history + [Change(Some(booking.status), target.value, reason)]);
      if target.value == Cancelled {
        updated := updated.(cancelReason := reason, cancelledAt := Some(now));
      }
      bookings := bookings[id := updated];
      r := Ok(updated);
    }

    /** The loop over a schedule; `at` builds the slot that starts at a minute. */
    method CollectSlots(at: int -> Slot, duration: int, open: int, close: int) returns (slots: seq<Slot>)
      requires LoopEnds(open, close, duration)
      ensures slots == SlotsFrom(at, duration, open, close)
    {
      slots := [];
      var m := open;
      while m + duration <= close
        invariant LoopEnds(m, close, duration)
        invariant SlotsFrom(at, duration, open, close) == slots + SlotsFrom(at, duration, m, close)
        decreases close - m
      {
        slots := slots + [at(m)];
        m := m + duration;
      }
    }

    /** Terminates, and yields for each schedule of the day the slots that fit. */
    method GetAvailableSlots(tenant: TenantId, id: ServiceId, day: Day, staff: Option<StaffId>)
      returns (r: Result<seq<Slot>, Error>)
      requires id in services ==>
        forall s :: s in schedules && Offers(s, tenant, day, staff) ==> LoopEnds(s.open, s.close, services[id].duration)
      ensures r == if id !in services then Err(ServiceNotFound)
                   else Ok(SlotList(services[id], bookings, schedules, tenant, id, staff, day))
    {
      if id !in services {
        return Err(ServiceNotFound);
      }
      var service := services[id];
      var offered := Filter(schedules, Offering(tenant, day, staff));
      if |offered| == 0 {
        return Ok([]);
      }
      var existing := Filter(bookings, Loads(tenant, id, staff, day));
      var slots: seq<Slot> := [];
      assert forall s :: s in offered ==> LoopEnds(s.open, s.close, service.duration);
      for i := 0 to |offered|
        invariant slots == DaySlots(service, existing, day, offered[..i])
      {
        assert offered[i] in offered;
        var more := CollectSlots(SlotAt(service, existing, day, offered[i].staff), service.duration,
                                 offered[i].open, offered[i].close);
        slots := slots + more;
        assert offered[..i + 1][..i] == offered[..i];
      }
      assert offered[..|offered|] == offered;
      return Ok(slots);
    }
  }
}
