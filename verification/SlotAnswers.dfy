/** The slots a query is answered with, schedule by schedule and position by position. */
module SlotAnswers {
  import opened Options
  import opened Bookings
  import opened Slots
  import opened BookingAnswers

  /** An active schedule of the tenant for the day, and for the staff member when one is named. */
  predicate Serves(s: Schedule, tenant: TenantId, staff: Option<StaffId>, day: Day) {
    && s.tenant == tenant && s.isActive && (staff == None || s.staff == staff)
    && (s.isRecurring ==> s.weekday == Some(day.weekday))
    && (!s.isRecurring ==> s.date == Some(day.instant))
  }

  /** The booking lies between the midnights of the day. */
  predicate LiesInDay(b: Booking, day: Day) {
    day.midnight <= b.start && b.end < day.midnight + 24 * 60 * 60000
  }

  /** No booking that takes a place and lies in the day shares an instant with these minutes of the day. */
  ghost predicate IsFree(
    bookings: seq<Booking>, tenant: TenantId, id: ServiceId, staff: Option<StaffId>, day: Day, from: int, to: int)
  {
    forall b :: b in bookings && TakesPlace(b, tenant, id, staff) && LiesInDay(b, day) ==>
      !SharesInstant(b, day.midnight + from * 60000, day.midnight + to * 60000)
  }

  lemma MinuteOfDay(day: Day, m: nat)
    ensures SlotInstant(day, m) == day.midnight + m * 60000
  {
    assert m / 60 * 60 + m % 60 == m;
  }

  /** The mark of a slot that starts at or after midnight. */
  lemma MarkedExactly(
    service: Service, bookings: seq<Booking>, tenant: TenantId, id: ServiceId, staff: Option<StaffId>, day: Day, m: nat)
    requires NonEmpty(bookings, id) && service.duration > 0
    ensures Available(service, Filter(bookings, Loads(tenant, id, staff, day)), day, m)
       <==> service.capacity > 0 && IsFree(bookings, tenant, id, staff, day, m, m + service.duration)
  {
    var existing := Filter(bookings, Loads(tenant, id, staff, day));
    var from, to := SlotInstant(day, m), SlotInstant(day, m + service.duration);
    AvailableMeansFree(service, existing, day, m);
    MinuteOfDay(day, m);
    MinuteOfDay(day, m + service.duration);
    forall b | b in bookings
      ensures b.service == id ==> (Overlaps(b, from, to) <==> SharesInstant(b, from, to))
      ensures b in existing <==> TakesPlace(b, tenant, id, staff) && LiesInDay(b, day)
    {
      var i :| 0 <= i < |bookings| && bookings[i] == b;
      if b.service == id {
        OverlapIsSharedInstant(b, from, to);
      }
    }
  }

  lemma {:induction false} SlotAtPosition<T>(at: int -> T, duration: int, open: int, close: int, k: nat)
    requires duration > 0 && k < |SlotsFrom(at, duration, open, close)|
    ensures SlotsFrom(at, duration, open, close)[k] == at(open + k * duration)
    decreases k
  {
    if k > 0 {
      SlotAtPosition(at, duration, open + duration, close, k - 1);
      assert open + duration + (k - 1) * duration == open + k * duration;
    }
  }

  lemma ListOfOne(
    service: Service, bookings: seq<Booking>, schedule: Schedule,
    tenant: TenantId, id: ServiceId, staff: Option<StaffId>, day: Day)
    requires service.duration > 0
    ensures SlotList(service, bookings, [schedule], tenant, id, staff, day)
         == if Serves(schedule, tenant, staff, day)
            then ScheduleSlots(service, Filter(bookings, Loads(tenant, id, staff, day)), day, schedule) else []
  {
    var existing := Filter(bookings, Loads(tenant, id, staff, day));
    assert [schedule][1..] == [] && [schedule][..0] == [];
    assert DaySlots(service, existing, day, []) == [];
    if Serves(schedule, tenant, staff, day) {
      assert Filter([schedule], Offering(tenant, day, staff)) == [schedule];
      var slots := ScheduleSlots(service, existing, day, schedule);
      assert DaySlots(service, existing, day, [schedule]) == [] + slots == slots;
    } else {
      assert Filter([schedule], Offering(tenant, day, staff)) == [];
    }
  }

  /** The k-th slot of a schedule: where it starts and ends, whose it is, and when it is marked available. */
  ghost predicate Placed(
    service: Service, bookings: seq<Booking>, schedule: Schedule,
    tenant: TenantId, id: ServiceId, staff: Option<StaffId>, day: Day, slot: Slot, k: nat)
  {
    && slot.start == schedule.open + k * service.duration && slot.end == slot.start + service.duration
    && slot.staff == schedule.staff
    && (schedule.open >= 0 ==>
          (slot.available <==>
           service.capacity > 0 && IsFree(bookings, tenant, id, staff, day, slot.start, slot.end)))
  }

  lemma SlotIsPlaced(
    service: Service, bookings: seq<Booking>, schedule: Schedule,
    tenant: TenantId, id: ServiceId, staff: Option<StaffId>, day: Day, k: nat)
    requires service.duration > 0 && NonEmpty(bookings, id)
    requires k < |ScheduleSlots(service, Filter(bookings, Loads(tenant, id, staff, day)), day, schedule)|
    ensures var slots := ScheduleSlots(service, Filter(bookings, Loads(tenant, id, staff, day)), day, schedule);
            Placed(service, bookings, schedule, tenant, id, staff, day, slots[k], k)
  {
    var existing := Filter(bookings, Loads(tenant, id, staff, day));
    SlotAtPosition(SlotAt(service, existing, day, schedule.staff), service.duration, schedule.open, schedule.close, k);
    var m := schedule.open + k * service.duration;
    if schedule.open >= 0 {
      NotBefore(schedule.open, k, service.duration);
      SlotAtMinute(service, bookings, schedule.staff, tenant, id, staff, day, m);
    }
  }

  lemma NotBefore(open: int, k: nat, duration: nat)
    ensures open + k * duration >= open
  {
  }

  lemma SlotAtMinute(
    service: Service, bookings: seq<Booking>, owner: Option<StaffId>,
    tenant: TenantId, id: ServiceId, staff: Option<StaffId>, day: Day, m: nat)
    requires service.duration > 0 && NonEmpty(bookings, id)
    ensures var slot := SlotAt(service, Filter(bookings, Loads(tenant, id, staff, day)), day, owner)(m);
            slot.available <==>
              service.capacity > 0 && IsFree(bookings, tenant, id, staff, day, slot.start, slot.end)
  {
    MarkedExactly(service, bookings, tenant, id, staff, day, m);
  }

  /**
   * One schedule: if it serves the query, as many slots as fit, each right
   * after the one before, for the schedule's own staff member, and marked
   * available exactly when the service has room at all and the slot is free.
   */
  lemma OneScheduleInOrder(
    service: Service, bookings: seq<Booking>, schedule: Schedule,
    tenant: TenantId, id: ServiceId, staff: Option<StaffId>, day: Day)
    requires service.duration > 0 && NonEmpty(bookings, id)
    ensures var slots := SlotList(service, bookings, [schedule], tenant, id, staff, day);
            && |slots| == (if Serves(schedule, tenant, staff, day) && schedule.open <= schedule.close
                           then (schedule.close - schedule.open) / service.duration else 0)
            && forall k :: 0 <= k < |slots| ==> Placed(service, bookings, schedule, tenant, id, staff, day, slots[k], k)
  {
    var slots := SlotList(service, bookings, [schedule], tenant, id, staff, day);
    ListOfOne(service, bookings, schedule, tenant, id, staff, day);
    if Serves(schedule, tenant, staff, day) {
      var existing := Filter(bookings, Loads(tenant, id, staff, day));
      SlotCount(SlotAt(service, existing, day, schedule.staff), service.duration, schedule.open, schedule.close);
      forall k: nat | k < |slots| ensures Placed(service, bookings, schedule, tenant, id, staff, day, slots[k], k) {
        SlotIsPlaced(service, bookings, schedule, tenant, id, staff, day, k);
      }
    }
  }

  lemma {:induction false} FilterOfConcat<T(!new)>(a: seq<T>, b: seq<T>, p: T -> bool)
    ensures Filter(a + b, p) == Filter(a, p) + Filter(b, p)
  {
    if a == [] {
      assert a + b == b;
    } else {
      FilterOfConcat(a[1..], b, p);
      assert (a + b)[1..] == a[1..] + b;
    }
  }

  lemma {:induction false} DaySlotsOfConcat(
    service: Service, existing: seq<Booking>, day: Day, a: seq<Schedule>, b: seq<Schedule>)
    requires forall s :: s in a + b ==> LoopEnds(s.open, s.close, service.duration)
    ensures (forall s :: s in a ==> s in a + b) && (forall s :: s in b ==> s in a + b)
    ensures DaySlots(service, existing, day, a + b) == DaySlots(service, existing, day, a)
                                                       + DaySlots(service, existing, day, b)
    decreases |b|
  {
    if b == [] {
      assert a + b == a;
    } else {
      var n := |b| - 1;
      assert (a + b)[..|a + b| - 1] == a + b[..n];
      DaySlotsOfConcat(service, existing, day, a, b[..n]);
    }
  }

  /** Several schedules: their slots one after the other, in the order of the schedules. */
  lemma ScheduleBySchedule(
    service: Service, bookings: seq<Booking>, a: seq<Schedule>, b: seq<Schedule>,
    tenant: TenantId, id: ServiceId, staff: Option<StaffId>, day: Day)
    requires forall s :: s in a + b && Offers(s, tenant, day, staff) ==> LoopEnds(s.open, s.close, service.duration)
    ensures (forall s :: s in a ==> s in a + b) && (forall s :: s in b ==> s in a + b)
    ensures SlotList(service, bookings, a + b, tenant, id, staff, day)
         == SlotList(service, bookings, a, tenant, id, staff, day)
            + SlotList(service, bookings, b, tenant, id, staff, day)
    ensures SlotList(service, bookings, [], tenant, id, staff, day) == []
  {
    var existing := Filter(bookings, Loads(tenant, id, staff, day));
    var offered := Offering(tenant, day, staff);
    FilterOfConcat(a, b, offered);
    DaySlotsOfConcat(service, existing, day, Filter(a, offered), Filter(b, offered));
  }
}
