/** Which booking requests and status changes are accepted, and which slots a day lists, in terms of shared instants. */
module BookingAnswers {
  import opened Options
  import opened Bookings
  import opened Slots

  // ---------------------------------------------------------------- competing bookings

  /** An interval has its first instant and not its end. */
  predicate Within(t: Instant, start: Instant, end: Instant) {
    start <= t < end
  }

  ghost predicate SharesInstant(b: Booking, start: Instant, end: Instant) {
    exists t: Instant :: Within(t, start, end) && Within(t, b.start, b.end)
  }

  /** Two intervals that are not empty overlap exactly when they share an instant; abutting ones do not. */
  lemma OverlapIsSharedInstant(b: Booking, start: Instant, end: Instant)
    requires start < end && b.start < b.end
    ensures Overlaps(b, start, end) <==> SharesInstant(b, start, end)
  {
    var t := if start < b.start then b.start else start;
    if Overlaps(b, start, end) {
      assert Within(t, start, end) && Within(t, b.start, b.end);
    }
  }

  /** A booking of the service that takes a place, seen by requests for its own staff member and for no one. */
  predicate TakesPlace(b: Booking, tenant: TenantId, service: ServiceId, staff: Option<StaffId>) {
    && b.tenant == tenant && b.service == service && (staff == None || b.staff == staff)
    && b.status != Cancelled && b.status != NoShow
  }

  /** The numbers of the bookings that a request competes with. */
  ghost function Competing(
    bookings: seq<Booking>, tenant: TenantId, service: ServiceId, staff: Option<StaffId>, start: Instant, end: Instant)
    : set<nat>
  {
    set i: nat | i < |bookings| && TakesPlace(bookings[i], tenant, service, staff)
                 && SharesInstant(bookings[i], start, end)
  }

  ghost function Numbers(bookings: seq<Booking>, p: Booking -> bool): set<nat> {
    set i: nat | i < |bookings| && p(bookings[i])
  }

  lemma {:induction false} CountIsSize(bookings: seq<Booking>, p: Booking -> bool)
    ensures Count(bookings, p) == |Numbers(bookings, p)|
  {
    if bookings != [] {
      var n := |bookings| - 1;
      CountIsSize(bookings[..n], p);
      assert Numbers(bookings, p) == Numbers(bookings[..n], p) + if p(bookings[n]) then {n} else {};
    }
  }

  // ---------------------------------------------------------------- new bookings

  /** No booking of the service is an empty interval. */
  predicate NonEmpty(bookings: seq<Booking>, service: ServiceId) {
    forall i :: 0 <= i < |bookings| && bookings[i].service == service ==> bookings[i].start < bookings[i].end
  }

  /** Which is so in every reachable state when the service has a positive duration. */
  lemma {:induction false} RunKeepsNonEmpty(
    services: map<ServiceId, Service>, bookings: seq<Booking>, events: seq<Event>, service: ServiceId)
    requires NonEmpty(bookings, service) && (service in services ==> services[service].duration > 0)
    ensures NonEmpty(Run(services, bookings, events), service)
    decreases |events|
  {
    if events != [] {
      var next := Step(services, bookings, events[0]);
      assert NonEmpty(next, service);
      RunKeepsNonEmpty(services, next, events[1..], service);
    }
  }

  lemma RivalsCompete(
    bookings: seq<Booking>, tenant: TenantId, service: ServiceId, staff: Option<StaffId>, start: Instant, end: Instant)
    requires NonEmpty(bookings, service) && start < end
    ensures Count(bookings, Rivals(tenant, service, staff, start, end))
         == |Competing(bookings, tenant, service, staff, start, end)|
  {
    var rivals := Rivals(tenant, service, staff, start, end);
    CountIsSize(bookings, rivals);
    forall i: nat | i < |bookings|
      ensures rivals(bookings[i]) <==>
              TakesPlace(bookings[i], tenant, service, staff) && SharesInstant(bookings[i], start, end)
    {
      if bookings[i].service == service {
        OverlapIsSharedInstant(bookings[i], start, end);
      }
    }
    assert Numbers(bookings, rivals) == Competing(bookings, tenant, service, staff, start, end);
  }

  /**
   * In every reachable state a request for a service of positive duration is
   * accepted exactly when the service is known and the bookings it competes
   * with are fewer than its capacity, and then one requested booking of the
   * service's length is added.
   */
  lemma CreatedExactly(
    services: map<ServiceId, Service>, events: seq<Event>,
    tenant: TenantId, service: ServiceId, staff: Option<StaffId>, start: Instant)
    requires service in services ==> services[service].duration > 0
    ensures var bookings := Run(services, [], events);
            CreateBooking(services, bookings, tenant, service, staff, start)
              == if service !in services then Err(ServiceNotFound)
                 else
                   var end := start + services[service].duration * 60000;
                   if |Competing(bookings, tenant, service, staff, start, end)| < services[service].capacity
                   then Ok(bookings + [Booking(tenant, service, staff, start, end, Requested,
                                               [Change(None, Requested, None)], None, None)])
                   else Err(NoAvailability)
  {
    var bookings := Run(services, [], events);
    RunKeepsNonEmpty(services, [], events, service);
    if service in services {
      var end := EndOf(services[service], start);
      RivalsCompete(bookings, tenant, service, staff, start, end);
    }
  }

  /** For any duration, and in any state: competing then means that either starts before the other ends. */
  lemma CreatedForAnyDuration(
    services: map<ServiceId, Service>, bookings: seq<Booking>,
    tenant: TenantId, service: ServiceId, staff: Option<StaffId>, start: Instant)
    requires service in services
    ensures var end := start + services[service].duration * 60000;
            var competing := set i: nat | i < |bookings| && TakesPlace(bookings[i], tenant, service, staff)
                                          && bookings[i].start < end && start < bookings[i].end;
            CreateBooking(services, bookings, tenant, service, staff, start).Ok?
            <==> |competing| < services[service].capacity
  {
    var end := EndOf(services[service], start);
    var rivals := Rivals(tenant, service, staff, start, end);
    CountIsSize(bookings, rivals);
    assert Numbers(bookings, rivals)
        == set i: nat | i < |bookings| && TakesPlace(bookings[i], tenant, service, staff)
                        && bookings[i].start < end && start < bookings[i].end;
  }

  // ---------------------------------------------------------------- status changes

  /** The permitted changes, pair by pair. */
  predicate MayBecome(from: Status, to: Status) {
    (from, to) in {(Requested, Confirmed), (Requested, Cancelled),
                   (Confirmed, InProgress), (Confirmed, Cancelled), (Confirmed, Rescheduled),
                   (InProgress, Completed), (InProgress, NoShow),
                   (Rescheduled, Confirmed), (Rescheduled, Cancelled)}
  }

  /** A status change is accepted exactly for a known booking and a permitted pair, and is recorded in full. */
  lemma UpdatedExactly(
    bookings: seq<Booking>, id: BookingId, target: Option<Status>, reason: Option<string>, now: Instant)
    ensures var r := UpdateBookingStatus(bookings, id, target, reason, now);
            if id >= |bookings| then r == Err(BookingNotFound)
            else if target == None || !MayBecome(bookings[id].status, target.value)
            then r == Err(BadTransition(bookings[id].status))
            else
              var (b, to) := (bookings[id], target.value);
              && r.Ok? && |r.value| == |bookings|
              && (forall i :: 0 <= i < |bookings| && i != id ==> r.value[i] == bookings[i])
              && r.value[id] == Booking(b.tenant, b.service, b.staff, b.start, b.end, to,
                                        b.history + [Change(Some(b.status), to, reason)],
                                        if to == Cancelled then reason else b.cancelReason,
                                        if to == Cancelled then Some(now) else b.cancelledAt)
  {
    if id < |bookings| && target.Some? {
      PairsAreAllowed(bookings[id].status, target.value);
    }
  }

  lemma PairsAreAllowed(from: Status, to: Status)
    ensures MayBecome(from, to) <==> to in Allowed(from)
  {
  }

  /** In every reachable state a completed or missed booking was confirmed, and then in progress, right before. */
  lemma FinishedWasConfirmed(services: map<ServiceId, Service>, events: seq<Event>, id: BookingId)
    requires id < |Run(services, [], events)| && Run(services, [], events)[id].status in {Completed, NoShow}
    ensures var history := Run(services, [], events)[id].history;
            var n := |history|;
            && n >= 4 && history[n - 1].to in {Completed, NoShow}
            && history[n - 2].to == InProgress && history[n - 3].to == Confirmed
            && history[n - 4].to in {Requested, Rescheduled} && history[0].to == Requested
  {
    HistoriesAreTruthful(services, [], events);
    var b := Run(services, [], events)[id];
    assert Truthful(b);
    var (h, n) := (b.history, |b.history|);
    assert n >= 2 && h[n - 1].to in Allowed(h[n - 2].to);
    assert n >= 3 && h[n - 2].to in Allowed(h[n - 3].to);
    assert n >= 4 && h[n - 3].to in Allowed(h[n - 4].to);
  }

  // ---------------------------------------------------------------- a day booked out

  function Requests(
    tenant: TenantId, id: ServiceId, staff: Option<StaffId>, starts: seq<Instant>): seq<Event>
  {
    seq(|starts|, i requires 0 <= i < |starts| => Create(tenant, id, staff, starts[i]))
  }

  /** Each start is no earlier than the end of the one before. */
  predicate Spaced(starts: seq<Instant>, length: int) {
    forall i, j :: 0 <= i < j < |starts| ==> starts[i] + length <= starts[j]
  }

  /** The bookings that accepted requests for these starts leave behind. */
  function Booked(
    service: Service, tenant: TenantId, id: ServiceId, staff: Option<StaffId>, starts: seq<Instant>): seq<Booking>
  {
    seq(|starts|, i requires 0 <= i < |starts| =>
      Booking(tenant, id, staff, starts[i], starts[i] + service.duration * 60000, Requested,
              [Change(None, Requested, None)], None, None))
  }

  lemma NextIsAccepted(
    services: map<ServiceId, Service>, tenant: TenantId, id: ServiceId, staff: Option<StaffId>,
    starts: seq<Instant>, start: Instant)
    requires id in services && services[id].capacity > 0
    requires forall i :: 0 <= i < |starts| ==> starts[i] + services[id].duration * 60000 <= start
    ensures Step(services, Booked(services[id], tenant, id, staff, starts), Create(tenant, id, staff, start))
         == Booked(services[id], tenant, id, staff, starts + [start])
  {
    var before := Booked(services[id], tenant, id, staff, starts);
    CountOfNone(before, Rivals(tenant, id, staff, start, EndOf(services[id], start)));
    assert Accepts(services, before, tenant, id, staff, start);
  }

  /** Requests for intervals that at most abut are all accepted, one after the other. */
  lemma {:induction false} SpacedRequestsAreAccepted(
    services: map<ServiceId, Service>, tenant: TenantId, id: ServiceId, staff: Option<StaffId>, starts: seq<Instant>)
    requires id in services && services[id].capacity > 0
    requires Spaced(starts, services[id].duration * 60000)
    ensures Run(services, [], Requests(tenant, id, staff, starts)) == Booked(services[id], tenant, id, staff, starts)
  {
    if starts != [] {
      var n := |starts| - 1;
      var init, start := starts[..n], starts[n];
      SpacedRequestsAreAccepted(services, tenant, id, staff, init);
      NextIsAccepted(services, tenant, id, staff, init, start);
      assert starts == init + [start];
      RequestsOfAppend(tenant, id, staff, init, start);
      RunWithLast(services, Requests(tenant, id, staff, init), Create(tenant, id, staff, start));
    }
  }

  lemma RequestsOfAppend(
    tenant: TenantId, id: ServiceId, staff: Option<StaffId>, starts: seq<Instant>, start: Instant)
    ensures Requests(tenant, id, staff, starts + [start])
         == Requests(tenant, id, staff, starts) + [Create(tenant, id, staff, start)]
  {
  }

  function Starts(day: Day, slots: seq<Slot>): seq<Instant> {
    seq(|slots|, i requires 0 <= i < |slots| => day.midnight + slots[i].start * 60000)
  }

  lemma {:induction false} SlotsAreSpaced(
    service: Service, existing: seq<Booking>, day: Day, schedule: Schedule, i: nat, j: nat)
    requires service.duration > 0 && i < j < |ScheduleSlots(service, existing, day, schedule)|
    ensures var slots := ScheduleSlots(service, existing, day, schedule);
            slots[i].start + service.duration <= slots[j].start
    decreases j
  {
    SlotsTile(service, existing, day, schedule, j - 1);
    if i < j - 1 {
      SlotsAreSpaced(service, existing, day, schedule, i, j - 1);
    }
  }

  /** All slots of a schedule can be booked one after the other: every request is accepted. */
  lemma DayIsBookedOut(
    services: map<ServiceId, Service>, tenant: TenantId, id: ServiceId, existing: seq<Booking>, day: Day,
    schedule: Schedule)
    requires id in services && services[id].capacity > 0 && services[id].duration > 0
    ensures var slots := ScheduleSlots(services[id], existing, day, schedule);
            var starts := Starts(day, slots);
            Run(services, [], Requests(tenant, id, schedule.staff, starts))
              == Booked(services[id], tenant, id, schedule.staff, starts)
  {
    var slots := ScheduleSlots(services[id], existing, day, schedule);
    var starts := Starts(day, slots);
    forall i, j | 0 <= i < j < |starts| ensures starts[i] + services[id].duration * 60000 <= starts[j] {
      SlotsAreSpaced(services[id], existing, day, schedule, i, j);
    }
    SpacedRequestsAreAccepted(services, tenant, id, schedule.staff, starts);
  }
}
