/**
 * Bookings: the capacity check of new bookings, the status machine, and what
 * both keep over every run.
 */
module Bookings {
  import opened Options

  type TenantId = nat
  type ServiceId = nat
  type StaffId = nat
  type BookingId = nat

  /** Milliseconds since the epoch. */
  type Instant = int

  const MINUTE: int := 60000

  datatype Status = Requested | Confirmed | InProgress | Completed | Cancelled | NoShow | Rescheduled

  datatype Change = Change(from: Option<Status>, to: Status, reason: Option<string>)

  datatype Booking = Booking(
    tenant: TenantId,
    service: ServiceId,
    staff: Option<StaffId>,
    start: Instant,
    end: Instant,
    status: Status,
    history: seq<Change>,
    cancelReason: Option<string>,
    cancelledAt: Option<Instant>
  )

  datatype Service = Service(duration: int, capacity: int)

  datatype Error = ServiceNotFound | NoAvailability | BookingNotFound | BadTransition(from: Status)

  // ---------------------------------------------------------------- queries

  predicate Active(b: Booking) {
    b.status != Cancelled && b.status != NoShow
  }

  /** A query without a staff member sees every booking of the service. */
  predicate Concerns(b: Booking, tenant: TenantId, service: ServiceId, staff: Option<StaffId>) {
    b.tenant == tenant && b.service == service && (staff == None || b.staff == staff) && Active(b)
  }

  predicate Overlaps(b: Booking, start: Instant, end: Instant) {
    b.start < end && start < b.end
  }

  function Overlapping(start: Instant, end: Instant): Booking -> bool {
    (b: Booking) => Overlaps(b, start, end)
  }

  predicate Covers(b: Booking, t: Instant) {
    b.start <= t < b.end
  }

  function Count(bookings: seq<Booking>, p: Booking -> bool): nat {
    if bookings == [] then 0
    else Count(bookings[..|bookings| - 1], p) + if p(bookings[|bookings| - 1]) then 1 else 0
  }

  /** The bookings that a request for an interval competes with. */
  function Rivals(tenant: TenantId, service: ServiceId, staff: Option<StaffId>, start: Instant, end: Instant)
    : Booking -> bool
  {
    (b: Booking) => Concerns(b, tenant, service, staff) && Overlaps(b, start, end)
  }

  /** The active bookings of one staff key (or of none) that cover an instant. */
  function Occupants(tenant: TenantId, service: ServiceId, staff: Option<StaffId>, t: Instant): Booking -> bool {
    (b: Booking) => b.tenant == tenant && b.service == service && b.staff == staff && Active(b) && Covers(b, t)
  }

  /** The active bookings of a whole service that cover an instant. */
  function ServiceOccupants(tenant: TenantId, service: ServiceId, t: Instant): Booking -> bool {
    (b: Booking) => Concerns(b, tenant, service, None) && Covers(b, t)
  }

  // ---------------------------------------------------------------- operations

  function Allowed(status: Status): (next: set<Status>)
    ensures next == {} <==> status in {Completed, Cancelled, NoShow}
    ensures Requested !in next && status !in next
    ensures Cancelled in next <==> status in {Requested, Confirmed, Rescheduled}
    ensures Confirmed in next <==> status in {Requested, Rescheduled}
    ensures InProgress in next <==> status == Confirmed
    ensures Rescheduled in next <==> status == Confirmed
    ensures (Completed in next <==> status == InProgress) && (NoShow in next <==> status == InProgress)
  {
    match status
    case Requested => {Confirmed, Cancelled}
    case Confirmed => {InProgress, Cancelled, Rescheduled}
    case InProgress => {Completed, NoShow}
    case Completed => {}
    case Cancelled => {}
    case NoShow => {}
    case Rescheduled => {Confirmed, Cancelled}
  }

  function EndOf(service: Service, start: Instant): Instant {
    start + service.duration * MINUTE
  }

  function NewBooking(
    tenant: TenantId, service: ServiceId, staff: Option<StaffId>, start: Instant, end: Instant): Booking
  {
    Booking(tenant, service, staff, start, end, Requested, [Change(None, Requested, None)], None, None)
  }

  predicate Accepts(
    services: map<ServiceId, Service>, bookings: seq<Booking>,
    tenant: TenantId, service: ServiceId, staff: Option<StaffId>, start: Instant)
    requires service in services
  {
    Count(bookings, Rivals(tenant, service, staff, start, EndOf(services[service], start))) < services[service].capacity
  }

  function CreateBooking(
    services: map<ServiceId, Service>, bookings: seq<Booking>,
    tenant: TenantId, service: ServiceId, staff: Option<StaffId>, start: Instant)
    : Result<seq<Booking>, Error>
  {
    if service !in services then Err(ServiceNotFound)
    else if !Accepts(services, bookings, tenant, service, staff, start) then Err(NoAvailability)
    else Ok(bookings + [NewBooking(tenant, service, staff, start, EndOf(services[service], start))])
  }

  function WithStatus(b: Booking, status: Status, reason: Option<string>, now: Instant): Booking {
    b.(status := status,
       history := b.history + [Change(Some(b.status), status, reason)],
       cancelReason := if status == Cancelled then reason else b.cancelReason,
       cancelledAt := if status == Cancelled then Some(now) else b.cancelledAt)
  }

  /** `target` is None for a text that names no status. */
  function UpdateBookingStatus(
    bookings: seq<Booking>, id: BookingId, target: Option<Status>, reason: Option<string>, now: Instant)
    : Result<seq<Booking>, Error>
  {
    if id >= |bookings| then Err(BookingNotFound)
    else if target.None? || target.value !in Allowed(bookings[id].status) then Err(BadTransition(bookings[id].status))
    else Ok(bookings[id := WithStatus(bookings[id], target.value, reason, now)])
  }

  datatype Event =
    | Create(tenant: TenantId, service: ServiceId, staff: Option<StaffId>, start: Instant)
    | Update(id: BookingId, target: Option<Status>, reason: Option<string>, now: Instant)

  /** A refused call changes nothing. */
  function Step(services: map<ServiceId, Service>, bookings: seq<Booking>, event: Event): seq<Booking> {
    var result := match event
      case Create(tenant, service, staff, start) => CreateBooking(services, bookings, tenant, service, staff, start)
      case Update(id, target, reason, now) => UpdateBookingStatus(bookings, id, target, reason, now);
    if result.Ok? then result.value else bookings
  }

  function Run(services: map<ServiceId, Service>, bookings: seq<Booking>, events: seq<Event>): seq<Booking>
    decreases |events|
  {
    if events == [] then bookings else Run(services, Step(services, bookings, events[0]), events[1..])
  }

  // ---------------------------------------------------------------- counting

  lemma CountOfAppend(bookings: seq<Booking>, b: Booking, p: Booking -> bool)
    ensures Count(bookings + [b], p) == Count(bookings, p) + if p(b) then 1 else 0
  {
    assert (bookings + [b])[..|bookings|] == bookings;
  }

  lemma {:induction false} CountOfUpdate(bookings: seq<Booking>, i: nat, b: Booking, p: Booking -> bool)
    requires i < |bookings| && (p(b) ==> p(bookings[i]))
    ensures Count(bookings[i := b], p) <= Count(bookings, p)
  {
    var last := |bookings| - 1;
    var updated := bookings[i := b];
    if i < last {
      CountOfUpdate(bookings[..last], i, b, p);
      assert updated[..last] == bookings[..last][i := b];
    } else {
      assert updated[..last] == bookings[..last];
    }
  }

  lemma {:induction false} CountMonotone(bookings: seq<Booking>, p: Booking -> bool, q: Booking -> bool)
    requires forall b :: b in bookings && p(b) ==> q(b)
    ensures Count(bookings, p) <= Count(bookings, q)
  {
    if bookings != [] {
      CountMonotone(bookings[..|bookings| - 1], p, q);
    }
  }

  lemma {:induction false} CountOfNone(bookings: seq<Booking>, p: Booking -> bool)
    ensures Count(bookings, p) == 0 <==> forall b :: b in bookings ==> !p(b)
  {
    if bookings != [] {
      var last := |bookings| - 1;
      CountOfNone(bookings[..last], p);
      assert bookings == bookings[..last] + [bookings[last]];
    }
  }

  // ---------------------------------------------------------------- capacity

  /**
   * No instant is overbooked: for each service and each staff key (or none)
   * the active bookings covering it stay within the service's capacity.
   */
  ghost predicate WithinCapacity(services: map<ServiceId, Service>, bookings: seq<Booking>) {
    forall tenant, service, staff, t: Instant ::
      var count := Count(bookings, Occupants(tenant, service, staff, t));
      if service in services then count == 0 || count <= services[service].capacity else count == 0
  }

  /** Half-open intervals that share an instant overlap. */
  lemma CoveringIsRivalry(
    bookings: seq<Booking>, tenant: TenantId, service: ServiceId, staff: Option<StaffId>,
    start: Instant, end: Instant, t: Instant)
    requires start <= t < end
    ensures Count(bookings, Occupants(tenant, service, staff, t))
         <= Count(bookings, Rivals(tenant, service, staff, start, end))
  {
    CountMonotone(bookings, Occupants(tenant, service, staff, t), Rivals(tenant, service, staff, start, end));
  }

  lemma CreateKeepsCapacity(
    services: map<ServiceId, Service>, bookings: seq<Booking>,
    tenant: TenantId, service: ServiceId, staff: Option<StaffId>, start: Instant)
    requires WithinCapacity(services, bookings)
    requires service in services && Accepts(services, bookings, tenant, service, staff, start)
    ensures WithinCapacity(services, CreateBooking(services, bookings, tenant, service, staff, start).value)
  {
    var end := EndOf(services[service], start);
    var b := NewBooking(tenant, service, staff, start, end);
    forall tenant', service', staff', t: Instant
      ensures var count := Count(bookings + [b], Occupants(tenant', service', staff', t));
              if service' in services then count == 0 || count <= services[service'].capacity else count == 0
    {
      var p := Occupants(tenant', service', staff', t);
      CountOfAppend(bookings, b, p);
      assert Count(bookings, p) == Count(bookings, Occupants(tenant', service', staff', t));
      if p(b) {
        CoveringIsRivalry(bookings, tenant, service, staff, start, end, t);
      }
    }
  }

  /** Every permitted transition keeps an inactive booking inactive. */
  lemma NeverReactivated(b: Booking, status: Status, reason: Option<string>, now: Instant)
    requires status in Allowed(b.status)
    ensures Active(b)
  {
  }

  lemma UpdateKeepsCapacity(
    services: map<ServiceId, Service>, bookings: seq<Booking>,
    id: BookingId, status: Status, reason: Option<string>, now: Instant)
    requires WithinCapacity(services, bookings)
    requires id < |bookings| && status in Allowed(bookings[id].status)
    ensures WithinCapacity(services, bookings[id := WithStatus(bookings[id], status, reason, now)])
  {
    var b := WithStatus(bookings[id], status, reason, now);
    forall tenant, service, staff, t: Instant
      ensures var count := Count(bookings[id := b], Occupants(tenant, service, staff, t));
              if service in services then count == 0 || count <= services[service].capacity else count == 0
    {
      NeverReactivated(bookings[id], status, reason, now);
      CountOfUpdate(bookings, id, b, Occupants(tenant, service, staff, t));
    }
  }

  lemma StepKeepsCapacity(services: map<ServiceId, Service>, bookings: seq<Booking>, event: Event)
    requires WithinCapacity(services, bookings)
    ensures WithinCapacity(services, Step(services, bookings, event))
  {
    match event
    case Create(tenant, service, staff, start) =>
      if service in services && Accepts(services, bookings, tenant, service, staff, start) {
        CreateKeepsCapacity(services, bookings, tenant, service, staff, start);
      }
    case Update(id, target, reason, now) =>
      if id < |bookings| && target.Some? && target.value in Allowed(bookings[id].status) {
        UpdateKeepsCapacity(services, bookings, id, target.value, reason, now);
      }
  }

  lemma {:induction false} RunKeepsCapacity(
    services: map<ServiceId, Service>, bookings: seq<Booking>, events: seq<Event>)
    requires WithinCapacity(services, bookings)
    ensures WithinCapacity(services, Run(services, bookings, events))
    decreases |events|
  {
    if events != [] {
      StepKeepsCapacity(services, bookings, events[0]);
      RunKeepsCapacity(services, Step(services, bookings, events[0]), events[1..]);
    }
  }

  /** No run of creations and status changes overbooks any instant of any staff key. */
  lemma NeverOverbooked(
    services: map<ServiceId, Service>, events: seq<Event>,
    tenant: TenantId, service: ServiceId, staff: Option<StaffId>, t: Instant)
    requires service in services
    ensures var count := Count(Run(services, [], events), Occupants(tenant, service, staff, t));
            count == 0 || count <= services[service].capacity
  {
    assert WithinCapacity(services, []);
    RunKeepsCapacity(services, [], events);
    assert WithinCapacity(services, Run(services, [], events));
  }

  /** A request without a staff member leaves the whole service within capacity over all of its interval. */
  lemma UnassignedSeesWholeService(
    services: map<ServiceId, Service>, bookings: seq<Booking>,
    tenant: TenantId, service: ServiceId, start: Instant, t: Instant)
    requires service in services && Accepts(services, bookings, tenant, service, None, start)
    requires start <= t < EndOf(services[service], start)
    ensures Count(CreateBooking(services, bookings, tenant, service, None, start).value,
                  ServiceOccupants(tenant, service, t)) <= services[service].capacity
  {
    var end := EndOf(services[service], start);
    CountOfAppend(bookings, NewBooking(tenant, service, None, start, end), ServiceOccupants(tenant, service, t));
    CountMonotone(bookings, ServiceOccupants(tenant, service, t), Rivals(tenant, service, None, start, end));
  }

  /** A request for a staff member does not: it is blind to bookings of the service that name no one. */
  lemma AssignedIsBlindToUnassigned()
    ensures var services := map[0 := Service(30, 1)];
            var events := [Create(0, 0, None, 0), Create(0, 0, Some(7), 0)];
            var bookings := Run(services, [], events);
            |bookings| == 2 && Count(bookings, ServiceOccupants(0, 0, 0)) == 2
  {
    var services := map[0 := Service(30, 1)];
    var first, second := Create(0, 0, None, 0), Create(0, 0, Some(7), 0);
    var one := NewBooking(0, 0, None, 0, 30 * MINUTE);
    var two := NewBooking(0, 0, Some(7), 0, 30 * MINUTE);
    CountOfNone([], Rivals(0, 0, None, 0, 30 * MINUTE));
    assert Step(services, [], first) == [one];
    CountOfNone([one], Rivals(0, 0, Some(7), 0, 30 * MINUTE));
    assert Step(services, [one], second) == [one, two];
    assert [first, second][1..] == [second] && [second][1..] == [];
    CountOfAppend([one], two, ServiceOccupants(0, 0, 0));
    CountOfAppend([], one, ServiceOccupants(0, 0, 0));
    assert [] + [one] == [one] && [one] + [two] == [one, two];
  }

  // ---------------------------------------------------------------- the whole service

  /** If the request is accepted, the whole service stays within capacity over its interval. */
  ghost predicate LeavesServiceWithin(
    services: map<ServiceId, Service>, bookings: seq<Booking>,
    tenant: TenantId, service: ServiceId, staff: Option<StaffId>, start: Instant)
    requires service in services
  {
    Accepts(services, bookings, tenant, service, staff, start) ==>
      var after := CreateBooking(services, bookings, tenant, service, staff, start).value;
      forall t: Instant :: start <= t < EndOf(services[service], start) ==>
        Count(after, ServiceOccupants(tenant, service, t)) <= services[service].capacity
  }

  /** So many equal bookings. */
  function Copies(b: Booking, n: nat): (bookings: seq<Booking>)
    ensures |bookings| == n && forall x :: x in bookings ==> x == b
  {
    seq(n, _ => b)
  }

  function Repeated(e: Event, n: nat): (events: seq<Event>)
    ensures |events| == n && forall x :: x in events ==> x == e
  {
    seq(n, _ => e)
  }

  lemma {:induction false} CountOfCopies(b: Booking, n: nat, p: Booking -> bool)
    ensures Count(Copies(b, n), p) == if p(b) then n else 0
  {
    if n > 0 {
      CountOfCopies(b, n - 1, p);
      assert Copies(b, n)[..n - 1] == Copies(b, n - 1);
    }
  }

  lemma {:induction false} RunConcat(
    services: map<ServiceId, Service>, bookings: seq<Booking>, first: seq<Event>, later: seq<Event>)
    ensures Run(services, bookings, first + later) == Run(services, Run(services, bookings, first), later)
    decreases |first|
  {
    if first == [] {
      assert first + later == later;
    } else {
      assert (first + later)[1..] == first[1..] + later;
      RunConcat(services, Step(services, bookings, first[0]), first[1..], later);
    }
  }

  /** The same request is accepted again and again until the capacity is used up. */
  lemma {:induction false} FillsUp(
    services: map<ServiceId, Service>, tenant: TenantId, service: ServiceId, staff: Option<StaffId>, start: Instant,
    n: nat, more: nat)
    requires service in services && n + more <= services[service].capacity
    ensures var b := NewBooking(tenant, service, staff, start, EndOf(services[service], start));
            Run(services, Copies(b, n), Repeated(Create(tenant, service, staff, start), more)) == Copies(b, n + more)
    decreases more
  {
    var end := EndOf(services[service], start);
    var b := NewBooking(tenant, service, staff, start, end);
    var e := Create(tenant, service, staff, start);
    if more > 0 {
      CountOfCopies(b, n, Rivals(tenant, service, staff, start, end));
      assert Copies(b, n) + [b] == Copies(b, n + 1);
      assert Step(services, Copies(b, n), e) == Copies(b, n + 1);
      assert Repeated(e, more)[0] == e && Repeated(e, more)[1..] == Repeated(e, more - 1);
      FillsUp(services, tenant, service, staff, start, n + 1, more - 1);
    }
  }

  /** A service filled up by requests with one key still accepts a request for another staff member. */
  lemma FilledButAccepted(
    services: map<ServiceId, Service>, tenant: TenantId, service: ServiceId,
    key: Option<StaffId>, staff: StaffId, start: Instant)
    requires service in services && services[service].capacity > 0 && services[service].duration > 0
    requires key != Some(staff)
    ensures var events := Repeated(Create(tenant, service, key, start), services[service].capacity);
            var full := Run(services, [], events);
            && Accepts(services, full, tenant, service, Some(staff), start)
            && Count(CreateBooking(services, full, tenant, service, Some(staff), start).value,
                     ServiceOccupants(tenant, service, start)) == services[service].capacity + 1
  {
    var b := NewBooking(tenant, service, key, start, EndOf(services[service], start));
    FillsUp(services, tenant, service, key, start, 0, services[service].capacity);
    assert Copies(b, 0) == [];
    CopiesButAccepted(services, tenant, service, key, staff, start, services[service].capacity);
  }

  lemma CopiesButAccepted(
    services: map<ServiceId, Service>, tenant: TenantId, service: ServiceId,
    key: Option<StaffId>, staff: StaffId, start: Instant, n: nat)
    requires service in services && services[service].capacity > 0 && services[service].duration > 0
    requires key != Some(staff)
    ensures var full := Copies(NewBooking(tenant, service, key, start, EndOf(services[service], start)), n);
            && Accepts(services, full, tenant, service, Some(staff), start)
            && Count(CreateBooking(services, full, tenant, service, Some(staff), start).value,
                     ServiceOccupants(tenant, service, start)) == n + 1
  {
    var end := EndOf(services[service], start);
    var b := NewBooking(tenant, service, key, start, end);
    CountOfCopies(b, n, Rivals(tenant, service, Some(staff), start, end));
    CountOfCopies(b, n, ServiceOccupants(tenant, service, start));
    CountOfAppend(Copies(b, n), NewBooking(tenant, service, Some(staff), start, end),
                  ServiceOccupants(tenant, service, start));
  }

  /**
   * Accepting a request leaves the whole service within capacity, in every
   * reachable state, exactly when the request names no staff member.
   */
  lemma SeesWholeServiceExactly(
    services: map<ServiceId, Service>, tenant: TenantId, service: ServiceId, staff: Option<StaffId>, start: Instant)
    requires service in services && services[service].capacity > 0 && services[service].duration > 0
    ensures (forall events :: LeavesServiceWithin(services, Run(services, [], events), tenant, service, staff, start))
       <==> staff == None
  {
    if staff == None {
      forall events
        ensures LeavesServiceWithin(services, Run(services, [], events), tenant, service, staff, start)
      {
        var bookings := Run(services, [], events);
        if Accepts(services, bookings, tenant, service, None, start) {
          forall t: Instant | start <= t < EndOf(services[service], start)
            ensures Count(CreateBooking(services, bookings, tenant, service, None, start).value,
                          ServiceOccupants(tenant, service, t)) <= services[service].capacity
          {
            UnassignedSeesWholeService(services, bookings, tenant, service, start, t);
          }
        }
      }
    } else {
      var events := Repeated(Create(tenant, service, None, start), services[service].capacity);
      FilledButAccepted(services, tenant, service, None, staff.value, start);
      assert !LeavesServiceWithin(services, Run(services, [], events), tenant, service, staff, start);
    }
  }

  /** Every creation for the service names one of the staff keys. */
  predicate CreatesWith(events: seq<Event>, tenant: TenantId, service: ServiceId, keys: set<Option<StaffId>>) {
    forall i :: 0 <= i < |events| && events[i].Create? && events[i].tenant == tenant && events[i].service == service
      ==> events[i].staff in keys
  }

  predicate BookedWith(bookings: seq<Booking>, tenant: TenantId, service: ServiceId, keys: set<Option<StaffId>>) {
    forall b :: b in bookings && b.tenant == tenant && b.service == service ==> b.staff in keys
  }

  lemma {:induction false} RunBooksWith(
    services: map<ServiceId, Service>, bookings: seq<Booking>, events: seq<Event>,
    tenant: TenantId, service: ServiceId, keys: set<Option<StaffId>>)
    requires CreatesWith(events, tenant, service, keys) && BookedWith(bookings, tenant, service, keys)
    ensures BookedWith(Run(services, bookings, events), tenant, service, keys)
    decreases |events|
  {
    if events != [] {
      var next := Step(services, bookings, events[0]);
      forall b | b in next && b.tenant == tenant && b.service == service ensures b.staff in keys {
        if b !in bookings && events[0].Update? {
          assert b.staff == bookings[events[0].id].staff;
        }
      }
      RunBooksWith(services, next, events[1..], tenant, service, keys);
    }
  }

  ghost predicate ServiceWithin(
    services: map<ServiceId, Service>, bookings: seq<Booking>, tenant: TenantId, service: ServiceId)
    requires service in services
  {
    forall t: Instant :: Count(bookings, ServiceOccupants(tenant, service, t)) <= services[service].capacity
  }

  lemma OneKeyKeepsService(
    services: map<ServiceId, Service>, events: seq<Event>,
    tenant: TenantId, service: ServiceId, keys: set<Option<StaffId>>)
    requires service in services && services[service].capacity > 0
    requires CreatesWith(events, tenant, service, keys) && forall a, b :: a in keys && b in keys ==> a == b
    ensures ServiceWithin(services, Run(services, [], events), tenant, service)
  {
    var bookings := Run(services, [], events);
    RunBooksWith(services, [], events, tenant, service, keys);
    forall t: Instant ensures Count(bookings, ServiceOccupants(tenant, service, t)) <= services[service].capacity {
      if key :| key in keys {
        CountMonotone(bookings, ServiceOccupants(tenant, service, t), Occupants(tenant, service, key, t));
        NeverOverbooked(services, events, tenant, service, key, t);
      } else {
        CountOfNone(bookings, ServiceOccupants(tenant, service, t));
      }
    }
  }

  /** Two keys, one of them a staff member, overfill the service. */
  lemma TwoKeysOverfill(
    services: map<ServiceId, Service>, tenant: TenantId, service: ServiceId,
    keys: set<Option<StaffId>>, key: Option<StaffId>, staff: StaffId)
    returns (events: seq<Event>)
    requires service in services && services[service].capacity > 0 && services[service].duration > 0
    requires key in keys && Some(staff) in keys && key != Some(staff)
    ensures CreatesWith(events, tenant, service, keys)
    ensures !ServiceWithin(services, Run(services, [], events), tenant, service)
  {
    var filling := Repeated(Create(tenant, service, key, 0), services[service].capacity);
    var last := Create(tenant, service, Some(staff), 0);
    events := filling + [last];
    assert forall i :: 0 <= i < |events| ==> events[i] in filling || events[i] == last;
    FilledButAccepted(services, tenant, service, key, staff, 0);
    RunWithLast(services, filling, last);
    Overfilled(services, Run(services, [], events), tenant, service);
  }

  lemma RunWithLast(services: map<ServiceId, Service>, events: seq<Event>, last: Event)
    ensures Run(services, [], events + [last]) == Step(services, Run(services, [], events), last)
  {
    RunConcat(services, [], events, [last]);
    assert [last][1..] == [];
  }

  lemma Overfilled(services: map<ServiceId, Service>, bookings: seq<Booking>, tenant: TenantId, service: ServiceId)
    requires service in services
    requires Count(bookings, ServiceOccupants(tenant, service, 0)) == services[service].capacity + 1
    ensures !ServiceWithin(services, bookings, tenant, service)
  {
    assert Count(bookings, ServiceOccupants(tenant, service, 0)) > services[service].capacity;
  }

  /**
   * Over all runs, a whole service stays within capacity exactly when all its
   * bookings are requested with the same staff key (or all without one).
   */
  lemma ServiceCapacityExactly(
    services: map<ServiceId, Service>, tenant: TenantId, service: ServiceId, keys: set<Option<StaffId>>)
    requires service in services && services[service].capacity > 0 && services[service].duration > 0
    ensures (forall events :: CreatesWith(events, tenant, service, keys) ==>
               ServiceWithin(services, Run(services, [], events), tenant, service))
       <==> (forall a, b :: a in keys && b in keys ==> a == b)
  {
    if a, b :| a in keys && b in keys && a != b {
      if a.Some? {
        var events := TwoKeysOverfill(services, tenant, service, keys, b, a.value);
      } else {
        var events := TwoKeysOverfill(services, tenant, service, keys, a, b.value);
      }
    } else {
      forall events | CreatesWith(events, tenant, service, keys)
        ensures ServiceWithin(services, Run(services, [], events), tenant, service)
      {
        OneKeyKeepsService(services, events, tenant, service, keys);
      }
    }
  }

  // ---------------------------------------------------------------- history

  /** The recorded changes form a path through the status machine from `requested` to the current status. */
  predicate Truthful(b: Booking) {
    && |b.history| > 0
    && b.history[0] == Change(None, Requested, None)
    && b.history[|b.history| - 1].to == b.status
    && (forall i :: 1 <= i < |b.history| ==>
          b.history[i].from == Some(b.history[i - 1].to) && b.history[i].to in Allowed(b.history[i - 1].to))
    && (b.cancelledAt.Some? <==> b.status == Cancelled)
    && b.cancelReason == if b.status == Cancelled then b.history[|b.history| - 1].reason else None
  }

  /** What a later state may not change: the interval, the recorded past, and anything once terminal. */
  predicate Continues(before: Booking, after: Booking) {
    && after.tenant == before.tenant && after.service == before.service && after.staff == before.staff
    && after.start == before.start && after.end == before.end
    && before.history <= after.history
    && (Allowed(before.status) == {} ==> after == before)
  }

  lemma StatusKeepsTruth(b: Booking, status: Status, reason: Option<string>, now: Instant)
    requires Truthful(b) && status in Allowed(b.status)
    ensures var after := WithStatus(b, status, reason, now); Truthful(after) && Continues(b, after)
  {
    var after := WithStatus(b, status, reason, now);
    var n := |b.history|;
    forall i | 1 <= i < |after.history|
      ensures after.history[i].from == Some(after.history[i - 1].to)
      ensures after.history[i].to in Allowed(after.history[i - 1].to)
    {
      assert after.history[i - 1] == b.history[i - 1];
      if i < n {
        assert after.history[i] == b.history[i];
      }
    }
  }

  lemma StepKeepsTruth(services: map<ServiceId, Service>, bookings: seq<Booking>, event: Event)
    requires forall i :: 0 <= i < |bookings| ==> Truthful(bookings[i])
    ensures var after := Step(services, bookings, event);
            && |bookings| <= |after|
            && (forall i :: 0 <= i < |after| ==> Truthful(after[i]))
            && (forall i :: 0 <= i < |bookings| ==> Continues(bookings[i], after[i]))
  {
    match event
    case Create(_, _, _, _) =>
    case Update(id, target, reason, now) =>
      if id < |bookings| && target.Some? && target.value in Allowed(bookings[id].status) {
        StatusKeepsTruth(bookings[id], target.value, reason, now);
      }
  }

  /**
   * Over every run no booking is lost or moved, each history is a path of the
   * status machine that only grows, and a terminal booking never changes again.
   */
  lemma {:induction false} HistoriesAreTruthful(
    services: map<ServiceId, Service>, bookings: seq<Booking>, events: seq<Event>)
    requires forall i :: 0 <= i < |bookings| ==> Truthful(bookings[i])
    ensures var after := Run(services, bookings, events);
            && |bookings| <= |after|
            && (forall i :: 0 <= i < |after| ==> Truthful(after[i]))
            && (forall i :: 0 <= i < |bookings| ==> Continues(bookings[i], after[i]))
    decreases |events|
  {
    if events != [] {
      var next := Step(services, bookings, events[0]);
      StepKeepsTruth(services, bookings, events[0]);
      HistoriesAreTruthful(services, next, events[1..]);
      var after := Run(services, next, events[1..]);
      forall i | 0 <= i < |bookings| ensures Continues(bookings[i], after[i]) {
        assert Continues(bookings[i], next[i]) && Continues(next[i], after[i]);
      }
    }
  }
}
