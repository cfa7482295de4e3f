/**
 * The availability engine: the slots a day offers, and how their `available`
 * mark relates to the check that a new booking has to pass.
 */
module Slots {
  import opened Options
  import opened Bookings
  import opened Decimal

  /** The queried date: the instant it names, its local midnight and its day of the week. */
  datatype Day = Day(instant: Instant, midnight: Instant, weekday: nat)

  /** Opening hours, in minutes after midnight. */
  datatype Schedule = Schedule(
    tenant: TenantId,
    staff: Option<StaffId>,
    weekday: Option<nat>,
    isRecurring: bool,
    date: Option<Instant>,
    isActive: bool,
    open: int,
    close: int
  )

  /** A slot by its first and last minute, which it shows as clock texts. */
  datatype Slot = Slot(start: int, end: int, staff: Option<StaffId>, available: bool) {
    function StartTime(): string {
      Clock(start)
    }

    function EndTime(): string {
      Clock(end)
    }
  }

  // ---------------------------------------------------------------- clock texts

  /** JavaScript's remainder: it has the sign of the dividend. */
  function Remainder(m: int): int {
    if m >= 0 then m % 60 else -((-m) % 60)
  }

  /** `String(n).padStart(2, '0')` */
  function Padded(n: int): string {
    var text := if n >= 0 then Print(n) else "-" + Print(-n);
    if |text| < 2 then "0" + text else text
  }

  function Clock(m: int): string {
    Padded(m / 60) + ":" + Padded(Remainder(m))
  }

  function ColonAt(text: string): (k: nat)
    ensures k <= |text| && (k < |text| ==> text[k] == ':')
    ensures forall i :: 0 <= i < k ==> text[i] != ':'
  {
    if text == "" || text[0] == ':' then 0 else 1 + ColonAt(text[1..])
  }

  /** `text.split(':').map(Number)` as minutes after midnight, for two numerals around one colon. */
  function ReadClock(text: string): Option<nat> {
    var k := ColonAt(text);
    if k < |text| && IsNumeral(text[..k]) && IsNumeral(text[k + 1..])
    then Some(60 * Value(text[..k]) + Value(text[k + 1..]))
    else None
  }

  lemma PaddedReads(n: nat)
    ensures IsNumeral(Padded(n)) && Value(Padded(n)) == n && |Padded(n)| >= 2 && (n < 100 ==> |Padded(n)| == 2)
  {
    ValueOfPrint(n);
    if n < 10 {
      var text := Padded(n);
      assert Print(n) == [Digit(n)] && text == ['0', Digit(n)];
      assert text[..1] == "0" && Value(text[..1]) == 0 by {
        assert "0"[..0] == "";
      }
    } else if n < 100 {
      assert Print(n) == Print(n / 10) + [Digit(n % 10)];
    }
  }

  lemma ColonBetween(hours: string, minutes: string)
    requires AllDigits(hours)
    ensures ColonAt(hours + ":" + minutes) == |hours|
  {
    var text := hours + ":" + minutes;
    assert text[|hours|] == ':';
    assert forall i :: 0 <= i < |hours| ==> text[i] == hours[i];
  }

  /** A printed time of day reads back as the minute it was printed from, and within a day it is HH:MM. */
  lemma ClockRoundTrip(m: nat)
    ensures ReadClock(Clock(m)) == Some(m)
    ensures m < 100 * 60 ==> |Clock(m)| == 5 && Clock(m)[2] == ':'
  {
    var hours, minutes := Padded(m / 60), Padded(m % 60);
    PaddedReads(m / 60);
    PaddedReads(m % 60);
    ColonBetween(hours, minutes);
    var text := Clock(m);
    assert text == hours + ":" + minutes;
    assert text[..|hours|] == hours && text[|hours| + 1..] == minutes;
  }

  // ---------------------------------------------------------------- queries

  predicate Offers(s: Schedule, tenant: TenantId, day: Day, staff: Option<StaffId>) {
    && s.tenant == tenant
    && s.isActive
    && (staff == None || s.staff == staff)
    && (if s.isRecurring then s.weekday == Some(day.weekday) else s.date == Some(day.instant))
  }

  function Offering(tenant: TenantId, day: Day, staff: Option<StaffId>): Schedule -> bool {
    (s: Schedule) => Offers(s, tenant, day, staff)
  }

  function Filter<T(!new)>(items: seq<T>, p: T -> bool): (kept: seq<T>)
    ensures forall x :: x in kept <==> x in items && p(x)
  {
    if items == [] then []
    else if p(items[0]) then [items[0]] + Filter(items[1..], p)
    else Filter(items[1..], p)
  }

  /** The bookings that the slot query loads: those of the service that lie inside the day. */
  predicate InsideDay(b: Booking, day: Day) {
    day.midnight <= b.start && b.end <= day.midnight + 24 * 60 * MINUTE - 1
  }

  predicate Loaded(b: Booking, tenant: TenantId, service: ServiceId, staff: Option<StaffId>, day: Day) {
    Concerns(b, tenant, service, staff) && InsideDay(b, day)
  }

  function Loads(tenant: TenantId, service: ServiceId, staff: Option<StaffId>, day: Day): Booking -> bool {
    (b: Booking) => Loaded(b, tenant, service, staff, day)
  }

  /** `date.setHours(floor(m / 60), m % 60, 0, 0)` */
  function SlotInstant(day: Day, m: int): Instant {
    day.midnight + (m / 60 * 60 + Remainder(m)) * MINUTE
  }

  predicate Available(service: Service, existing: seq<Booking>, day: Day, m: int) {
    var start, end := SlotInstant(day, m), SlotInstant(day, m + service.duration);
    && !(exists b :: b in existing && Overlaps(b, start, end))
    && Count(existing, Overlapping(start, end)) < service.capacity
  }

  // ---------------------------------------------------------------- slots

  function SlotAt(service: Service, existing: seq<Booking>, day: Day, staff: Option<StaffId>): int -> Slot {
    m => Slot(m, m + service.duration, staff, Available(service, existing, day, m))
  }

  /** The loop over a schedule ends exactly when slots have a positive length or none fits. */
  predicate LoopEnds(open: int, close: int, duration: int) {
    duration > 0 || open + duration > close
  }

  /** Slots of a length from a minute on, until closing. */
  function SlotsFrom<T>(at: int -> T, duration: int, m: int, close: int): seq<T>
    requires LoopEnds(m, close, duration)
    decreases close - m
  {
    if m + duration <= close then [at(m)] + SlotsFrom(at, duration, m + duration, close) else []
  }

  function ScheduleSlots(service: Service, existing: seq<Booking>, day: Day, s: Schedule): seq<Slot>
    requires LoopEnds(s.open, s.close, service.duration)
  {
    SlotsFrom(SlotAt(service, existing, day, s.staff), service.duration, s.open, s.close)
  }

  /** The slots of each schedule in turn. */
  function DaySlots(service: Service, existing: seq<Booking>, day: Day, schedules: seq<Schedule>): seq<Slot>
    requires forall s :: s in schedules ==> LoopEnds(s.open, s.close, service.duration)
  {
    if schedules == [] then []
    else DaySlots(service, existing, day, schedules[..|schedules| - 1])
         + ScheduleSlots(service, existing, day, schedules[|schedules| - 1])
  }

  /** The slots that a query is answered with. */
  function SlotList(
    service: Service, bookings: seq<Booking>, schedules: seq<Schedule>,
    tenant: TenantId, id: ServiceId, staff: Option<StaffId>, day: Day): seq<Slot>
    requires forall s :: s in schedules && Offers(s, tenant, day, staff) ==> LoopEnds(s.open, s.close, service.duration)
  {
    DaySlots(service, Filter(bookings, Loads(tenant, id, staff, day)), day,
             Filter(schedules, Offering(tenant, day, staff)))
  }

  /** Otherwise the loop's guard holds in every round. */
  lemma LoopNeverEnds(open: int, close: int, duration: int, round: nat)
    requires !LoopEnds(open, close, duration)
    ensures open + round * duration + duration <= close
  {
    assert round * duration <= 0;
  }

  lemma NonZeroMultiple(x: int, d: int)
    requires d > 0 && x != 0
    ensures !(-d < x * d < d)
  {
    if x > 0 {
      assert (x - 1) * d >= 0;
    } else {
      assert (-1 - x) * d >= 0;
    }
  }

  lemma Quotient(n: int, d: int, q: int, r: int)
    requires d > 0 && n == q * d + r && 0 <= r < d
    ensures n / d == q
  {
    var p, s := n / d, n % d;
    assert n == p * d + s;
    assert (p - q) * d == p * d - q * d;
    if p != q {
      NonZeroMultiple(p - q, d);
    }
  }

  /** As many slots as fit between opening and closing. */
  lemma {:induction false} SlotCount<T>(at: int -> T, duration: int, open: int, close: int)
    requires duration > 0
    ensures |SlotsFrom(at, duration, open, close)| == if open <= close then (close - open) / duration else 0
    decreases close - open
  {
    var room := close - open;
    if open + duration <= close {
      SlotCount(at, duration, open + duration, close);
      var q, r := (room - duration) / duration, (room - duration) % duration;
      assert (q + 1) * duration == q * duration + duration;
      Quotient(room, duration, q + 1, r);
    } else if open <= close {
      Quotient(room, duration, 0, room);
    }
  }

  /** The minute of the k-th slot: slots abut, and leave less than one slot before closing. */
  lemma {:induction false} SlotMinute<T>(at: int -> T, duration: int, open: int, close: int, k: nat) returns (m: int)
    requires duration > 0 && k < |SlotsFrom(at, duration, open, close)|
    ensures var slots := SlotsFrom(at, duration, open, close);
            && open <= m && m + duration <= close
            && slots[k] == at(m)
            && (k == 0 ==> m == open)
            && (k + 1 < |slots| ==> slots[k + 1] == at(m + duration))
            && (k + 1 == |slots| ==> close - (m + duration) < duration)
    decreases k
  {
    if k == 0 {
      m := open;
    } else {
      m := SlotMinute(at, duration, open + duration, close, k - 1);
    }
  }

  /** The texts of a slot read back as its minutes. */
  lemma SlotTexts(slot: Slot)
    requires slot.start >= 0 && slot.end >= 0
    ensures ReadClock(slot.StartTime()) == Some(slot.start) && ReadClock(slot.EndTime()) == Some(slot.end)
  {
    ClockRoundTrip(slot.start);
    ClockRoundTrip(slot.end);
  }

  /**
   * For a positive length the slots of a schedule are disjoint and abut, and
   * fill the opening hours up to a rest shorter than one slot.
   */
  lemma SlotsTile(service: Service, existing: seq<Booking>, day: Day, schedule: Schedule, k: nat)
    requires service.duration > 0
    requires k < |ScheduleSlots(service, existing, day, schedule)|
    ensures var slots := ScheduleSlots(service, existing, day, schedule);
            && schedule.open <= slots[k].start && slots[k].end <= schedule.close
            && slots[k].end == slots[k].start + service.duration
            && (k == 0 ==> slots[k].start == schedule.open)
            && (k + 1 < |slots| ==> slots[k + 1].start == slots[k].end)
            && (k + 1 == |slots| ==> schedule.close - slots[k].end < service.duration)
            && slots[k].available == Available(service, existing, day, slots[k].start)
  {
    var at := SlotAt(service, existing, day, schedule.staff);
    var m := SlotMinute(at, service.duration, schedule.open, schedule.close, k);
  }

  // ---------------------------------------------------------------- agreement with new bookings

  lemma AvailableMeansFree(service: Service, existing: seq<Booking>, day: Day, m: int)
    ensures Available(service, existing, day, m) <==>
            service.capacity > 0 &&
            forall b :: b in existing ==> !Overlaps(b, SlotInstant(day, m), SlotInstant(day, m + service.duration))
  {
    CountOfNone(existing, Overlapping(SlotInstant(day, m), SlotInstant(day, m + service.duration)));
  }

  lemma SlotLength(day: Day, m: nat, service: Service)
    requires m + service.duration >= 0
    ensures SlotInstant(day, m + service.duration) == EndOf(service, SlotInstant(day, m))
  {
    assert m / 60 * 60 + m % 60 == m;
    var n := m + service.duration;
    assert n / 60 * 60 + n % 60 == n;
  }

  /** Bookings that a request for a slot competes with and that the slot query did not load. */
  function Unseen(
    tenant: TenantId, service: ServiceId, staff: Option<StaffId>, day: Day, start: Instant, end: Instant)
    : Booking -> bool
  {
    (b: Booking) => Concerns(b, tenant, service, staff) && Overlaps(b, start, end) && !InsideDay(b, day)
  }

  /**
   * A slot marked available is accepted exactly when the competing bookings
   * that reach over the edges of the day stay below capacity. Here the slot
   * was asked for with the staff member of the request, or with none.
   */
  lemma AvailableIsAccepted(
    services: map<ServiceId, Service>, bookings: seq<Booking>, tenant: TenantId, id: ServiceId,
    asked: Option<StaffId>, staff: Option<StaffId>, day: Day, m: nat)
    requires id in services && m + services[id].duration >= 0
    requires asked == None || asked == staff
    requires Available(services[id], Filter(bookings, Loads(tenant, id, asked, day)), day, m)
    ensures var start := SlotInstant(day, m);
            Accepts(services, bookings, tenant, id, staff, start) <==>
            Count(bookings, Unseen(tenant, id, staff, day, start, EndOf(services[id], start))) < services[id].capacity
  {
    var start := SlotInstant(day, m);
    var end := EndOf(services[id], start);
    SlotLength(day, m, services[id]);
    var existing := Filter(bookings, Loads(tenant, id, asked, day));
    AvailableMeansFree(services[id], existing, day, m);
    var rivals, unseen := Rivals(tenant, id, staff, start, end), Unseen(tenant, id, staff, day, start, end);
    forall b | b in bookings && rivals(b) ensures unseen(b) {
      assert InsideDay(b, day) <==> Loaded(b, tenant, id, asked, day);
    }
    CountMonotone(bookings, rivals, unseen);
    CountMonotone(bookings, unseen, rivals);
  }

  /** In particular when every competing booking lies inside the day. */
  lemma AvailableInsideTheDay(
    services: map<ServiceId, Service>, bookings: seq<Booking>, tenant: TenantId, id: ServiceId,
    asked: Option<StaffId>, staff: Option<StaffId>, day: Day, m: nat)
    requires id in services && m + services[id].duration >= 0
    requires asked == None || asked == staff
    requires Available(services[id], Filter(bookings, Loads(tenant, id, asked, day)), day, m)
    requires var start := SlotInstant(day, m);
             forall b :: b in bookings && Rivals(tenant, id, staff, start, EndOf(services[id], start))(b)
               ==> InsideDay(b, day)
    ensures CreateBooking(services, bookings, tenant, id, staff, SlotInstant(day, m)).Ok?
  {
    var start := SlotInstant(day, m);
    AvailableIsAccepted(services, bookings, tenant, id, asked, staff, day, m);
    AvailableMeansFree(services[id], Filter(bookings, Loads(tenant, id, asked, day)), day, m);
    CountOfNone(bookings, Unseen(tenant, id, staff, day, start, EndOf(services[id], start)));
  }

  /**
   * The other way round the mark is stricter than the check: whatever staff
   * member the slots were asked for and the request names, a request that
   * would be accepted is shown as unavailable exactly when some loaded booking
   * overlaps it.
   */
  lemma UnavailableButAccepted(
    services: map<ServiceId, Service>, bookings: seq<Booking>, tenant: TenantId, id: ServiceId,
    asked: Option<StaffId>, staff: Option<StaffId>, day: Day, m: nat)
    requires id in services && m + services[id].duration >= 0
    requires Accepts(services, bookings, tenant, id, staff, SlotInstant(day, m))
    ensures var start := SlotInstant(day, m);
            !Available(services[id], Filter(bookings, Loads(tenant, id, asked, day)), day, m) <==>
            exists b :: b in bookings && Loaded(b, tenant, id, asked, day)
                        && Overlaps(b, start, EndOf(services[id], start))
  {
    SlotLength(day, m, services[id]);
    AvailableMeansFree(services[id], Filter(bookings, Loads(tenant, id, asked, day)), day, m);
  }

  /** Asked for and requested with the same staff member: such a booking competes with the request. */
  lemma LoadedCompetes(
    b: Booking, tenant: TenantId, id: ServiceId, staff: Option<StaffId>, day: Day, start: Instant, end: Instant)
    ensures Loaded(b, tenant, id, staff, day) && Overlaps(b, start, end)
       <==> Rivals(tenant, id, staff, start, end)(b) && InsideDay(b, day)
  {
  }

  // ---------------------------------------------------------------- the slots a caller gets

  lemma {:induction false} SlotOfSchedule(
    service: Service, existing: seq<Booking>, day: Day, schedules: seq<Schedule>, k: nat)
    returns (schedule: Schedule, j: nat)
    requires forall s :: s in schedules ==> LoopEnds(s.open, s.close, service.duration)
    requires k < |DaySlots(service, existing, day, schedules)|
    ensures schedule in schedules && j < |ScheduleSlots(service, existing, day, schedule)|
    ensures DaySlots(service, existing, day, schedules)[k] == ScheduleSlots(service, existing, day, schedule)[j]
    decreases |schedules|
  {
    var init, last := schedules[..|schedules| - 1], schedules[|schedules| - 1];
    var before := DaySlots(service, existing, day, init);
    if k < |before| {
      schedule, j := SlotOfSchedule(service, existing, day, init, k);
    } else {
      schedule, j := last, k - |before|;
    }
  }

  /** Where a slot of a schedule starts, and whose it is. */
  lemma {:induction false} SlotsBelong(
    service: Service, existing: seq<Booking>, day: Day, staff: Option<StaffId>, m: int, close: int, j: nat)
    requires LoopEnds(m, close, service.duration)
    requires j < |SlotsFrom(SlotAt(service, existing, day, staff), service.duration, m, close)|
    ensures var slot := SlotsFrom(SlotAt(service, existing, day, staff), service.duration, m, close)[j];
            && service.duration > 0 && m <= slot.start && slot.end == slot.start + service.duration
            && slot.staff == staff
            && slot.available == Available(service, existing, day, slot.start)
    decreases j
  {
    if j > 0 {
      SlotsBelong(service, existing, day, staff, m + service.duration, close, j - 1);
    }
  }

  /**
   * Every slot that the engine lists as available, for opening hours that do
   * not start before midnight, is accepted for the slot's own staff member when
   * the bookings it competes with lie inside the day.
   */
  lemma ListedIsAccepted(
    services: map<ServiceId, Service>, bookings: seq<Booking>, schedules: seq<Schedule>,
    tenant: TenantId, id: ServiceId, asked: Option<StaffId>, day: Day, k: nat)
    requires id in services
    requires forall s :: s in schedules && Offers(s, tenant, day, asked) ==>
               s.open >= 0 && LoopEnds(s.open, s.close, services[id].duration)
    requires var slots := SlotList(services[id], bookings, schedules, tenant, id, asked, day);
             && k < |slots| && slots[k].available
             && var start := SlotInstant(day, slots[k].start);
                forall b :: b in bookings && Rivals(tenant, id, slots[k].staff, start, EndOf(services[id], start))(b)
                  ==> InsideDay(b, day)
    ensures var slot := SlotList(services[id], bookings, schedules, tenant, id, asked, day)[k];
            slot.start >= 0
            && CreateBooking(services, bookings, tenant, id, slot.staff, SlotInstant(day, slot.start)).Ok?
  {
    var existing := Filter(bookings, Loads(tenant, id, asked, day));
    var offered := Filter(schedules, Offering(tenant, day, asked));
    var schedule, j := SlotOfSchedule(services[id], existing, day, offered, k);
    SlotsBelong(services[id], existing, day, schedule.staff, schedule.open, schedule.close, j);
    var slot := ScheduleSlots(services[id], existing, day, schedule)[j];
    AvailableInsideTheDay(services, bookings, tenant, id, asked, slot.staff, day, slot.start);
  }

  // ---------------------------------------------------------------- runs in which mark and check differ

  /** The first booking of a free service: who competes with it. */
  lemma FirstBooking(
    services: map<ServiceId, Service>, tenant: TenantId, id: ServiceId, staff: Option<StaffId>, start: Instant)
    requires id in services && services[id].capacity > 0
    ensures var b := NewBooking(tenant, id, staff, start, EndOf(services[id], start));
            && Run(services, [], [Create(tenant, id, staff, start)]) == [b]
            && forall p :: Count([b], p) == if p(b) then 1 else 0
  {
    var e := Create(tenant, id, staff, start);
    var b := NewBooking(tenant, id, staff, start, EndOf(services[id], start));
    assert [e][1..] == [] && Step(services, [], e) == [] + [b];
    forall p ensures Count([b], p) == if p(b) then 1 else 0 {
      assert [b][..0] == [];
    }
  }

  lemma FilterOne(b: Booking, p: Booking -> bool)
    ensures Filter([b], p) == if p(b) then [b] else []
  {
    assert [b][1..] == [];
  }

  /** A booking made for ten minutes before midnight: the first slot of the day is available, and refused. */
  lemma AvailableButRefused(day: Day)
    ensures var services := map[0 := Service(30, 1)];
            var bookings := Run(services, [], [Create(0, 0, None, day.midnight - 10 * MINUTE)]);
            && Available(services[0], Filter(bookings, Loads(0, 0, None, day)), day, 0)
            && !Accepts(services, bookings, 0, 0, None, SlotInstant(day, 0))
  {
    var services := map[0 := Service(30, 1)];
    var start := day.midnight - 10 * MINUTE;
    var b := NewBooking(0, 0, None, start, EndOf(services[0], start));
    FirstBooking(services, 0, 0, None, start);
    FilterOne(b, Loads(0, 0, None, day));
    AvailableMeansFree(services[0], [], day, 0);
  }

  /** One booking of a service for two: its slot is shown as unavailable, and accepted. */
  lemma MarkedButAccepted(day: Day)
    ensures var services := map[0 := Service(30, 2)];
            var bookings := Run(services, [], [Create(0, 0, None, day.midnight)]);
            && !Available(services[0], Filter(bookings, Loads(0, 0, None, day)), day, 0)
            && Accepts(services, bookings, 0, 0, None, SlotInstant(day, 0))
  {
    var services := map[0 := Service(30, 2)];
    var b := NewBooking(0, 0, None, day.midnight, EndOf(services[0], day.midnight));
    FirstBooking(services, 0, 0, None, day.midnight);
    FilterOne(b, Loads(0, 0, None, day));
    AvailableMeansFree(services[0], [b], day, 0);
    assert b in [b] && Overlaps(b, SlotInstant(day, 0), SlotInstant(day, 30));
  }

  /** Listed without a staff member: another one's booking marks the slot, although it does not compete at all. */
  lemma MarkedByAnother(day: Day)
    ensures var services := map[0 := Service(30, 1)];
            var bookings := Run(services, [], [Create(0, 0, Some(8), day.midnight)]);
            var start := SlotInstant(day, 0);
            && !Available(services[0], Filter(bookings, Loads(0, 0, None, day)), day, 0)
            && Accepts(services, bookings, 0, 0, Some(7), start)
            && Count(bookings, Rivals(0, 0, Some(7), start, EndOf(services[0], start))) == 0
  {
    var services := map[0 := Service(30, 1)];
    var b := NewBooking(0, 0, Some(8), day.midnight, EndOf(services[0], day.midnight));
    FirstBooking(services, 0, 0, Some(8), day.midnight);
    FilterOne(b, Loads(0, 0, None, day));
    AvailableMeansFree(services[0], [b], day, 0);
    assert b in [b] && Overlaps(b, SlotInstant(day, 0), SlotInstant(day, 30));
  }
}
