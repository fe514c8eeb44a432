/**
 * The booking engine: `BookingService.createBooking` — the argument and
 * lookup checks, the seat-availability check against
 * `totalSeat - seatBooked`, the seat-counter update, and the price: seats
 * times seat cost, plus 12% tax, plus the priced add-ons.
 *
 * Money is an exact `real`; add-on prices are integers.
 */
module Bookings {
  import opened Wrappers
  import opened Schedules

  /** An `ExtraAddon`: an item name and a quantity. */
  datatype Addon = Addon(name: string, quantity: int)

  /** The add-on price list, matched by exact, case-sensitive name. */
  const AddonPrices: map<string, int> := map["ColdDrink" := 20, "New Papper" := 10, "Chips" := 30]

  /** The unit price of an add-on; a name not on the list costs nothing and is not rejected. */
  function UnitPrice(name: string): (price: int)
    ensures name in AddonPrices ==> price == AddonPrices[name]
    ensures name !in AddonPrices ==> price == 0
    ensures price != 0 <==> name in {"ColdDrink", "New Papper", "Chips"}
  {
    if name in AddonPrices then AddonPrices[name] else 0
  }

  /** The cost of one add-on line: quantity times unit price. */
  function LineCost(a: Addon): int {
    a.quantity * UnitPrice(a.name)
  }

  /** The add-on cost of a list: the sum of its line costs. */
  function AddonCost(addons: seq<Addon>): int {
    if addons == [] then 0
    else AddonCost(addons[..|addons| - 1]) + LineCost(addons[|addons| - 1])
  }

  /** Add-on cost is additive over concatenation. */
  lemma {:induction false} AddonCostAppend(a: seq<Addon>, b: seq<Addon>)
    ensures AddonCost(a + b) == AddonCost(a) + AddonCost(b)
  {
    if b == [] {
      assert a + b == a;
    } else {
      var b' := b[..|b| - 1];
      assert (a + b)[..|a + b| - 1] == a + b';
      assert (a + b)[|a + b| - 1] == b[|b| - 1];
      AddonCostAppend(a, b');
    }
  }

  /** Lines whose names are not on the price list add nothing to the cost. */
  lemma {:induction false} UnknownAddonsAreFree(addons: seq<Addon>)
    requires forall i :: 0 <= i < |addons| ==> addons[i].name !in AddonPrices
    ensures AddonCost(addons) == 0
  {
    if addons != [] {
      UnknownAddonsAreFree(addons[..|addons| - 1]);
    }
  }

  /** The add-on loop of `createBooking`, accumulating line by line. */
  method SumAddonCost(addons: seq<Addon>) returns (cost: int)
    ensures cost == AddonCost(addons)
  {
    cost := 0;
    var i := 0;
    while i < |addons|
      invariant 0 <= i <= |addons|
      invariant cost == AddonCost(addons[..i])
    {
      var a := addons[i];
      if a.name == "ColdDrink" {
        cost := cost + a.quantity * 20;
      } else if a.name == "New Papper" {
        cost := cost + a.quantity * 10;
      } else if a.name == "Chips" {
        cost := cost + a.quantity * 30;
      }
      assert addons[..i + 1][..i] == addons[..i];
      i := i + 1;
    }
    assert addons[..i] == addons;
  }

  /** The tax rate applied to the seat subtotal (GST). */
  const TaxRate: real := 0.12

  /** The seat price before add-ons: subtotal plus tax on it. */
  function SeatAmount(numberOfSeats: int, seatCost: real): real {
    var subtotal := numberOfSeats as real * seatCost;
    subtotal + subtotal * TaxRate
  }

  /** The add-on list is present (not `null`) and non-empty. */
  predicate HasAddons(addons: Option<seq<Addon>>) {
    addons.Some? && addons.value != []
  }

  /** A booking request (`BookingDTO`); `None` stands for a `null` reference or id. */
  datatype BookingRequest = BookingRequest(
    scheduleId: Option<ScheduleId>,
    userId: Option<UserId>,
    numberOfSeats: int,
    extraAddons: Option<seq<Addon>>)

  /**
   * A saved `Booking`: the user, the schedule as updated by the booking,
   * the seat cost at booking time, the seat count, the total, and the
   * add-ons (left empty unless a non-empty list was given).
   */
  datatype Booking = Booking(
    user: UserId,
    schedule: TravelSchedule,
    seatCost: real,
    numberOfSeats: int,
    totalAmount: real,
    extraAddons: seq<Addon>)

  /** The exceptions `createBooking` throws. */
  datatype BookingError =
    | MissingScheduleId   // IllegalArgumentException
    | MissingUserId       // IllegalArgumentException
    | UserNotFound
    | ScheduleNotFound
    | InsufficientSeats

  /** A booking and the stores after it, or the exception raised (nothing saved). */
  datatype BookingResult =
    | Booked(booking: Booking, repo: ScheduleRepo, bookings: seq<Booking>)
    | Failed(error: BookingError)

  /** The seats a schedule still has by its counters; the stored `availableSeat` is not consulted. */
  function FreeSeats(s: TravelSchedule): int {
    s.totalSeat - s.seatBooked
  }

  /**
   * `createBooking`: the schedule id is checked before the user id, the
   * user is looked up before the schedule, then the requested seats must
   * not exceed `totalSeat - seatBooked` (there is no lower bound); the
   * schedule's counters are advanced and it is saved, and the booking is
   * priced and appended to `bookings`.
   */
  function CreateBooking(users: set<UserId>, repo: ScheduleRepo, bookings: seq<Booking>, req: BookingRequest)
    : (r: BookingResult)
    requires Valid(repo)
    ensures r.Failed? ==>
              (r.error == MissingScheduleId <==> req.scheduleId.None?)
    ensures r.Failed? && r.error == MissingUserId <==> req.scheduleId.Some? && req.userId.None?
    ensures r.Failed? && r.error == UserNotFound <==>
              req.scheduleId.Some? && req.userId.Some? && req.userId.value !in users
    ensures r.Failed? && r.error == ScheduleNotFound <==>
              req.scheduleId.Some? && req.userId.Some? && req.userId.value in users
              && req.scheduleId.value !in repo.rows
    ensures r.Failed? && r.error == InsufficientSeats <==>
              && req.scheduleId.Some? && req.userId.Some? && req.userId.value in users
              && req.scheduleId.value in repo.rows
              && req.numberOfSeats > FreeSeats(repo.rows[req.scheduleId.value])
    ensures r.Booked? <==>
              && req.scheduleId.Some? && req.userId.Some? && req.userId.value in users
              && req.scheduleId.value in repo.rows
              && req.numberOfSeats <= FreeSeats(repo.rows[req.scheduleId.value])
    ensures r.Booked? ==>
              var id := req.scheduleId.value;
              var before := repo.rows[id];
              var after := r.booking.schedule;
              var n := req.numberOfSeats;
              && Valid(r.repo)
              && after == before.(seatBooked := before.seatBooked + n,
                                  availableSeat := before.totalSeat - before.seatBooked - n)
              && SeatsConsistent(after) && after.seatBooked <= after.totalSeat
              && r.repo.rows == repo.rows[id := after] && r.repo.order == repo.order
              && r.booking.user == req.userId.value
              && r.booking.seatCost == before.seatCost
              && r.booking.numberOfSeats == n
              && r.bookings == bookings + [r.booking]
  {
    if req.scheduleId.None? then Failed(MissingScheduleId)
    else if req.userId.None? then Failed(MissingUserId)
    else if req.userId.value !in users then Failed(UserNotFound)
    else match FindById(repo, req.scheduleId.value)
    case None => Failed(ScheduleNotFound)
    case Some(schedule) =>
      var n := req.numberOfSeats;
      var amount := SeatAmount(n, schedule.seatCost);
      var available := FreeSeats(schedule);
      if n > available then Failed(InsufficientSeats)
      else
        var updated := schedule.(seatBooked := schedule.seatBooked + n, availableSeat := available - n);
        var booking :=
          if HasAddons(req.extraAddons) then
            Booking(req.userId.value, updated, schedule.seatCost, n,
                    amount + AddonCost(req.extraAddons.value) as real, req.extraAddons.value)
          else
            Booking(req.userId.value, updated, schedule.seatCost, n, amount, []);
        Booked(booking, Save(repo, updated), bookings + [booking])
  }

  /**
   * The booking total is the seat amount with 12% tax plus the add-on cost
   * of the given list, and the add-ons are attached only when the list is
   * present and non-empty.
   */
  lemma BookingTotalFormula(users: set<UserId>, repo: ScheduleRepo, bookings: seq<Booking>, req: BookingRequest)
    requires Valid(repo)
    requires CreateBooking(users, repo, bookings, req).Booked?
    ensures var b := CreateBooking(users, repo, bookings, req).booking;
            var addons := if req.extraAddons.Some? then req.extraAddons.value else [];
            && b.totalAmount == (1.0 + TaxRate) * (b.numberOfSeats as real) * b.seatCost + AddonCost(addons) as real
            && b.extraAddons == (if HasAddons(req.extraAddons) then req.extraAddons.value else [])
  {
  }

  /** 3 seats at 100 with two cold drinks and one chips: 300 + 36 tax + 70 = 406. */
  lemma ExampleBookingTotal()
    ensures var schedule := TravelSchedule(5, 1, 2, 7, 0, 600, 40, 0, 40, 100.0);
            var repo := ScheduleRepo(map[5 := schedule], [5]);
            var req := BookingRequest(Some(5), Some(9), 3, Some([Addon("ColdDrink", 2), Addon("Chips", 1)]));
            var r := CreateBooking({9}, repo, [], req);
            && r.Booked? && r.booking.totalAmount == 406.0
            && r.booking.schedule.seatBooked == 3 && r.booking.schedule.availableSeat == 37
  {
    var addons := [Addon("ColdDrink", 2), Addon("Chips", 1)];
    assert addons[..1] == [Addon("ColdDrink", 2)];
    assert AddonCost(addons) == 70;
  }

  /** Booking keeps every stored schedule's seat counts consistent. */
  lemma BookingPreservesSeatConsistency(users: set<UserId>, repo: ScheduleRepo, bookings: seq<Booking>,
                                        req: BookingRequest)
    requires Valid(repo) && AllSeatsConsistent(repo)
    ensures var r := CreateBooking(users, repo, bookings, req);
            r.Booked? ==> AllSeatsConsistent(r.repo)
  {
  }

  /**
   * There is no lower bound on the seat count: zero or negative counts pass
   * the availability check and lower (or keep) the booked count.
   */
  lemma NonPositiveSeatCountsAreApplied(users: set<UserId>, repo: ScheduleRepo, bookings: seq<Booking>,
                                        req: BookingRequest)
    requires Valid(repo)
    requires req.scheduleId.Some? && req.userId.Some? && req.userId.value in users
    requires req.scheduleId.value in repo.rows
    requires repo.rows[req.scheduleId.value].seatBooked <= repo.rows[req.scheduleId.value].totalSeat
    requires req.numberOfSeats <= 0
    ensures var r := CreateBooking(users, repo, bookings, req);
            && r.Booked?
            && r.booking.schedule.seatBooked == repo.rows[req.scheduleId.value].seatBooked + req.numberOfSeats
            && r.booking.schedule.seatBooked <= repo.rows[req.scheduleId.value].seatBooked
  {
  }

  /** The spelling "New Paper" is not on the price list and costs nothing. */
  lemma NewspaperSpellingIsExact()
    ensures UnitPrice("New Paper") == 0 && UnitPrice("New Papper") == 10
    ensures UnitPrice("coldDrink") == 0 && UnitPrice("ColdDrink") == 20
  {
  }
}
