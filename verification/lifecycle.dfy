/**
 * Schedule lifecycle: `TravelScheduleService.createSchedule` and
 * `updateSchedule`, over the in-memory schedule store and the set of known
 * bus ids. Each operation returns its outcome together with the store after
 * it; a failed operation returns the store unchanged.
 */
module ScheduleLifecycle {
  import opened Wrappers
  import opened Clock
  import opened Schedules

  /** The bus-reuse distance of `updateSchedule`: 24 hours. */
  const BusReuseGap: int := HoursPerDay * MinutesPerHour

  /**
   * The schedule fields a client submits (`TravelScheduleDTO`).
   * `seatBooked` is the number of seats requested on create, and the new
   * booked count on update.
   */
  datatype ScheduleDraft = ScheduleDraft(
    source: StationId,
    destination: StationId,
    busId: BusId,
    departure: Instant,
    arrival: Instant,
    totalSeat: int,
    seatBooked: int,
    seatCost: real)

  /** An outcome together with the schedule store after the operation. */
  datatype Saved<+T> = Saved(outcome: T, repo: ScheduleRepo)

  /** The answers of `createSchedule`. */
  datatype CreateOutcome =
    | Created(schedule: TravelSchedule)
    | AlreadyExists
    | SeatsUnavailable(requested: int, available: int)

  /** The HTTP status `createSchedule` answers with. */
  function CreateStatus(o: CreateOutcome): (status: int)
    ensures status == 201 <==> o.Created?
    ensures status == 409 <==> o.AlreadyExists?
    ensures status == 400 <==> o.SeatsUnavailable?
  {
    match o
    case Created(_) => 201
    case AlreadyExists => 409
    case SeatsUnavailable(_, _) => 400
  }

  /** A stored schedule is the same trip as the draft: same stations, bus and times. */
  predicate SameTrip(s: TravelSchedule, d: ScheduleDraft) {
    && s.source == d.source && s.destination == d.destination && s.busId == d.busId
    && s.departure == d.departure && s.arrival == d.arrival
  }

  /** The duplicate query of `createSchedule` finds something. */
  predicate HasDuplicate(repo: ScheduleRepo, d: ScheduleDraft) {
    exists k :: k in repo.rows && SameTrip(repo.rows[k], d)
  }

  /**
   * `createSchedule`: 409 when the same trip is already stored; otherwise
   * the fresh schedule starts with `initialBooked` seats booked, and the
   * requested count is admitted only when it is positive and fits in the
   * remaining seats, in which case the schedule is saved under `newId`
   * (the id the store generates) and 201 is answered; otherwise 400.
   */
  function CreateSchedule(repo: ScheduleRepo, d: ScheduleDraft, initialBooked: int, newId: ScheduleId)
    : (r: Saved<CreateOutcome>)
    requires Valid(repo) && newId !in repo.rows
    ensures Valid(r.repo)
    ensures r.outcome.AlreadyExists? <==> HasDuplicate(repo, d)
    ensures r.outcome.Created? <==> !HasDuplicate(repo, d) && 0 < d.seatBooked <= d.totalSeat - initialBooked
    ensures r.outcome.SeatsUnavailable? ==>
              r.outcome.requested == d.seatBooked && r.outcome.available == d.totalSeat - initialBooked
    ensures !r.outcome.Created? ==> r.repo == repo
    ensures r.outcome.Created? ==>
              var s := r.outcome.schedule;
              && SeatsConsistent(s)
              && s.id == newId && SameTrip(s, d)
              && s.totalSeat == d.totalSeat && s.seatCost == d.seatCost
              && s.seatBooked == initialBooked + d.seatBooked
              && 0 <= s.availableSeat < d.totalSeat - initialBooked
              && r.repo.rows == repo.rows[newId := s]
              && r.repo.order == repo.order + [newId]
  {
    if HasDuplicate(repo, d) then Saved(AlreadyExists, repo)
    else
      var available := d.totalSeat - initialBooked;
      var requested := d.seatBooked;
      if 0 < requested <= available then
        var s := TravelSchedule(newId, d.source, d.destination, d.busId, d.departure, d.arrival,
                                d.totalSeat, initialBooked + requested, available - requested, d.seatCost);
        Saved(Created(s), Save(repo, s))
      else
        Saved(SeatsUnavailable(requested, available), repo)
  }

  /** The answers of `updateSchedule`: `null`, the two exceptions, or the saved row. */
  datatype UpdateOutcome =
    | ScheduleNotFound
    | BusNotFound
    | BusReused
    | Updated(schedule: TravelSchedule)

  /**
   * `existsByBusIdAndEstimatedDepartureTimeGreaterThanEqual`: some stored
   * schedule of the bus departs at or after `from`. The schedule being
   * updated is not excluded.
   */
  predicate BusDepartsFrom(repo: ScheduleRepo, busId: BusId, from: Instant) {
    exists k :: k in repo.rows && repo.rows[k].busId == busId && repo.rows[k].departure >= from
  }

  /** The stored row with the submitted fields written over it. */
  function Overwrite(s: TravelSchedule, d: ScheduleDraft): TravelSchedule {
    s.(busId := d.busId, arrival := d.arrival, departure := d.departure,
       totalSeat := d.totalSeat, seatBooked := d.seatBooked, seatCost := d.seatCost)
  }

  /**
   * `updateSchedule`: an unknown id gives `null`; otherwise the bus is
   * looked up (unknown: `EntityNotFoundException`); a stored departure of
   * that bus at or after the new arrival plus 24 hours raises
   * `IllegalStateException`; otherwise bus, times, seat counts and cost
   * are overwritten and the row saved. Nothing is saved on any failure.
   */
  function UpdateSchedule(repo: ScheduleRepo, buses: set<BusId>, id: ScheduleId, d: ScheduleDraft)
    : (r: Saved<UpdateOutcome>)
    requires Valid(repo)
    ensures Valid(r.repo)
    ensures r.outcome.ScheduleNotFound? <==> id !in repo.rows
    ensures r.outcome.BusNotFound? <==> id in repo.rows && d.busId !in buses
    ensures r.outcome.BusReused? <==>
              id in repo.rows && d.busId in buses && BusDepartsFrom(repo, d.busId, d.arrival + BusReuseGap)
    ensures !r.outcome.Updated? ==> r.repo == repo
    ensures r.outcome.Updated? ==>
              var before := repo.rows[id];
              var s := r.outcome.schedule;
              && s.id == id
              && s.source == before.source && s.destination == before.destination
              && s.availableSeat == before.availableSeat
              && s.busId == d.busId && s.arrival == d.arrival && s.departure == d.departure
              && s.totalSeat == d.totalSeat && s.seatBooked == d.seatBooked && s.seatCost == d.seatCost
              && r.repo.rows == repo.rows[id := s]
              && r.repo.order == repo.order
  {
    match FindById(repo, id)
    case None => Saved(ScheduleNotFound, repo)
    case Some(existing) =>
      if d.busId !in buses then Saved(BusNotFound, repo)
      else if BusDepartsFrom(repo, d.busId, d.arrival + BusReuseGap) then Saved(BusReused, repo)
      else
        var s := Overwrite(existing, d);
        Saved(Updated(s), Save(repo, s))
  }

  /** Creating a schedule keeps every stored schedule's seat counts consistent. */
  lemma CreatePreservesSeatConsistency(repo: ScheduleRepo, d: ScheduleDraft, initialBooked: int, newId: ScheduleId)
    requires Valid(repo) && newId !in repo.rows && AllSeatsConsistent(repo)
    ensures AllSeatsConsistent(CreateSchedule(repo, d, initialBooked, newId).repo)
  {
  }

  /** Submitting the same trip again after it was created answers 409. */
  lemma CreateTwiceConflicts(repo: ScheduleRepo, d: ScheduleDraft, initialBooked: int, newId: ScheduleId,
                             initialBooked2: int, newId2: ScheduleId)
    requires Valid(repo) && newId !in repo.rows
    requires CreateSchedule(repo, d, initialBooked, newId).outcome.Created?
    requires newId2 !in CreateSchedule(repo, d, initialBooked, newId).repo.rows
    ensures CreateSchedule(CreateSchedule(repo, d, initialBooked, newId).repo, d, initialBooked2, newId2).outcome
         == AlreadyExists
  {
    var r := CreateSchedule(repo, d, initialBooked, newId);
    assert newId in r.repo.rows && SameTrip(r.repo.rows[newId], d);
  }

  /**
   * The reuse query does not exclude the schedule being updated: if its
   * own stored departure is 24 hours or more after the new arrival, the
   * update is refused.
   */
  lemma ReuseCheckSeesTheUpdatedSchedule(repo: ScheduleRepo, buses: set<BusId>, id: ScheduleId, d: ScheduleDraft)
    requires Valid(repo) && id in repo.rows && d.busId in buses
    requires repo.rows[id].busId == d.busId && repo.rows[id].departure >= d.arrival + BusReuseGap
    ensures UpdateSchedule(repo, buses, id, d).outcome == BusReused
  {
  }

  /**
   * The reuse rule is not a 24-hour window: another schedule of the same
   * bus departing one hour after the new arrival does not block the
   * update, and the update, which checks no seat counts, leaves
   * `seatBooked + availableSeat != totalSeat`.
   */
  lemma BusReuseIsNotAWindow()
    ensures var row1 := TravelSchedule(1, 10, 20, 7, 0, 100, 40, 10, 30, 5.0);
            var row2 := TravelSchedule(2, 20, 10, 7, 3060, 3300, 40, 0, 40, 5.0);
            var repo := ScheduleRepo(map[1 := row1, 2 := row2], [1, 2]);
            var d := ScheduleDraft(10, 20, 7, 2000, 3000, 50, 10, 5.0);
            var r := UpdateSchedule(repo, {7}, 1, d);
            && row2.busId == d.busId && d.arrival <= row2.departure < d.arrival + BusReuseGap
            && r.outcome.Updated?
            && !SeatsConsistent(r.outcome.schedule)
  {
  }
}
