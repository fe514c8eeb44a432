/**
 * The persistent records the services work on, and the schedule store.
 *
 * The JPA repositories become values: stations are a map from station code
 * to station, and schedules are a map from id to record together with the
 * order in which the repository lists them.
 */
module Schedules {
  import opened Wrappers
  import opened Clock

  type ScheduleId = int
  type StationId = int
  type BusId = int
  type UserId = int

  /** A station: its identity, its unique code and its display name. */
  datatype Station = Station(id: StationId, code: string, name: string)

  /** The station directory, keyed by station code (`findByStationCode`). */
  type StationDirectory = map<string, Station>

  /**
   * A `TravelSchedule` row. Stations and the bus are referenced by id (the
   * repository compares entities by their keys); departure and arrival are
   * instants; `seatCost` is the price of one seat.
   */
  datatype TravelSchedule = TravelSchedule(
    id: ScheduleId,
    source: StationId,
    destination: StationId,
    busId: BusId,
    departure: Instant,
    arrival: Instant,
    totalSeat: int,
    seatBooked: int,
    availableSeat: int,
    seatCost: real)

  /** The seat-inventory invariant: booked and available seats add up to the capacity. */
  predicate SeatsConsistent(s: TravelSchedule) {
    s.seatBooked + s.availableSeat == s.totalSeat
  }

  /**
   * The schedule table: rows by id, and the order in which the repository
   * returns them from a query.
   */
  datatype ScheduleRepo = ScheduleRepo(rows: map<ScheduleId, TravelSchedule>, order: seq<ScheduleId>)

  /**
   * Well-formed store: every row is filed under its own id, and `order`
   * lists every stored id exactly once.
   */
  predicate Valid(repo: ScheduleRepo) {
    && (forall k :: k in repo.rows ==> repo.rows[k].id == k)
    && (forall i :: 0 <= i < |repo.order| ==> repo.order[i] in repo.rows)
    && (forall k :: k in repo.rows ==> k in repo.order)
    && (forall i, j :: 0 <= i < j < |repo.order| ==> repo.order[i] != repo.order[j])
  }

  /** Every stored schedule satisfies the seat-inventory invariant. */
  predicate AllSeatsConsistent(repo: ScheduleRepo) {
    forall k :: k in repo.rows ==> SeatsConsistent(repo.rows[k])
  }

  /** `findById`: the row with that id, if any. */
  function FindById(repo: ScheduleRepo, id: ScheduleId): (r: Option<TravelSchedule>)
    requires Valid(repo)
    ensures r.Some? <==> id in repo.rows
    ensures r.Some? ==> r.value.id == id && Stored(repo, r.value)
  {
    if id in repo.rows then Some(repo.rows[id]) else None
  }

  /**
   * `save`: a row with a known id replaces the stored one in place; a row
   * with a new id is added at the end of the listing order.
   */
  function Save(repo: ScheduleRepo, s: TravelSchedule): (r: ScheduleRepo)
    requires Valid(repo)
    ensures Valid(r)
    ensures r.rows == repo.rows[s.id := s]
    ensures s.id in repo.rows ==> r.order == repo.order
    ensures s.id !in repo.rows ==> r.order == repo.order + [s.id]
  {
    if s.id in repo.rows then
      ScheduleRepo(repo.rows[s.id := s], repo.order)
    else
      var r := ScheduleRepo(repo.rows[s.id := s], repo.order + [s.id]);
      assert forall i :: 0 <= i < |repo.order| ==> r.order[i] == repo.order[i];
      r
  }

  /** `s` is the row the store holds under its id. */
  predicate Stored(repo: ScheduleRepo, s: TravelSchedule) {
    s.id in repo.rows && repo.rows[s.id] == s
  }

  /** The stored schedules in repository order (`findAll`). */
  function Listing(repo: ScheduleRepo): (rows: seq<TravelSchedule>)
    requires Valid(repo)
    ensures |rows| == |repo.order|
    ensures forall i :: 0 <= i < |rows| ==> rows[i] == repo.rows[repo.order[i]]
    ensures forall s :: s in rows <==> Stored(repo, s)
  {
    var rows := seq(|repo.order|, i requires 0 <= i < |repo.order| => repo.rows[repo.order[i]]);
    assert forall s :: Stored(repo, s) ==> s in rows by {
      forall s | Stored(repo, s)
        ensures s in rows
      {
        var i :| 0 <= i < |repo.order| && repo.order[i] == s.id;
        assert rows[i] == s;
      }
    }
    assert forall i :: 0 <= i < |rows| ==> Stored(repo, rows[i]) by {
      forall i | 0 <= i < |rows|
        ensures Stored(repo, rows[i])
      {
        assert rows[i] == repo.rows[repo.order[i]];
      }
    }
    rows
  }
}
