/**
 * Availability search: `TravelScheduleService.getAvailableSchedule` (the
 * request validation cascade and its HTTP status) and
 * `getAvailableSchedules` (the date window and the repository query).
 *
 * The clock is the parameter `now`; `LocalDate.parse` (the ISO 8601
 * calendar date in extended format YYYY-MM-DD, section 4.1.2.2 of
 * ISO 8601:2004) is the opaque partial function `parse`. A `null` request
 * parameter and an empty one behave the same and are both written "".
 */
module AvailabilitySearch {
  import opened Wrappers
  import opened Clock
  import opened Schedules

  /** `MAX_SEARCH_DAYS`: how far ahead of now a search may reach. */
  const MaxSearchDays: int := 30

  /** Why the search answered as it did, one case per branch of the service. */
  datatype SearchReason =
    | DateMissing
    | DestinationMissing
    | SourceMissing
    | UnknownSource
    | UnknownDestination
    | SameStation
    | BadDateFormat
    | DateInPast
    | DateTooFar
    | NoSchedules
    | Available

  /** The HTTP status the service attaches to each outcome. */
  function StatusOf(reason: SearchReason): (status: int)
    ensures status in {200, 400, 404, 422}
    ensures status == 200 <==> reason == Available
    ensures status == 422 <==> reason in {DateInPast, DateTooFar}
    ensures status == 404 <==> reason in {UnknownSource, UnknownDestination, NoSchedules}
  {
    match reason
    case DateMissing => 400
    case DestinationMissing => 400
    case SourceMissing => 400
    case UnknownSource => 404
    case UnknownDestination => 404
    case SameStation => 400
    case BadDateFormat => 400
    case DateInPast => 422
    case DateTooFar => 422
    case NoSchedules => 404
    case Available => 200
  }

  /** The `UnprocessableEntityException`s of the date-window rule. */
  datatype WindowError = InPast | TooFarAhead

  /**
   * `searchDateTime`: midnight of the requested date, or, for today, the
   * current time of day plus one hour (which wraps past midnight).
   */
  function SearchDateTime(searchDate: Day, now: DateTime): DateTime {
    if searchDate == now.date then DateTime(searchDate, TimePlusHours(now.time, 1))
    else AtMidnight(searchDate)
  }

  /**
   * The date-window rule: a date before today is in the past; otherwise
   * the search instant must not lie after now plus `MaxSearchDays` days.
   * The accepted dates are exactly today through today + 30.
   */
  function CheckWindow(searchDate: Day, now: DateTime): (r: Option<WindowError>)
    ensures r == Some(InPast) <==> searchDate < now.date
    ensures r == Some(TooFarAhead) <==> searchDate > now.date + MaxSearchDays
    ensures r == None <==> now.date <= searchDate <= now.date + MaxSearchDays
  {
    var searchAt := SearchDateTime(searchDate, now);
    var maxAt := PlusDays(now, MaxSearchDays);
    InstantOrderIsLexicographic(searchAt, maxAt);
    if searchDate < now.date then Some(InPast)
    else if IsAfter(searchAt, maxAt) then Some(TooFarAhead)
    else None
  }

  /** The predicate of `findBySourceAndDestinationAndEstimatedArrivalTimeAfter`. */
  predicate MatchesQuery(s: TravelSchedule, source: StationId, destination: StationId, after: Instant) {
    s.source == source && s.destination == destination && s.arrival > after
  }

  /**
   * The repository query over a listing: the rows between the two stations
   * that arrive strictly after `after`, in listing order.
   */
  function ArrivingAfter(rows: seq<TravelSchedule>, source: StationId, destination: StationId, after: Instant)
    : (found: seq<TravelSchedule>)
    ensures |found| <= |rows|
    ensures forall s :: s in found <==> s in rows && MatchesQuery(s, source, destination, after)
  {
    if rows == [] then []
    else
      var rest := ArrivingAfter(rows[1..], source, destination, after);
      assert forall s :: s in rows <==> s == rows[0] || s in rows[1..];
      if MatchesQuery(rows[0], source, destination, after) then [rows[0]] + rest else rest
  }

  /**
   * The query keeps listing order: querying a concatenation is
   * concatenating the queries.
   */
  lemma {:induction false} ArrivingAfterKeepsOrder(a: seq<TravelSchedule>, b: seq<TravelSchedule>,
                                                   source: StationId, destination: StationId, after: Instant)
    ensures ArrivingAfter(a + b, source, destination, after)
         == ArrivingAfter(a, source, destination, after) + ArrivingAfter(b, source, destination, after)
  {
    if a == [] {
      assert a + b == b;
    } else {
      assert (a + b)[1..] == a[1..] + b;
      ArrivingAfterKeepsOrder(a[1..], b, source, destination, after);
    }
  }

  /**
   * `getAvailableSchedules`: the date-window rule, then the query for
   * schedules between the two stations arriving after `now`. The
   * requested date decides only whether an error is raised.
   */
  function GetAvailableSchedules(repo: ScheduleRepo, source: Station, destination: Station,
                                 searchDate: Day, now: DateTime)
    : (r: Result<seq<TravelSchedule>, WindowError>)
    requires Valid(repo)
    ensures r.Err? <==> searchDate < now.date || searchDate > now.date + MaxSearchDays
    ensures r.Err? ==> (r.error == InPast <==> searchDate < now.date)
    ensures r.Ok? ==> r.value == ArrivingAfter(Listing(repo), source.id, destination.id, ToInstant(now))
    ensures r.Ok? ==> forall s :: s in r.value <==>
                        Stored(repo, s) && MatchesQuery(s, source.id, destination.id, ToInstant(now))
  {
    match CheckWindow(searchDate, now)
    case Some(e) => Err(e)
    case None => Ok(ArrivingAfter(Listing(repo), source.id, destination.id, ToInstant(now)))
  }

  /** What `getAvailableSchedule` returns: the status reason and the wrapper's schedule list. */
  datatype SearchResponse = SearchResponse(reason: SearchReason, schedules: seq<TravelSchedule>) {
    function Status(): int { StatusOf(reason) }
  }

  /** All request checks pass: codes present and known, distinct, date present and parsable. */
  predicate RequestAccepted(stations: StationDirectory, parse: string -> Option<Day>,
                            sourceCode: string, destinationCode: string, date: string) {
    && date != "" && destinationCode != "" && sourceCode != ""
    && sourceCode in stations && destinationCode in stations
    && sourceCode != destinationCode
    && parse(date).Some?
  }

  /** The schedules the query finds for an accepted request. */
  function QueryFor(stations: StationDirectory, repo: ScheduleRepo, now: DateTime,
                    sourceCode: string, destinationCode: string): seq<TravelSchedule>
    requires Valid(repo)
    requires sourceCode in stations && destinationCode in stations
  {
    ArrivingAfter(Listing(repo), stations[sourceCode].id, stations[destinationCode].id, ToInstant(now))
  }

  /**
   * `getAvailableSchedule`: the validation cascade, in source order, the
   * first failing check deciding the answer; then the date window; then
   * 404 for an empty result and 200 otherwise. The schedule list in the
   * response is the empty list the wrapper was created with: the found
   * schedules are never attached to it.
   */
  function GetAvailableSchedule(stations: StationDirectory, repo: ScheduleRepo,
                                parse: string -> Option<Day>, now: DateTime,
                                sourceCode: string, destinationCode: string, date: string)
    : (r: SearchResponse)
    requires Valid(repo)
    ensures r.schedules == []
    ensures r.reason == DateMissing <==> date == ""
    ensures r.reason == DestinationMissing <==> date != "" && destinationCode == ""
    ensures r.reason == SourceMissing <==> date != "" && destinationCode != "" && sourceCode == ""
    ensures r.reason == UnknownSource <==>
              date != "" && destinationCode != "" && sourceCode != "" && sourceCode !in stations
    ensures r.reason == UnknownDestination <==>
              date != "" && destinationCode != "" && sourceCode != "" && sourceCode in stations
              && destinationCode !in stations
    ensures r.reason == SameStation <==>
              date != "" && sourceCode != "" && sourceCode in stations && sourceCode == destinationCode
    ensures r.reason == BadDateFormat <==>
              date != "" && destinationCode != "" && sourceCode != ""
              && sourceCode in stations && destinationCode in stations
              && sourceCode != destinationCode && parse(date).None?
    ensures r.reason == DateInPast <==>
              RequestAccepted(stations, parse, sourceCode, destinationCode, date)
              && parse(date).value < now.date
    ensures r.reason == DateTooFar <==>
              RequestAccepted(stations, parse, sourceCode, destinationCode, date)
              && parse(date).value > now.date + MaxSearchDays
    ensures r.reason in {NoSchedules, Available} <==>
              RequestAccepted(stations, parse, sourceCode, destinationCode, date)
              && now.date <= parse(date).value <= now.date + MaxSearchDays
    ensures r.reason == Available ==>
              QueryFor(stations, repo, now, sourceCode, destinationCode) != []
    ensures r.reason == NoSchedules ==>
              QueryFor(stations, repo, now, sourceCode, destinationCode) == []
  {
    if date == "" then SearchResponse(DateMissing, [])
    else if destinationCode == "" then SearchResponse(DestinationMissing, [])
    else if sourceCode == "" then SearchResponse(SourceMissing, [])
    else if sourceCode !in stations then SearchResponse(UnknownSource, [])
    else if destinationCode !in stations then SearchResponse(UnknownDestination, [])
    else if sourceCode == destinationCode then SearchResponse(SameStation, [])
    else match parse(date)
      case None => SearchResponse(BadDateFormat, [])
      case Some(d) =>
        match GetAvailableSchedules(repo, stations[sourceCode], stations[destinationCode], d, now)
        case Err(InPast) => SearchResponse(DateInPast, [])
        case Err(TooFarAhead) => SearchResponse(DateTooFar, [])
        case Ok(found) =>
          assert found == QueryFor(stations, repo, now, sourceCode, destinationCode);
          if found == [] then SearchResponse(NoSchedules, []) else SearchResponse(Available, [])
  }

  /**
   * Identical station codes are rejected only once both codes resolve to
   * stations: an unknown code answers 404 first, whatever the date.
   */
  lemma IdenticalCodesRejectedAfterLookup(stations: StationDirectory, repo: ScheduleRepo,
                                          parse: string -> Option<Day>, now: DateTime,
                                          code: string, date: string)
    requires Valid(repo)
    requires date != "" && code != ""
    ensures var r := GetAvailableSchedule(stations, repo, parse, now, code, code, date);
            && (code in stations ==> r.reason == SameStation && r.Status() == 400)
            && (code !in stations ==> r.reason == UnknownSource && r.Status() == 404)
  {
  }

  /**
   * The requested date gates the search but does not filter it: two
   * accepted dates in the window give the same answer.
   */
  lemma RequestedDateDoesNotFilter(stations: StationDirectory, repo: ScheduleRepo,
                                   parse: string -> Option<Day>, now: DateTime,
                                   sourceCode: string, destinationCode: string, date1: string, date2: string)
    requires Valid(repo)
    requires RequestAccepted(stations, parse, sourceCode, destinationCode, date1)
    requires RequestAccepted(stations, parse, sourceCode, destinationCode, date2)
    requires now.date <= parse(date1).value <= now.date + MaxSearchDays
    requires now.date <= parse(date2).value <= now.date + MaxSearchDays
    ensures GetAvailableSchedule(stations, repo, parse, now, sourceCode, destinationCode, date1)
         == GetAvailableSchedule(stations, repo, parse, now, sourceCode, destinationCode, date2)
  {
  }

  /**
   * A search answers 200 exactly when the request is accepted, the date is
   * in the window and some stored schedule between the two stations
   * arrives after now.
   */
  lemma AvailableExactlyWhenSomeScheduleMatches(stations: StationDirectory, repo: ScheduleRepo,
                                                parse: string -> Option<Day>, now: DateTime,
                                                sourceCode: string, destinationCode: string, date: string)
    requires Valid(repo)
    ensures GetAvailableSchedule(stations, repo, parse, now, sourceCode, destinationCode, date).Status() == 200
        <==> && RequestAccepted(stations, parse, sourceCode, destinationCode, date)
             && now.date <= parse(date).value <= now.date + MaxSearchDays
             && exists k :: k in repo.rows
                  && MatchesQuery(repo.rows[k], stations[sourceCode].id, stations[destinationCode].id, ToInstant(now))
  {
    var r := GetAvailableSchedule(stations, repo, parse, now, sourceCode, destinationCode, date);
    if RequestAccepted(stations, parse, sourceCode, destinationCode, date) {
      var src := stations[sourceCode].id;
      var dst := stations[destinationCode].id;
      var found := QueryFor(stations, repo, now, sourceCode, destinationCode);
      if found != [] {
        var k := found[0].id;
        assert Stored(repo, found[0]);
        assert k in repo.rows && MatchesQuery(repo.rows[k], src, dst, ToInstant(now));
      }
      if exists k :: k in repo.rows && MatchesQuery(repo.rows[k], src, dst, ToInstant(now)) {
        var k :| k in repo.rows && MatchesQuery(repo.rows[k], src, dst, ToInstant(now));
        assert Stored(repo, repo.rows[k]);
        assert repo.rows[k] in found;
      }
    }
  }
}
