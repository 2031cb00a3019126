/**
  The odometer endpoints: recording a reading for one of the caller's
  vehicles (answered with the services the reading makes due) and the
  caller's reading history.
 */
module OdometerReadings {
  import opened Wrappers
  import opened Domain
  import opened Access
  import opened Eligibility
  import MaintenanceRequests
  import Ordering

  datatype OdometerReadingDto = OdometerReadingDto(vehicleId: int, reading: int)

  /** A due service as the reading endpoint reports it. */
  datatype ServiceOffer = ServiceOffer(name: string, cost: Cost)

  /** The services due at `reading`, as offers keyed by service id. */
  function Offers(catalog: map<int, MaintenanceService>, reading: int): (offers: map<int, ServiceOffer>)
    ensures offers.Keys == RequiredServices(catalog, reading).Keys
    ensures forall id :: id in offers ==> offers[id] == ServiceOffer(catalog[id].name, catalog[id].cost)
  {
    var due := RequiredServices(catalog, reading);
    map id | id in due :: ServiceOffer(due[id].name, due[id].cost)
  }

  /**
    `AddOdometerReading`: the ownership guard, then one new reading with the
    given value, answered with the services due at that value. Unlike a
    booking, the value is not required to be positive.
   */
  function AddOdometerReading(s: Store, c: Caller, dto: OdometerReadingDto, now: Time): (r: Result<(Store, map<int, ServiceOffer>), Error>)
    requires Wf(s)
    ensures CallerId(c).Err? ==> r == Err(Unauthorized)
    ensures CallerId(c).Ok? ==>
      (r.Err? <==> !(dto.vehicleId in s.vehicles && s.vehicles[dto.vehicleId].ownerId == c.userId.value))
    ensures CallerId(c).Ok? && r.Err? ==> r.error == VehicleNotFoundOrNotOwned
    ensures r.Ok? ==>
      && Added(s.readings, r.value.0.readings, s.nextReadingId, OdometerReading(dto.vehicleId, dto.reading, now))
      && r.value.0 == s.(readings := r.value.0.readings, nextReadingId := s.nextReadingId + 1)
    ensures r.Ok? ==> r.value.1 == Offers(s.services, dto.reading)
    ensures r.Ok? ==> r.value.1.Keys == RequiredServices(s.services, dto.reading).Keys
    ensures r.Ok? ==> forall id :: id in r.value.1 ==> r.value.1[id] == ServiceOffer(s.services[id].name, s.services[id].cost)
    ensures r.Ok? ==> Wf(r.value.0) && (Coherent(s) ==> Coherent(r.value.0))
  {
    match CallerId(c)
    case Err(e) => Err(e)
    case Ok(uid) =>
      match OwnedVehicle(s, uid, dto.vehicleId)
      case Err(e) => Err(e)
      case Ok(_) =>
        var rid := s.nextReadingId;
        var s' := s.(readings := s.readings[rid := OdometerReading(dto.vehicleId, dto.reading, now)], nextReadingId := rid + 1);
        assert rid !in s.readings;
        assert forall q :: q in s.requests ==> s.requests[q].readingId != rid;
        Ok((s', Offers(s.services, dto.reading)))
  }

  /** A reading no service range covers is still recorded, and answered with no offers rather than an error. */
  lemma UncoveredReadingStillRecorded(s: Store, uid: int, role: string, dto: OdometerReadingDto, now: Time)
    requires Wf(s)
    requires dto.vehicleId in s.vehicles && s.vehicles[dto.vehicleId].ownerId == uid
    requires forall id :: id in s.services ==> !Covers(s.services[id], dto.reading)
    ensures var r := AddOdometerReading(s, Authenticated(Some(uid), role), dto, now);
      r.Ok? && r.value.1 == map[] && s.nextReadingId in r.value.0.readings
  {
    var r := AddOdometerReading(s, Authenticated(Some(uid), role), dto, now);
    var due := RequiredServices(s.services, dto.reading);
    assert forall id :: id in s.services ==> id !in due;
    assert due.Keys == {};
    assert r.value.1.Keys == {};
  }

  /**
    A non-positive value is recorded by the reading endpoint for the same
    caller and vehicle that the booking endpoint rejects it for.
   */
  lemma NonPositiveReadingAcceptedHereOnly(s: Store, uid: int, role: string, vehicleId: int, serviceId: int, value: int, now: Time)
    requires Wf(s)
    requires vehicleId in s.vehicles && s.vehicles[vehicleId].ownerId == uid
    requires value <= 0
    ensures AddOdometerReading(s, Authenticated(Some(uid), role), OdometerReadingDto(vehicleId, value), now).Ok?
    ensures MaintenanceRequests.BookService(s, Authenticated(Some(uid), role), MaintenanceRequests.BookServiceDto(vehicleId, serviceId, value), now) == Err(InvalidInput)
  {
  }

  // ---------------------------------------------------------------------
  // The caller's reading history, newest first
  // ---------------------------------------------------------------------

  /**
    A history row. The response carries no reading id; the model keeps it to
    name the row the view was taken from.
   */
  datatype ReadingRow = ReadingRow(readingId: int, vehicleType: string, licensePlate: string, reading: int, readingDate: Time)

  /** Reading `r` belongs to a vehicle `uid` owns, and to the requested vehicle if one was given. */
  predicate InHistory(s: Store, uid: int, vehicleId: Option<int>, r: int) {
    && r in s.readings
    && s.readings[r].vehicleId in s.vehicles
    && s.vehicles[s.readings[r].vehicleId].ownerId == uid
    && (vehicleId.Some? ==> s.readings[r].vehicleId == vehicleId.value)
  }

  function HistoryIds(s: Store, uid: int, vehicleId: Option<int>): set<int> {
    set r | r in s.readings && InHistory(s, uid, vehicleId, r)
  }

  function Row(s: Store, r: int): ReadingRow
    requires r in s.readings && s.readings[r].vehicleId in s.vehicles
  {
    var o := s.readings[r];
    var v := s.vehicles[o.vehicleId];
    ReadingRow(r, v.vehicleType, v.licensePlate, o.value, o.readingDate)
  }

  function ReadingIds(rows: seq<ReadingRow>): (ids: seq<int>)
    ensures |ids| == |rows| && forall i :: 0 <= i < |rows| ==> ids[i] == rows[i].readingId
  {
    seq(|rows|, i requires 0 <= i < |rows| => rows[i].readingId)
  }

  /**
    `GetUserOdometerReadings`: each reading of the caller's vehicles exactly
    once (of one vehicle when `vehicleId` is given), newest reading date first.
   */
  method GetUserOdometerReadings(s: Store, c: Caller, vehicleId: Option<int>) returns (r: Result<seq<ReadingRow>, Error>)
    ensures r.Err? <==> CallerId(c).Err?
    ensures r.Err? ==> r.error == Unauthorized
    ensures r.Ok? ==> multiset(ReadingIds(r.value)) == multiset(HistoryIds(s, c.userId.value, vehicleId))
    ensures r.Ok? ==> forall i :: 0 <= i < |r.value| ==>
      InHistory(s, c.userId.value, vehicleId, r.value[i].readingId) && r.value[i] == Row(s, r.value[i].readingId)
    ensures r.Ok? ==> forall i, j :: 0 <= i < j < |r.value| ==> r.value[i].readingDate >= r.value[j].readingDate
  {
    var caller := CallerId(c);
    if caller.Err? {
      return Err(caller.error);
    }
    var uid := caller.value;
    var dates := map id | id in HistoryIds(s, uid, vehicleId) :: s.readings[id].readingDate;
    var ids := Ordering.NewestFirst(dates);
    Ordering.PermutationOfSet(ids, dates.Keys);
    var rows := seq(|ids|, i requires 0 <= i < |ids| => Row(s, ids[i]));
    assert ReadingIds(rows) == ids;
    assert dates.Keys == HistoryIds(s, uid, vehicleId);
    r := Ok(rows);
  }

  /** A recorded reading is in its owner's history, both unfiltered and filtered to its vehicle. */
  lemma RecordedReadingInHistory(s: Store, uid: int, role: string, dto: OdometerReadingDto, now: Time)
    requires Wf(s)
    requires AddOdometerReading(s, Authenticated(Some(uid), role), dto, now).Ok?
    ensures var s' := AddOdometerReading(s, Authenticated(Some(uid), role), dto, now).value.0;
      && s.nextReadingId in HistoryIds(s', uid, None)
      && s.nextReadingId in HistoryIds(s', uid, Some(dto.vehicleId))
  {
  }

  /** Histories of different users never share a reading. */
  lemma HistoriesDisjoint(s: Store, a: int, b: int, fa: Option<int>, fb: Option<int>)
    requires a != b
    ensures HistoryIds(s, a, fa) !! HistoryIds(s, b, fb)
  {
  }

  /** Filtering to one vehicle keeps exactly the unfiltered history's readings of that vehicle. */
  lemma FilteredHistoryIsRestriction(s: Store, uid: int, vid: int)
    ensures HistoryIds(s, uid, Some(vid)) == set r | r in HistoryIds(s, uid, None) && s.readings[r].vehicleId == vid
  {
  }
}
