/**
  The maintenance-request endpoints: booking a service for a vehicle, the
  owner's and the administrator's request listings, and the administrator's
  single-field edits of a request.
 */
module MaintenanceRequests {
  import opened Wrappers
  import opened Domain
  import opened Access
  import opened Eligibility
  import opened Validation
  import Ordering

  datatype BookServiceDto = BookServiceDto(vehicleId: int, serviceId: int, reading: int)

  /** What a successful booking answers with. */
  datatype Booking = Booking(requestId: int, serviceId: int, status: string)

  /** The booking's input checks, done before anything is looked up. */
  predicate WellFormedBooking(dto: BookServiceDto) {
    dto.serviceId > 0 && dto.vehicleId > 0 && dto.reading > 0
  }

  /**
    `s'` is `s` with exactly the three rows of one booking added under fresh
    identities: the reading, a Pending request on the same vehicle pointing at
    that reading, and a line item linking that request to the service.
   */
  predicate BookedAs(s: Store, s': Store, dto: BookServiceDto, now: Time, b: Booking) {
    var rid, qid, lid := s.nextReadingId, s.nextRequestId, s.nextLineItemId;
    && b == Booking(qid, dto.serviceId, Pending)
    && Added(s.readings, s'.readings, rid, OdometerReading(dto.vehicleId, dto.reading, now))
    && Added(s.requests, s'.requests, qid, MaintenanceRequest(dto.vehicleId, rid, now, Pending, None, None))
    && Added(s.lineItems, s'.lineItems, lid, LineItem(qid, dto.serviceId))
    && s'.users == s.users
    && s'.vehicles == s.vehicles
    && s'.services == s.services
  }

  /** The writes of a booking whose checks have all passed. */
  function Commit(s: Store, dto: BookServiceDto, now: Time): (Store, Booking) {
    var rid, qid, lid := s.nextReadingId, s.nextRequestId, s.nextLineItemId;
    var s' := s.(
      readings := s.readings[rid := OdometerReading(dto.vehicleId, dto.reading, now)],
      requests := s.requests[qid := MaintenanceRequest(dto.vehicleId, rid, now, Pending, None, None)],
      lineItems := s.lineItems[lid := LineItem(qid, dto.serviceId)],
      nextReadingId := rid + 1,
      nextRequestId := qid + 1,
      nextLineItemId := lid + 1);
    (s', Booking(qid, dto.serviceId, Pending))
  }

  lemma CommitKeepsInvariants(s: Store, dto: BookServiceDto, now: Time)
    requires Wf(s)
    requires dto.vehicleId in s.vehicles && dto.serviceId in s.services
    ensures BookedAs(s, Commit(s, dto, now).0, dto, now, Commit(s, dto, now).1)
    ensures Wf(Commit(s, dto, now).0)
    ensures Coherent(s) ==> Coherent(Commit(s, dto, now).0)
  {
  }

  /**
    `BookService`: the input checks, then the caller's identity, then the
    ownership guard, then the service lookup, then the inclusive range check;
    only when all pass are the reading, the request and the line item written.
   */
  function BookService(s: Store, c: Caller, dto: BookServiceDto, now: Time): (r: Result<(Store, Booking), Error>)
    requires Wf(s)
    ensures c.Anonymous? ==> r == Err(Unauthorized)
    ensures c.Authenticated? && !WellFormedBooking(dto) ==> r == Err(InvalidInput)
    ensures c.Authenticated? && WellFormedBooking(dto) && c.userId.None? ==> r == Err(Unauthorized)
    ensures c.Authenticated? && WellFormedBooking(dto) && c.userId.Some? ==>
      (r == Err(VehicleNotFoundOrNotOwned) <==> !(dto.vehicleId in s.vehicles && s.vehicles[dto.vehicleId].ownerId == c.userId.value))
    ensures c.Authenticated? && WellFormedBooking(dto) && c.userId.Some? && OwnedVehicle(s, c.userId.value, dto.vehicleId).Ok? ==>
      && (dto.serviceId !in s.services ==> r == Err(ServiceNotFound))
      && (dto.serviceId in s.services ==>
            (r.Ok? <==> s.services[dto.serviceId].minimumOdometer <= dto.reading <= s.services[dto.serviceId].maximumOdometer))
      && (dto.serviceId in s.services && r.Err? ==> r.error == ReadingOutOfServiceRange)
    ensures r.Ok? ==>
      && c.Authenticated? && c.userId.Some? && WellFormedBooking(dto)
      && dto.vehicleId in s.vehicles && s.vehicles[dto.vehicleId].ownerId == c.userId.value
      && dto.serviceId in s.services
      && s.services[dto.serviceId].minimumOdometer <= dto.reading <= s.services[dto.serviceId].maximumOdometer
    ensures r.Ok? ==> BookedAs(s, r.value.0, dto, now, r.value.1) && Wf(r.value.0)
    ensures r.Ok? && Coherent(s) ==> Coherent(r.value.0)
  {
    if c.Anonymous? then Err(Unauthorized)
    else if !WellFormedBooking(dto) then Err(InvalidInput)
    else match CallerId(c)
      case Err(e) => Err(e)
      case Ok(uid) =>
        match OwnedVehicle(s, uid, dto.vehicleId)
        case Err(e) => Err(e)
        case Ok(_) =>
          if dto.serviceId !in s.services then Err(ServiceNotFound)
          else if !Covers(s.services[dto.serviceId], dto.reading) then Err(ReadingOutOfServiceRange)
          else
            CommitKeepsInvariants(s, dto, now);
            Ok(Commit(s, dto, now))
  }

  /**
    Once the caller, the input and the vehicle have passed, a booking succeeds
    exactly when the eligibility matcher lists the requested service for the
    reading.
   */
  lemma BookingAgreesWithMatcher(s: Store, uid: int, dto: BookServiceDto, now: Time)
    requires Wf(s)
    requires WellFormedBooking(dto)
    requires dto.vehicleId in s.vehicles && s.vehicles[dto.vehicleId].ownerId == uid
    ensures BookService(s, Authenticated(Some(uid), RoleUser), dto, now).Ok? <==> dto.serviceId in RequiredServices(s.services, dto.reading)
    ensures dto.serviceId in s.services && dto.serviceId !in RequiredServices(s.services, dto.reading) ==>
      BookService(s, Authenticated(Some(uid), RoleUser), dto, now) == Err(ReadingOutOfServiceRange)
  {
  }

  /**
    Booking never touches a vehicle the caller does not own: whoever owns it
    instead, and whether or not it exists, the answer is the same.
   */
  lemma BookingCannotReachForeignVehicle(s: Store, uid: int, role: string, dto: BookServiceDto, now: Time)
    requires Wf(s)
    requires WellFormedBooking(dto)
    requires dto.vehicleId !in s.vehicles || s.vehicles[dto.vehicleId].ownerId != uid
    ensures BookService(s, Authenticated(Some(uid), role), dto, now) == Err(VehicleNotFoundOrNotOwned)
  {
  }

  // ---------------------------------------------------------------------
  // The owner's listing
  // ---------------------------------------------------------------------

  /** A field shown as stored, or replaced by placeholder text when there is nothing to show. */
  datatype Shown<T> = Shown(value: T) | Placeholder(text: string)

  const CompletionPlaceholder := "The completion date will be updated as soon as details are available."
  const NotesPlaceholder := "Admin notes will be updated as soon as details are available."

  /** The completion date, or the placeholder when it has not been set. */
  function CompletionShown(d: Option<Time>): (r: Shown<Time>)
    ensures r.Placeholder? <==> d.None?
    ensures r.Shown? ==> r.value == d.value
    ensures r.Placeholder? ==> r.text == CompletionPlaceholder
  {
    match d
    case Some(t) => Shown(t)
    case None => Placeholder(CompletionPlaceholder)
  }

  /** The admin notes, or the placeholder when they are null or empty. */
  function NotesShown(n: Option<string>): (r: Shown<string>)
    ensures r.Placeholder? <==> n.None? || n.value == ""
    ensures r.Shown? ==> r.value == n.value && |r.value| > 0
    ensures r.Placeholder? ==> r.text == NotesPlaceholder
  {
    if n.Some? && n.value != "" then Shown(n.value) else Placeholder(NotesPlaceholder)
  }

  /** The names of the services requested by request `q`, keyed by line item. */
  function ServiceNames(s: Store, q: int): map<int, string> {
    map l | l in s.lineItems && s.lineItems[l].requestId == q && s.lineItems[l].serviceId in s.services
      :: s.services[s.lineItems[l].serviceId].name
  }

  datatype RequestSummary = RequestSummary(
    vehicleId: int,
    requestDate: Time,
    status: string,
    completionDate: Shown<Time>,
    adminNotes: Shown<string>,
    services: map<int, string>)

  function Summary(s: Store, q: int): RequestSummary
    requires q in s.requests
  {
    var m := s.requests[q];
    RequestSummary(m.vehicleId, m.requestDate, m.status, CompletionShown(m.completionDate), NotesShown(m.adminNotes), ServiceNames(s, q))
  }

  /** The request `q` is on a vehicle that `uid` owns. */
  predicate OwnsRequest(s: Store, uid: int, q: int) {
    q in s.requests && s.requests[q].vehicleId in s.vehicles && s.vehicles[s.requests[q].vehicleId].ownerId == uid
  }

  /** `GetUserMaintenanceRequests`: the caller's requests, keyed by request id. */
  function GetUserMaintenanceRequests(s: Store, c: Caller): (r: Result<map<int, RequestSummary>, Error>)
    ensures r.Err? <==> CallerId(c).Err?
    ensures r.Err? ==> r.error == Unauthorized
    ensures r.Ok? ==> forall q :: q in r.value ==> OwnsRequest(s, c.userId.value, q)
    ensures r.Ok? ==> forall q :: OwnsRequest(s, c.userId.value, q) ==> q in r.value && r.value[q] == Summary(s, q)
  {
    match CallerId(c)
    case Err(e) => Err(e)
    case Ok(uid) => Ok(map q | q in s.requests && OwnsRequest(s, uid, q) :: Summary(s, q))
  }

  /** Two different users' listings never share a request. */
  lemma OwnerListingsDisjoint(s: Store, a: int, b: int, ra: string, rb: string)
    requires a != b
    ensures var la, lb := GetUserMaintenanceRequests(s, Authenticated(Some(a), ra)), GetUserMaintenanceRequests(s, Authenticated(Some(b), rb));
      la.Ok? && lb.Ok? && la.value.Keys !! lb.value.Keys
  {
  }

  /** In a well-formed store every request appears in its vehicle owner's listing. */
  lemma EveryRequestListedForItsOwner(s: Store, q: int, role: string)
    requires Wf(s)
    requires q in s.requests
    ensures var owner := s.vehicles[s.requests[q].vehicleId].ownerId;
      var l := GetUserMaintenanceRequests(s, Authenticated(Some(owner), role));
      l.Ok? && q in l.value
  {
  }

  /**
    A fresh booking shows up in the owner's listing as Pending, on the booked
    vehicle, requesting the booked service, with both placeholders.
   */
  lemma BookingListedForOwner(s: Store, uid: int, role: string, dto: BookServiceDto, now: Time)
    requires Wf(s)
    requires BookService(s, Authenticated(Some(uid), role), dto, now).Ok?
    ensures var (s', b) := BookService(s, Authenticated(Some(uid), role), dto, now).value;
      var l := GetUserMaintenanceRequests(s', Authenticated(Some(uid), role));
      && l.Ok? && b.requestId in l.value
      && l.value[b.requestId].vehicleId == dto.vehicleId
      && l.value[b.requestId].status == Pending
      && l.value[b.requestId].completionDate == Placeholder(CompletionPlaceholder)
      && l.value[b.requestId].adminNotes == Placeholder(NotesPlaceholder)
      && l.value[b.requestId].services == map[s.nextLineItemId := s.services[dto.serviceId].name]
  {
    var (s', b) := BookService(s, Authenticated(Some(uid), role), dto, now).value;
    var lid := s.nextLineItemId;
    assert OwnsRequest(s', uid, b.requestId);
    forall l | l in s.lineItems
      ensures s'.lineItems[l].requestId != b.requestId
    {
    }
    assert ServiceNames(s', b.requestId) == map[lid := s.services[dto.serviceId].name];
  }

  // ---------------------------------------------------------------------
  // The administrator's listing, newest first
  // ---------------------------------------------------------------------

  datatype ServiceLine = ServiceLine(serviceId: int, name: string, cost: Cost)

  datatype RequestDetail = RequestDetail(
    requestId: int,
    vehicleType: string,
    licensePlate: string,
    odometerReading: int,
    requestDate: Time,
    status: string,
    completionDate: Option<Time>,
    adminNotes: Option<string>,
    services: map<int, ServiceLine>)

  /** The request joins with its vehicle and its reading, as the listing's required includes do. */
  predicate Joinable(s: Store, q: int) {
    q in s.requests && s.requests[q].vehicleId in s.vehicles && s.requests[q].readingId in s.readings
  }

  function ServiceLines(s: Store, q: int): map<int, ServiceLine> {
    map l | l in s.lineItems && s.lineItems[l].requestId == q && s.lineItems[l].serviceId in s.services
      :: var id := s.lineItems[l].serviceId; ServiceLine(id, s.services[id].name, s.services[id].cost)
  }

  function Detail(s: Store, q: int): RequestDetail
    requires Joinable(s, q)
  {
    var m := s.requests[q];
    var v := s.vehicles[m.vehicleId];
    RequestDetail(q, v.vehicleType, v.licensePlate, s.readings[m.readingId].value, m.requestDate,
      m.status, m.completionDate, m.adminNotes, ServiceLines(s, q))
  }

  function RequestIds(rows: seq<RequestDetail>): (ids: seq<int>)
    ensures |ids| == |rows| && forall i :: 0 <= i < |rows| ==> ids[i] == rows[i].requestId
  {
    seq(|rows|, i requires 0 <= i < |rows| => rows[i].requestId)
  }

  function JoinableIds(s: Store): set<int> {
    set q | q in s.requests && Joinable(s, q)
  }

  /**
    `GetAllMaintenanceRequests` (administrators only): every request exactly
    once, newest request date first.
   */
  method GetAllMaintenanceRequests(s: Store, c: Caller) returns (r: Result<seq<RequestDetail>, Error>)
    ensures AdminGate(c).Some? ==> r == Err(AdminGate(c).value)
    ensures AdminGate(c).None? ==> r.Ok?
    ensures r.Ok? ==> multiset(RequestIds(r.value)) == multiset(JoinableIds(s))
    ensures r.Ok? && Wf(s) ==> multiset(RequestIds(r.value)) == multiset(s.requests.Keys)
    ensures r.Ok? ==> forall i :: 0 <= i < |r.value| ==> Joinable(s, r.value[i].requestId) && r.value[i] == Detail(s, r.value[i].requestId)
    ensures r.Ok? ==> forall i, j :: 0 <= i < j < |r.value| ==> r.value[i].requestDate >= r.value[j].requestDate
  {
    var gate := AdminGate(c);
    if gate.Some? {
      return Err(gate.value);
    }
    var dates := map q | q in JoinableIds(s) :: s.requests[q].requestDate;
    var ids := Ordering.NewestFirst(dates);
    Ordering.PermutationOfSet(ids, dates.Keys);
    var rows := seq(|ids|, i requires 0 <= i < |ids| => Detail(s, ids[i]));
    assert RequestIds(rows) == ids;
    assert dates.Keys == JoinableIds(s);
    if Wf(s) {
      assert JoinableIds(s) == s.requests.Keys;
    }
    r := Ok(rows);
  }

  // ---------------------------------------------------------------------
  // Administrator edits of one request
  // ---------------------------------------------------------------------

  /**
    `UpdateMaintenanceStatus` of this controller: sets the status, and the
    completion date only when the new status is "Completed". The notes and
    the vehicle are left alone. A null status is refused by the NOT NULL
    column.
   */
  function UpdateMaintenanceStatus(s: Store, c: Caller, id: int, status: Option<string>, now: Time): (r: Result<Store, Error>)
    ensures AdminGate(c).Some? ==> r == Err(AdminGate(c).value)
    ensures AdminGate(c).None? && id !in s.requests ==> r == Err(RequestNotFound)
    ensures AdminGate(c).None? && id in s.requests ==> (r.Err? <==> status.None?)
    ensures AdminGate(c).None? && id in s.requests && r.Err? ==> r.error == WriteRejected
    ensures r.Ok? ==> ChangedAt(s.requests, r.value.requests, id) && r.value == s.(requests := r.value.requests)
    ensures r.Ok? ==>
      var (q, q') := (s.requests[id], r.value.requests[id]);
      && status.Some? && q'.status == status.value
      && q'.completionDate == (if status.value == Completed then Some(now) else q.completionDate)
      && q' == q.(status := q'.status, completionDate := q'.completionDate)
    ensures r.Ok? && Wf(s) ==> Wf(r.value)
    ensures r.Ok? && Coherent(s) ==> Coherent(r.value)
  {
    match AdminGate(c)
    case Some(e) => Err(e)
    case None =>
      if id !in s.requests then Err(RequestNotFound)
      else if status.None? then Err(WriteRejected)
      else
        var q := s.requests[id];
        var q' := q.(status := status.value, completionDate := if status.value == Completed then Some(now) else q.completionDate);
        Ok(s.(requests := s.requests[id := q']))
  }

  /**
    `UpdateAdminNote`: overwrites the notes of one request and nothing else.
    The body's notes are a non-nullable string, so a null, empty or blank
    note is refused before the request is looked up.
   */
  function UpdateAdminNote(s: Store, c: Caller, id: int, notes: Option<string>): (r: Result<Store, Error>)
    ensures AdminGate(c).Some? ==> r == Err(AdminGate(c).value)
    ensures AdminGate(c).None? && !Required(notes) ==> r == Err(InvalidInput)
    ensures AdminGate(c).None? && Required(notes) ==> (r.Err? <==> id !in s.requests)
    ensures AdminGate(c).None? && Required(notes) && r.Err? ==> r.error == RequestNotFound
    ensures r.Ok? ==> ChangedAt(s.requests, r.value.requests, id) && r.value == s.(requests := r.value.requests)
    ensures r.Ok? ==> Required(notes) && r.value.requests[id] == s.requests[id].(adminNotes := notes)
    ensures r.Ok? && Wf(s) ==> Wf(r.value)
    ensures r.Ok? && Coherent(s) ==> Coherent(r.value)
  {
    match AdminGate(c)
    case Some(e) => Err(e)
    case None =>
      if !Required(notes) then Err(InvalidInput)
      else if id !in s.requests then Err(RequestNotFound)
      else Ok(s.(requests := s.requests[id := s.requests[id].(adminNotes := notes)]))
  }

  /** `UpdateCompletionDate`: overwrites the completion date of one request and nothing else. */
  function UpdateCompletionDate(s: Store, c: Caller, id: int, date: Time): (r: Result<Store, Error>)
    ensures AdminGate(c).Some? ==> r == Err(AdminGate(c).value)
    ensures AdminGate(c).None? ==> (r.Err? <==> id !in s.requests)
    ensures AdminGate(c).None? && r.Err? ==> r.error == RequestNotFound
    ensures r.Ok? ==> ChangedAt(s.requests, r.value.requests, id) && r.value == s.(requests := r.value.requests)
    ensures r.Ok? ==> r.value.requests[id] == s.requests[id].(completionDate := Some(date))
    ensures r.Ok? && Wf(s) ==> Wf(r.value)
    ensures r.Ok? && Coherent(s) ==> Coherent(r.value)
  {
    match AdminGate(c)
    case Some(e) => Err(e)
    case None =>
      if id !in s.requests then Err(RequestNotFound)
      else Ok(s.(requests := s.requests[id := s.requests[id].(completionDate := Some(date))]))
  }

  /** Repeating a note edit changes nothing further. */
  lemma UpdateAdminNoteIdempotent(s: Store, c: Caller, id: int, notes: Option<string>)
    requires UpdateAdminNote(s, c, id, notes).Ok?
    ensures UpdateAdminNote(UpdateAdminNote(s, c, id, notes).value, c, id, notes) == UpdateAdminNote(s, c, id, notes)
  {
    var s1 := UpdateAdminNote(s, c, id, notes).value;
    assert s1.requests[id := s1.requests[id].(adminNotes := notes)] == s1.requests;
  }

  /** Repeating a completion-date edit changes nothing further. */
  lemma UpdateCompletionDateIdempotent(s: Store, c: Caller, id: int, date: Time)
    requires UpdateCompletionDate(s, c, id, date).Ok?
    ensures UpdateCompletionDate(UpdateCompletionDate(s, c, id, date).value, c, id, date) == UpdateCompletionDate(s, c, id, date)
  {
    var s1 := UpdateCompletionDate(s, c, id, date).value;
    assert s1.requests[id := s1.requests[id].(completionDate := Some(date))] == s1.requests;
  }

  /** A repeated status update leaves the state the later call alone would, whatever the clock read the first time. */
  lemma UpdateMaintenanceStatusIdempotent(s: Store, c: Caller, id: int, status: Option<string>, t1: Time, t2: Time)
    requires UpdateMaintenanceStatus(s, c, id, status, t1).Ok?
    ensures UpdateMaintenanceStatus(UpdateMaintenanceStatus(s, c, id, status, t1).value, c, id, status, t2) == UpdateMaintenanceStatus(s, c, id, status, t2)
  {
    var s1 := UpdateMaintenanceStatus(s, c, id, status, t1).value;
    var s2 := UpdateMaintenanceStatus(s, c, id, status, t2).value;
    var s12 := UpdateMaintenanceStatus(s1, c, id, status, t2).value;
    assert s12.requests[id] == s2.requests[id];
    assert s12.requests == s2.requests;
  }
}
