/**
  The administrator's endpoints: the account reads and the role change,
  creating another administrator, the dashboard counts, the request listing
  with owners, the status update that also writes the notes and frees the
  vehicle, and the catalog writes. Every one sits behind the admin gate,
  and every non-nullable string of a body is required before the action
  runs.
 */
module Admin {
  import opened Wrappers
  import opened Domain
  import opened Access
  import opened Validation
  import opened Collation
  import Users
  import Catalog
  import MaintenanceRequests
  import Ordering

  /** The two role names and the status "Completed" pass the body checks, and the database does not take "Completed" for "Pending". */
  lemma KnownValuesPassChecks()
    ensures ValidChangeRole(ChangeRoleRequest(Some(RoleAdmin))) && ValidChangeRole(ChangeRoleRequest(Some(RoleUser)))
    ensures Required(Some(Completed))
    ensures !SqlEquals(Completed, Pending)
  {
    assert !IsWhiteSpace(RoleAdmin[0]) && !IsWhiteSpace(RoleUser[0]) && !IsWhiteSpace(Completed[0]);
    assert TrimTrailingSpaces(Completed) == Completed;
    assert TrimTrailingSpaces(Pending) == Pending;
  }

  /** `GetUserById` of this controller: the account read behind the admin gate. */
  function GetUserById(s: Store, c: Caller, uid: int): (r: Result<Users.UserResponse, Error>)
    ensures AdminGate(c).Some? ==> r == Err(AdminGate(c).value)
    ensures AdminGate(c).None? ==> (r.Err? <==> uid !in s.users)
    ensures AdminGate(c).None? && r.Err? ==> r.error == UserNotFound
    ensures r.Ok? ==> r.value == Users.Response(uid, s.users[uid]) && r == Users.GetUserById(s, uid)
  {
    match AdminGate(c)
    case Some(e) => Err(e)
    case None => Users.GetUserById(s, uid)
  }

  /** `GetAllUsers` of this controller: every user, behind the admin gate. */
  function GetAllUsers(s: Store, c: Caller): (r: Result<map<int, Users.UserResponse>, Error>)
    ensures AdminGate(c).Some? ==> r == Err(AdminGate(c).value)
    ensures r.Ok? <==> AdminGate(c).None?
    ensures r.Ok? ==> r.value.Keys == s.users.Keys
    ensures r.Ok? ==> forall u :: u in r.value ==> r.value[u] == Users.Response(u, s.users[u])
  {
    match AdminGate(c)
    case Some(e) => Err(e)
    case None => Ok(Users.GetAllUsers(s))
  }

  /**
    `ChangeUserRole` of this controller: the body's role must be present,
    non-blank and at most 10 code units long; then the account service's
    role change, which accepts only "Admin" and "User".
   */
  function ChangeUserRole(s: Store, c: Caller, uid: int, req: ChangeRoleRequest): (r: Result<Store, Error>)
    requires Wf(s)
    ensures AdminGate(c).Some? ==> r == Err(AdminGate(c).value)
    ensures AdminGate(c).None? && !ValidChangeRole(req) ==> r == Err(InvalidInput)
    ensures AdminGate(c).None? && ValidChangeRole(req) ==> r == Users.ChangeUserRole(s, uid, req.newRole.value)
    ensures r.Ok? <==> AdminGate(c).None? && uid in s.users && (req.newRole == Some(RoleAdmin) || req.newRole == Some(RoleUser))
    ensures r.Ok? ==> r.value == s.(users := s.users[uid := s.users[uid].(role := req.newRole.value)])
  {
    KnownValuesPassChecks();
    match AdminGate(c)
    case Some(e) => Err(e)
    case None =>
      if !ValidChangeRole(req) then Err(InvalidInput)
      else Users.ChangeUserRole(s, uid, req.newRole.value)
  }

  /**
    `CreateAdmin`: after the admin gate and the body's checks, one new user
    with role "Admin". Unlike registration it does not look for an existing
    user with the same email.
   */
  function CreateAdmin(s: Store, c: Caller, req: RegisterRequest, crypto: Crypto, now: Time): (r: Result<(Store, int), Error>)
    requires Wf(s)
    ensures AdminGate(c).Some? ==> r == Err(AdminGate(c).value)
    ensures AdminGate(c).None? && !ValidRegister(req) ==> r == Err(InvalidInput)
    ensures r.Ok? <==> AdminGate(c).None? && ValidRegister(req)
    ensures r.Ok? ==>
      && r.value.1 == s.nextUserId
      && Added(s.users, r.value.0.users, r.value.1,
               User(req.username.value, crypto.hash(req.password.value), req.email.value,
                    req.phoneNumber.value, req.address.value, RoleAdmin, now, None))
      && r.value.0 == s.(users := r.value.0.users, nextUserId := s.nextUserId + 1)
    ensures r.Ok? ==> Wf(r.value.0) && (Coherent(s) ==> Coherent(r.value.0)) && (Users.RolesKnown(s) ==> Users.RolesKnown(r.value.0))
  {
    match AdminGate(c)
    case Some(e) => Err(e)
    case None =>
      if !ValidRegister(req) then Err(InvalidInput)
      else
        var id := s.nextUserId;
        var row := User(req.username.value, crypto.hash(req.password.value), req.email.value,
                        req.phoneNumber.value, req.address.value, RoleAdmin, now, None);
        Users.InsertUserKeepsInvariants(s, row);
        Ok((s.(users := s.users[id := row], nextUserId := id + 1), id))
  }

  /**
    Creating an administrator under an email the database matches to a
    user's (the same, or differing in letter case or trailing spaces)
    succeeds, and from then on nobody can log in with that email: the
    login's single-row lookup finds two users.
   */
  lemma {:induction false} DuplicateAdminEmailBlocksLogin(s: Store, c: Caller, req: RegisterRequest, crypto: Crypto, now: Time, u: int, password: Option<string>, later: Time)
    requires Wf(s)
    requires CreateAdmin(s, c, req, crypto, now).Ok?
    requires u in s.users && SqlEquals(s.users[u].email, req.email.value)
    ensures var s' := CreateAdmin(s, c, req, crypto, now).value.0;
      Users.Login(s', LoginRequest(req.email, password), crypto, later) == Err(AmbiguousEmail)
  {
    var s' := CreateAdmin(s, c, req, crypto, now).value.0;
    var found := Users.UsersWithEmail(s', req.email.value);
    assert u in found && s.nextUserId in found - {u};
    assert |found - {u}| == |found| - 1;
  }

  // ---------------------------------------------------------------------
  // Dashboard
  // ---------------------------------------------------------------------

  datatype Dashboard = Dashboard(totalUsers: nat, totalVehicles: nat, totalPendingMaintenance: nat)

  /** The requests whose status the database's `=` matches to "Pending", so "pending" and "Pending " count too. */
  function PendingRequests(s: Store): set<int> {
    set q | q in s.requests && SqlEquals(s.requests[q].status, Pending)
  }

  /** `GetDashboardSummary`: the number of users, of vehicles and of pending requests. */
  function GetDashboardSummary(s: Store, c: Caller): (r: Result<Dashboard, Error>)
    ensures AdminGate(c).Some? ==> r == Err(AdminGate(c).value)
    ensures r.Ok? <==> AdminGate(c).None?
    ensures r.Ok? ==>
      && r.value.totalUsers == |s.users.Keys|
      && r.value.totalVehicles == |s.vehicles.Keys|
      && r.value.totalPendingMaintenance == |PendingRequests(s)|
      && r.value.totalPendingMaintenance <= |s.requests.Keys|
  {
    match AdminGate(c)
    case Some(e) => Err(e)
    case None =>
      SubsetNoLarger(PendingRequests(s), s.requests.Keys);
      Ok(Dashboard(|s.users.Keys|, |s.vehicles.Keys|, |PendingRequests(s)|))
  }

  lemma {:induction false} SubsetNoLarger(a: set<int>, b: set<int>)
    requires a <= b
    ensures |a| <= |b|
    decreases a
  {
    if a != {} {
      Ordering.NonEmptyHasMember(a);
      var x :| x in a;
      SubsetNoLarger(a - {x}, b - {x});
    }
  }

  /** A booking adds exactly its own request to the pending ones, so the pending count goes up by one. */
  lemma BookingRaisesPendingCount(s: Store, c: Caller, dto: MaintenanceRequests.BookServiceDto, now: Time)
    requires Wf(s)
    requires MaintenanceRequests.BookService(s, c, dto, now).Ok?
    ensures var s' := MaintenanceRequests.BookService(s, c, dto, now).value.0;
      && PendingRequests(s') == PendingRequests(s) + {s.nextRequestId}
      && |PendingRequests(s')| == |PendingRequests(s)| + 1
  {
  }

  // ---------------------------------------------------------------------
  // The administrator's request listing
  // ---------------------------------------------------------------------

  datatype AdminRequestRow = AdminRequestRow(
    requestId: int,
    status: string,
    requestDate: Time,
    completionDate: Option<Time>,
    adminNotes: Option<string>,
    vehicleId: int,
    vehicleType: string,
    licensePlate: string,
    owner: string,
    odometerReading: int,
    services: map<int, MaintenanceRequests.ServiceLine>)

  /** The request joins with its vehicle, the vehicle's owner and its reading. */
  predicate Listed(s: Store, q: int) {
    MaintenanceRequests.Joinable(s, q) && s.vehicles[s.requests[q].vehicleId].ownerId in s.users
  }

  function Row(s: Store, q: int): AdminRequestRow
    requires Listed(s, q)
  {
    var m := s.requests[q];
    var v := s.vehicles[m.vehicleId];
    AdminRequestRow(q, m.status, m.requestDate, m.completionDate, m.adminNotes, m.vehicleId,
      v.vehicleType, v.licensePlate, s.users[v.ownerId].username, s.readings[m.readingId].value,
      MaintenanceRequests.ServiceLines(s, q))
  }

  /**
    `GetAllMaintenanceRequests` of this controller: every request with its
    vehicle, owner, reading and requested services, in no promised order.
   */
  function GetAllMaintenanceRequests(s: Store, c: Caller): (r: Result<map<int, AdminRequestRow>, Error>)
    ensures AdminGate(c).Some? ==> r == Err(AdminGate(c).value)
    ensures r.Ok? <==> AdminGate(c).None?
    ensures r.Ok? ==> forall q :: q in r.value <==> Listed(s, q)
    ensures r.Ok? ==> forall q :: q in r.value ==> r.value[q] == Row(s, q)
    ensures r.Ok? && Wf(s) ==> r.value.Keys == s.requests.Keys
  {
    match AdminGate(c)
    case Some(e) => Err(e)
    case None =>
      var rows := map q | q in s.requests && Listed(s, q) :: Row(s, q);
      assert Wf(s) ==> rows.Keys == s.requests.Keys by {
        if Wf(s) {
          assert forall q :: q in s.requests ==> Listed(s, q);
        }
      }
      Ok(rows)
  }

  /** Every line of a request's row names the request's own line item and the service it links to. */
  lemma RowServicesAreLineItems(s: Store, c: Caller, q: int, l: int)
    requires Wf(s) && AdminGate(c).None? && q in s.requests
    requires l in s.lineItems && s.lineItems[l].requestId == q
    ensures var rows := GetAllMaintenanceRequests(s, c).value;
      && q in rows && l in rows[q].services
      && rows[q].services[l].serviceId == s.lineItems[l].serviceId
      && rows[q].services[l].name == s.services[s.lineItems[l].serviceId].name
  {
  }

  // ---------------------------------------------------------------------
  // The administrator's status update
  // ---------------------------------------------------------------------

  /**
    `UpdateMaintenanceStatus` of this controller: the body's status and
    notes are non-nullable strings, so both must be present and non-blank
    before the request is looked up. It then overwrites both. On
    "Completed" it also sets the completion date and, if the request's
    vehicle exists, that vehicle's status to "Normal".
   */
  function UpdateMaintenanceStatus(s: Store, c: Caller, id: int, status: Option<string>, notes: Option<string>, now: Time): (r: Result<Store, Error>)
    requires Wf(s)
    ensures AdminGate(c).Some? ==> r == Err(AdminGate(c).value)
    ensures AdminGate(c).None? && !(Required(status) && Required(notes)) ==> r == Err(InvalidInput)
    ensures AdminGate(c).None? && Required(status) && Required(notes) ==> (r.Err? <==> id !in s.requests)
    ensures AdminGate(c).None? && Required(status) && Required(notes) && r.Err? ==> r.error == RequestNotFound
    ensures r.Ok? ==> id in s.requests && Required(status) && Required(notes)
    ensures r.Ok? ==>
      var (q, s') := (s.requests[id], r.value);
      && s'.requests == s.requests[id := q.(
           status := status.value,
           adminNotes := notes,
           completionDate := if status.value == Completed then Some(now) else q.completionDate)]
      && s'.vehicles == (if status.value == Completed && q.vehicleId in s.vehicles
                         then s.vehicles[q.vehicleId := s.vehicles[q.vehicleId].(status := VehicleNormal)]
                         else s.vehicles)
      && s' == s.(requests := s'.requests, vehicles := s'.vehicles)
    ensures r.Ok? ==> Wf(r.value) && (Coherent(s) ==> Coherent(r.value))
  {
    match AdminGate(c)
    case Some(e) => Err(e)
    case None =>
      if !(Required(status) && Required(notes)) then Err(InvalidInput)
      else if id !in s.requests then Err(RequestNotFound)
      else
        var q := s.requests[id];
        var done := status.value == Completed;
        var q' := q.(status := status.value, adminNotes := notes, completionDate := if done then Some(now) else q.completionDate);
        var vehicles := if done && q.vehicleId in s.vehicles
          then s.vehicles[q.vehicleId := s.vehicles[q.vehicleId].(status := VehicleNormal)]
          else s.vehicles;
        Ok(s.(requests := s.requests[id := q'], vehicles := vehicles))
  }

  /**
    Repeating the update with the same body leaves the state a single call
    at the later time would: the two calls differ at most in the completion
    timestamp.
   */
  lemma UpdateMaintenanceStatusIdempotent(s: Store, c: Caller, id: int, status: Option<string>, notes: Option<string>, t1: Time, t2: Time)
    requires Wf(s)
    requires UpdateMaintenanceStatus(s, c, id, status, notes, t1).Ok?
    ensures var s1 := UpdateMaintenanceStatus(s, c, id, status, notes, t1).value;
      UpdateMaintenanceStatus(s1, c, id, status, notes, t2) == UpdateMaintenanceStatus(s, c, id, status, notes, t2)
  {
    var s1 := UpdateMaintenanceStatus(s, c, id, status, notes, t1).value;
    var s2 := UpdateMaintenanceStatus(s, c, id, status, notes, t2).value;
    var s12 := UpdateMaintenanceStatus(s1, c, id, status, notes, t2).value;
    assert s12.requests[id] == s2.requests[id];
    assert s12.requests == s2.requests;
    var v := s.requests[id].vehicleId;
    if status.value == Completed && v in s.vehicles {
      assert s12.vehicles[v] == s2.vehicles[v];
    }
    assert s12.vehicles == s2.vehicles;
  }

  /**
    Completing a pending request takes exactly it off the pending ones, so
    the dashboard's pending count goes down by one.
   */
  lemma CompletingLowersPendingCount(s: Store, c: Caller, id: int, notes: Option<string>, now: Time)
    requires Wf(s)
    requires id in s.requests && SqlEquals(s.requests[id].status, Pending)
    requires UpdateMaintenanceStatus(s, c, id, Some(Completed), notes, now).Ok?
    ensures var s' := UpdateMaintenanceStatus(s, c, id, Some(Completed), notes, now).value;
      && PendingRequests(s') == PendingRequests(s) - {id}
      && |PendingRequests(s')| == |PendingRequests(s)| - 1
  {
    KnownValuesPassChecks();
  }

  /**
    The two status endpoints part ways on "Completed": the administrator's
    frees the vehicle and overwrites the notes; the other one touches
    neither.
   */
  lemma StatusEndpointsDiffer(s: Store, c: Caller, id: int, notes: Option<string>, now: Time)
    requires Wf(s) && AdminGate(c).None? && id in s.requests && Required(notes)
    ensures UpdateMaintenanceStatus(s, c, id, Some(Completed), notes, now).Ok?
    ensures MaintenanceRequests.UpdateMaintenanceStatus(s, c, id, Some(Completed), now).Ok?
    ensures var a := UpdateMaintenanceStatus(s, c, id, Some(Completed), notes, now).value;
      var m := MaintenanceRequests.UpdateMaintenanceStatus(s, c, id, Some(Completed), now).value;
      var v := s.requests[id].vehicleId;
      && a.vehicles[v].status == VehicleNormal && a.requests[id].adminNotes == notes
      && m.vehicles == s.vehicles && m.requests[id].adminNotes == s.requests[id].adminNotes
      && a.requests[id].status == m.requests[id].status == Completed
      && a.requests[id].completionDate == m.requests[id].completionDate == Some(now)
  {
    KnownValuesPassChecks();
  }

  // ---------------------------------------------------------------------
  // The administrator's catalog writes
  // ---------------------------------------------------------------------

  /**
    `AddService` of this controller: the body's service name is a
    non-nullable string, so a null, empty or blank name is refused before
    anything is written; otherwise it is the catalog's add.
   */
  function AddService(s: Store, c: Caller, dto: Catalog.ServiceDto): (r: Result<(Store, int), Error>)
    requires Wf(s)
    ensures AdminGate(c).Some? ==> r == Err(AdminGate(c).value)
    ensures AdminGate(c).None? && !Required(dto.name) ==> r == Err(InvalidInput)
    ensures r.Ok? <==> AdminGate(c).None? && Required(dto.name)
    ensures r.Ok? ==> r == Catalog.AddService(s, c, dto)
    ensures r.Ok? ==>
      && r.value.1 == s.nextServiceId
      && r.value.0.services == s.services[r.value.1 := Catalog.RowOf(dto)]
  {
    match AdminGate(c)
    case Some(e) => Err(e)
    case None => if !Required(dto.name) then Err(InvalidInput) else Catalog.AddService(s, c, dto)
  }

  /**
    `UpdateService` of this controller: a null, empty or blank name is
    refused before the entry is looked up; otherwise it is the catalog's
    update.
   */
  function UpdateService(s: Store, c: Caller, id: int, dto: Catalog.ServiceDto): (r: Result<Store, Error>)
    requires Wf(s)
    ensures AdminGate(c).Some? ==> r == Err(AdminGate(c).value)
    ensures AdminGate(c).None? && !Required(dto.name) ==> r == Err(InvalidInput)
    ensures AdminGate(c).None? && Required(dto.name) ==> (r.Err? <==> id !in s.services)
    ensures AdminGate(c).None? && Required(dto.name) && r.Err? ==> r.error == ServiceNotFound
    ensures r.Ok? ==> r == Catalog.UpdateService(s, c, id, dto)
    ensures r.Ok? ==> Required(dto.name) && r.value == s.(services := s.services[id := Catalog.RowOf(dto)])
  {
    match AdminGate(c)
    case Some(e) => Err(e)
    case None => if !Required(dto.name) then Err(InvalidInput) else Catalog.UpdateService(s, c, id, dto)
  }

  /**
    The two controllers' catalog writes differ only on the name: a blank
    name, the empty one included, is stored by the service controller and
    refused by this one; any other body gets the same answer from both.
   */
  lemma CatalogWritesDifferOnlyOnBlankNames(s: Store, c: Caller, id: int, dto: Catalog.ServiceDto)
    requires Wf(s) && AdminGate(c).None?
    ensures Required(dto.name) ==> AddService(s, c, dto) == Catalog.AddService(s, c, dto)
    ensures Required(dto.name) ==> UpdateService(s, c, id, dto) == Catalog.UpdateService(s, c, id, dto)
    ensures dto.name.Some? && !Required(dto.name) ==>
      && AddService(s, c, dto) == Err(InvalidInput) && Catalog.AddService(s, c, dto).Ok?
      && UpdateService(s, c, id, dto) == Err(InvalidInput) && (id in s.services ==> Catalog.UpdateService(s, c, id, dto).Ok?)
  {
  }
}
