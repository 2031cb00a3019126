/**
  The vehicle endpoints: registering a vehicle to the caller, the caller's
  and the admin's vehicle lists, the status update and the owner's edit.
 */
module Vehicles {
  import opened Wrappers
  import opened Domain
  import opened Access

  /** The body of the add and edit endpoints; `None` is a null string. */
  datatype VehicleDto = VehicleDto(
    vehicleType: Option<string>,
    licensePlate: Option<string>,
    registrationDate: Time,
    manufactureYear: int)

  /** A vehicle as the list endpoints report it; `owner` is filled in by the admin list only. */
  datatype VehicleView = VehicleView(
    id: int,
    vehicleType: string,
    licensePlate: string,
    registrationDate: Time,
    year: int,
    status: string,
    owner: Option<string>)

  /**
    `AddVehicle`: one new vehicle owned by the caller with status "Active".
    The caller's user id is cast to `int` without a null check, so a token
    without one makes the endpoint throw; a user id of 0 is turned away; an
    owner that is not a user, or a null type or plate, is refused by the
    database.
   */
  function AddVehicle(s: Store, c: Caller, dto: VehicleDto): (r: Result<(Store, int), Error>)
    requires Wf(s)
    ensures c.Anonymous? ==> r == Err(Unauthorized)
    ensures c.Authenticated? && c.userId.None? ==> r == Err(NullIdentity)
    ensures c.Authenticated? && c.userId == Some(0) ==> r == Err(Unauthorized)
    ensures r.Ok? <==>
      && c.Authenticated? && c.userId.Some? && c.userId.value != 0
      && c.userId.value in s.users && dto.vehicleType.Some? && dto.licensePlate.Some?
    ensures r.Err? && c.Authenticated? && c.userId.Some? && c.userId.value != 0 ==> r.error == WriteRejected
    ensures r.Ok? ==>
      && r.value.1 == s.nextVehicleId
      && Added(s.vehicles, r.value.0.vehicles, r.value.1,
               Vehicle(c.userId.value, dto.vehicleType.value, dto.licensePlate.value, dto.registrationDate, dto.manufactureYear, VehicleActive))
      && r.value.0 == s.(vehicles := r.value.0.vehicles, nextVehicleId := s.nextVehicleId + 1)
    ensures r.Ok? ==> Wf(r.value.0) && (Coherent(s) ==> Coherent(r.value.0))
  {
    match c
    case Anonymous => Err(Unauthorized)
    case Authenticated(id, _) =>
      if id.None? then Err(NullIdentity)
      else if id.value == 0 then Err(Unauthorized)
      else if id.value !in s.users || dto.vehicleType.None? || dto.licensePlate.None? then Err(WriteRejected)
      else
        var vid := s.nextVehicleId;
        var row := Vehicle(id.value, dto.vehicleType.value, dto.licensePlate.value, dto.registrationDate, dto.manufactureYear, VehicleActive);
        Ok((s.(vehicles := s.vehicles[vid := row], nextVehicleId := vid + 1), vid))
  }

  function View(s: Store, v: int, owner: Option<string>): VehicleView
    requires v in s.vehicles
  {
    var x := s.vehicles[v];
    VehicleView(v, x.vehicleType, x.licensePlate, x.registrationDate, x.manufactureYear, x.status, owner)
  }

  /** `GetUserVehicles`: exactly the caller's vehicles, keyed by id. */
  function GetUserVehicles(s: Store, c: Caller): (r: Result<map<int, VehicleView>, Error>)
    ensures r.Err? <==> CallerId(c).Err?
    ensures r.Err? ==> r.error == Unauthorized
    ensures r.Ok? ==> forall v :: v in r.value <==> v in s.vehicles && s.vehicles[v].ownerId == c.userId.value
    ensures r.Ok? ==> forall v :: v in r.value ==> r.value[v] == View(s, v, None)
  {
    match CallerId(c)
    case Err(e) => Err(e)
    case Ok(uid) => Ok(map v | v in s.vehicles && s.vehicles[v].ownerId == uid :: View(s, v, None))
  }

  /** A registered vehicle is in its owner's list, with status "Active". */
  lemma AddedVehicleListed(s: Store, uid: int, role: string, dto: VehicleDto)
    requires Wf(s)
    requires AddVehicle(s, Authenticated(Some(uid), role), dto).Ok?
    ensures var (s', vid) := AddVehicle(s, Authenticated(Some(uid), role), dto).value;
      var l := GetUserVehicles(s', Authenticated(Some(uid), role));
      l.Ok? && vid in l.value && l.value[vid].status == VehicleActive
  {
  }

  /** No two users' vehicle lists share a vehicle. */
  lemma VehicleListsDisjoint(s: Store, a: int, b: int, ra: string, rb: string)
    requires a != b
    ensures var (la, lb) := (GetUserVehicles(s, Authenticated(Some(a), ra)), GetUserVehicles(s, Authenticated(Some(b), rb)));
      la.value.Keys !! lb.value.Keys
  {
  }

  /**
    `GetAllVehiclesForAdmin`: every vehicle whose owner row exists, with the
    owner's username; in a consistent store, every vehicle.
   */
  function GetAllVehiclesForAdmin(s: Store, c: Caller): (r: Result<map<int, VehicleView>, Error>)
    ensures AdminGate(c).Some? ==> r == Err(AdminGate(c).value)
    ensures r.Ok? <==> AdminGate(c).None?
    ensures r.Ok? ==> forall v :: v in r.value <==> v in s.vehicles && s.vehicles[v].ownerId in s.users
    ensures r.Ok? ==> forall v :: v in r.value ==> r.value[v] == View(s, v, Some(s.users[s.vehicles[v].ownerId].username))
    ensures r.Ok? && Wf(s) ==> r.value.Keys == s.vehicles.Keys
  {
    match AdminGate(c)
    case Some(e) => Err(e)
    case None =>
      var listed := map v | v in s.vehicles && s.vehicles[v].ownerId in s.users :: View(s, v, Some(s.users[s.vehicles[v].ownerId].username));
      assert Wf(s) ==> listed.Keys == s.vehicles.Keys by {
        if Wf(s) {
          assert VehiclesHaveOwners(s);
          assert forall v :: v in s.vehicles ==> v in listed;
        }
      }
      Ok(listed)
  }

  /** The admin list is the union of every user's own list, with the owner added. */
  lemma AdminListIsUnionOfUserLists(s: Store, c: Caller, v: int)
    requires Wf(s) && AdminGate(c).None?
    ensures v in GetAllVehiclesForAdmin(s, c).value <==>
      exists u :: u in s.users && v in GetUserVehicles(s, Authenticated(Some(u), RoleUser)).value
  {
  }

  /**
    `UpdateVehicleStatus`: sets the status of any existing vehicle to a
    non-empty value. Only authentication is checked: neither the role nor
    the owner is.
   */
  function UpdateVehicleStatus(s: Store, c: Caller, vehicleId: int, status: Option<string>): (r: Result<(Store, VehicleView), Error>)
    requires Wf(s)
    ensures c.Anonymous? ==> r == Err(Unauthorized)
    ensures c.Authenticated? && (status.None? || status.value == "") ==> r == Err(InvalidInput)
    ensures c.Authenticated? && status.Some? && status.value != "" ==> (r.Err? <==> vehicleId !in s.vehicles)
    ensures c.Authenticated? && status.Some? && status.value != "" && r.Err? ==> r.error == VehicleNotFound
    ensures r.Ok? ==>
      && vehicleId in s.vehicles && status.Some?
      && r.value.0 == s.(vehicles := s.vehicles[vehicleId := s.vehicles[vehicleId].(status := status.value)])
      && r.value.1.status == status.value
    ensures r.Ok? ==> Wf(r.value.0) && (Coherent(s) ==> Coherent(r.value.0))
  {
    match AuthGate(c)
    case Some(e) => Err(e)
    case None =>
      if status.None? || status.value == "" then Err(InvalidInput)
      else if vehicleId !in s.vehicles then Err(VehicleNotFound)
      else
        var s' := s.(vehicles := s.vehicles[vehicleId := s.vehicles[vehicleId].(status := status.value)]);
        Ok((s', View(s', vehicleId, None)))
  }

  /** Any signed-in user, admin or not, can change the status of a vehicle somebody else owns. */
  lemma AnyUserSetsAnyVehicleStatus(s: Store, uid: int, vehicleId: int, status: string)
    requires Wf(s)
    requires vehicleId in s.vehicles && s.vehicles[vehicleId].ownerId != uid
    requires status != ""
    ensures var r := UpdateVehicleStatus(s, Authenticated(Some(uid), RoleUser), vehicleId, Some(status));
      r.Ok? && r.value.0.vehicles[vehicleId].status == status
  {
  }

  /**
    `UpdateVehicle`: the owner's edit. Overwrites type, plate, registration
    date and year of a vehicle the caller owns; status and owner stay. A
    missing vehicle and somebody else's get the same answer.
   */
  function UpdateVehicle(s: Store, c: Caller, vehicleId: int, dto: VehicleDto): (r: Result<(Store, VehicleView), Error>)
    requires Wf(s)
    ensures CallerId(c).Err? ==> r == Err(Unauthorized)
    ensures CallerId(c).Ok? && OwnedVehicle(s, c.userId.value, vehicleId).Err? ==> r == Err(VehicleNotFoundOrNotOwned)
    ensures CallerId(c).Ok? && OwnedVehicle(s, c.userId.value, vehicleId).Ok? ==>
      (r.Err? <==> dto.vehicleType.None? || dto.licensePlate.None?)
    ensures r.Ok? ==>
      && vehicleId in s.vehicles && s.vehicles[vehicleId].ownerId == c.userId.value
      && ChangedAt(s.vehicles, r.value.0.vehicles, vehicleId)
      && r.value.0 == s.(vehicles := r.value.0.vehicles)
    ensures r.Ok? ==>
      var (v, v') := (s.vehicles[vehicleId], r.value.0.vehicles[vehicleId]);
      && v'.vehicleType == dto.vehicleType.value && v'.licensePlate == dto.licensePlate.value
      && v'.registrationDate == dto.registrationDate && v'.manufactureYear == dto.manufactureYear
      && v'.status == v.status && v'.ownerId == v.ownerId
    ensures r.Ok? ==> Wf(r.value.0) && (Coherent(s) ==> Coherent(r.value.0))
  {
    match CallerId(c)
    case Err(e) => Err(e)
    case Ok(uid) =>
      match OwnedVehicle(s, uid, vehicleId)
      case Err(e) => Err(e)
      case Ok(v) =>
        if dto.vehicleType.None? || dto.licensePlate.None? then Err(WriteRejected)
        else
          var v' := v.(vehicleType := dto.vehicleType.value, licensePlate := dto.licensePlate.value,
                       registrationDate := dto.registrationDate, manufactureYear := dto.manufactureYear);
          var s' := s.(vehicles := s.vehicles[vehicleId := v']);
          Ok((s', View(s', vehicleId, None)))
  }

  /** An edit by its owner, repeated, leaves the vehicle as the first edit did. */
  lemma UpdateVehicleIdempotent(s: Store, c: Caller, vehicleId: int, dto: VehicleDto)
    requires Wf(s) && UpdateVehicle(s, c, vehicleId, dto).Ok?
    ensures var s1 := UpdateVehicle(s, c, vehicleId, dto).value.0;
      UpdateVehicle(s1, c, vehicleId, dto).Ok? && UpdateVehicle(s1, c, vehicleId, dto).value.0 == s1
  {
  }
}
