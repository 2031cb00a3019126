/**
  The gates every endpoint passes before it touches the store: the
  authentication and role checks the controllers declare as attributes, the
  user id read from the caller's token, and the ownership guard.
 */
module Access {
  import opened Wrappers
  import opened Domain

  /**
    `[Authorize]` on a controller, then `GetUserIdFromToken`: an anonymous
    caller is turned away, and so is a token whose user-id claim is missing
    or not an integer.
   */
  function CallerId(c: Caller): (r: Result<int, Error>)
    ensures r.Ok? <==> c.Authenticated? && c.userId.Some?
    ensures r.Ok? ==> r.value == c.userId.value
    ensures r.Err? ==> r.error == Unauthorized
  {
    match c
    case Anonymous => Err(Unauthorized)
    case Authenticated(id, _) =>
      match id
      case None => Err(Unauthorized)
      case Some(uid) => Ok(uid)
  }

  /**
    `[Authorize]` alone: any authenticated caller passes, whatever its claims;
    `None` lets the call through.
   */
  function AuthGate(c: Caller): (r: Option<Error>)
    ensures r.None? <==> c.Authenticated?
    ensures r.Some? ==> r.value == Unauthorized
  {
    if c.Anonymous? then Some(Unauthorized) else None
  }

  /**
    `[Authorize(Roles = "Admin")]`: `None` lets the call through; otherwise
    the error the framework answers with.
   */
  function AdminGate(c: Caller): (r: Option<Error>)
    ensures r.None? <==> c.Authenticated? && c.role == RoleAdmin
    ensures c.Anonymous? ==> r == Some(Unauthorized)
    ensures c.Authenticated? && c.role != RoleAdmin ==> r == Some(Forbidden)
  {
    match c
    case Anonymous => Some(Unauthorized)
    case Authenticated(_, role) => if role == RoleAdmin then None else Some(Forbidden)
  }

  /**
    The ownership guard: the vehicle with id `vehicleId` if `userId` owns it.
    A missing vehicle and somebody else's vehicle give the same error.
   */
  function OwnedVehicle(s: Store, userId: int, vehicleId: int): (r: Result<Vehicle, Error>)
    ensures r.Ok? <==> vehicleId in s.vehicles && s.vehicles[vehicleId].ownerId == userId
    ensures r.Ok? ==> r.value == s.vehicles[vehicleId]
    ensures r.Err? ==> r.error == VehicleNotFoundOrNotOwned
  {
    if vehicleId in s.vehicles && s.vehicles[vehicleId].ownerId == userId
    then Ok(s.vehicles[vehicleId])
    else Err(VehicleNotFoundOrNotOwned)
  }
}
