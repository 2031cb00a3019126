/**
  The entities of the vehicle-maintenance tracker, the in-memory store that
  stands for its relational database, and the store invariants that the
  database schema enforces.
 */
module Domain {
  import opened Wrappers

  /** A `DateTime`, as a point on a discrete clock. */
  type Time = int

  /** A `decimal(18,2)` amount; the model carries costs but never computes with them. */
  type Cost = real

  // Request statuses the workflow writes or tests for; the column itself is free text.
  const Pending := "Pending"
  const Completed := "Completed"
  const Canceled := "Canceled"

  // Vehicle statuses the workflow writes; the column itself is free text.
  const VehicleActive := "Active"
  const VehicleNormal := "Normal"

  // The two roles the account service accepts.
  const RoleUser := "User"
  const RoleAdmin := "Admin"

  datatype User = User(
    username: string,
    passwordHash: string,
    email: string,
    phoneNumber: string,
    address: string,
    role: string,
    createdAt: Time,
    lastLogin: Option<Time>)

  datatype Vehicle = Vehicle(
    ownerId: int,
    vehicleType: string,
    licensePlate: string,
    registrationDate: Time,
    manufactureYear: int,
    status: string)

  datatype OdometerReading = OdometerReading(vehicleId: int, value: int, readingDate: Time)

  /** A catalog entry, due for readings in [minimumOdometer, maximumOdometer]. */
  datatype MaintenanceService = MaintenanceService(
    name: string,
    cost: Cost,
    minimumOdometer: int,
    maximumOdometer: int)

  datatype MaintenanceRequest = MaintenanceRequest(
    vehicleId: int,
    readingId: int,
    requestDate: Time,
    status: string,
    completionDate: Option<Time>,
    adminNotes: Option<string>)

  /** A `MaintenanceRequestService` row: one requested service of one request. */
  datatype LineItem = LineItem(requestId: int, serviceId: int)

  /**
    The database: one map per table, keyed by primary key, and for each table
    the next value its identity column hands out.
   */
  datatype Store = Store(
    users: map<int, User>,
    vehicles: map<int, Vehicle>,
    readings: map<int, OdometerReading>,
    services: map<int, MaintenanceService>,
    requests: map<int, MaintenanceRequest>,
    lineItems: map<int, LineItem>,
    nextUserId: int,
    nextVehicleId: int,
    nextReadingId: int,
    nextServiceId: int,
    nextRequestId: int,
    nextLineItemId: int)

  /** The database before any row is inserted: identity columns start at 1. */
  const EmptyStore := Store(map[], map[], map[], map[], map[], map[], 1, 1, 1, 1, 1, 1)

  /**
    Everything an endpoint can answer with other than success. The model
    keeps the reason; the HTTP status code and message text are left out.
   */
  datatype Error =
    | Unauthorized                  // no identity, or the identity carries no usable user id
    | Forbidden                     // the caller's role is not Admin
    | InvalidInput                  // a request field fails the endpoint's own checks or its annotations
    | VehicleNotFoundOrNotOwned     // collapsed on purpose: does not reveal other users' vehicles
    | VehicleNotFound
    | ServiceNotFound
    | RequestNotFound
    | ReadingNotFound
    | UserNotFound
    | ReadingOutOfServiceRange
    | EmailTaken
    | InvalidCredentials            // the same answer for an unknown email and a wrong password
    | IncorrectCurrentPassword
    | InvalidRole
    | WriteRejected                 // the database refuses the write (foreign key, restrict, NOT NULL)
    | NullIdentity                  // casting an absent user id to int throws
    | AmbiguousEmail                // a single-row lookup by email finds more than one user
    | NullArgument                  // the password hasher is handed a null password

  /** Who is calling, as the authentication layer reports it. */
  datatype Caller =
    | Anonymous
    | Authenticated(userId: Option<int>, role: string)

  /** The password hasher, an external library: one-way hashing and verification. */
  datatype Crypto = Crypto(hash: string -> string, verify: (string, string) -> bool)

  /** A hasher verifies every password against its own hash. */
  ghost predicate Sound(c: Crypto) {
    forall p :: c.verify(p, c.hash(p))
  }

  /** `m` gains exactly the row `row` under the fresh key `id`, and nothing else changes. */
  predicate Added<T(==)>(m: map<int, T>, m': map<int, T>, id: int, row: T) {
    id !in m && m' == m[id := row]
  }

  /** `m` changes at most the row under `id`, which it already had. */
  predicate ChangedAt<T(==)>(m: map<int, T>, m': map<int, T>, id: int) {
    id in m && m'.Keys == m.Keys && forall k :: k in m && k != id ==> m'[k] == m[k]
  }

  // ---------------------------------------------------------------------
  // Schema invariants
  // ---------------------------------------------------------------------

  /** Every key was handed out by an identity column that starts at 1 and is now at `next`. */
  predicate IdsBelow<T>(m: map<int, T>, next: int) {
    1 <= next && forall id :: id in m ==> 1 <= id < next
  }

  predicate IdentitiesFresh(s: Store) {
    && IdsBelow(s.users, s.nextUserId)
    && IdsBelow(s.vehicles, s.nextVehicleId)
    && IdsBelow(s.readings, s.nextReadingId)
    && IdsBelow(s.services, s.nextServiceId)
    && IdsBelow(s.requests, s.nextRequestId)
    && IdsBelow(s.lineItems, s.nextLineItemId)
  }

  /** Vehicles.UserId is a non-null foreign key to Users. */
  predicate VehiclesHaveOwners(s: Store) {
    forall v :: v in s.vehicles ==> s.vehicles[v].ownerId in s.users
  }

  /** OdometerReadings.VehicleId is a non-null foreign key to Vehicles. */
  predicate ReadingsHaveVehicles(s: Store) {
    forall r :: r in s.readings ==> s.readings[r].vehicleId in s.vehicles
  }

  /** MaintenanceRequests.VehicleId and .OdometerReadingId are non-null foreign keys. */
  predicate RequestsHaveParents(s: Store) {
    forall q :: q in s.requests ==> s.requests[q].vehicleId in s.vehicles && s.requests[q].readingId in s.readings
  }

  /** MaintenanceRequestServices.RequestId and .ServiceId are non-null foreign keys. */
  predicate LineItemsHaveParents(s: Store) {
    forall l :: l in s.lineItems ==> s.lineItems[l].requestId in s.requests && s.lineItems[l].serviceId in s.services
  }

  /** The unique index on MaintenanceRequests.OdometerReadingId. */
  predicate OneRequestPerReading(s: Store) {
    forall q1, q2 :: q1 in s.requests && q2 in s.requests && q1 != q2 ==> s.requests[q1].readingId != s.requests[q2].readingId
  }

  /** Every state the database can be in. */
  predicate Wf(s: Store) {
    && IdentitiesFresh(s)
    && VehiclesHaveOwners(s)
    && ReadingsHaveVehicles(s)
    && RequestsHaveParents(s)
    && LineItemsHaveParents(s)
    && OneRequestPerReading(s)
  }

  /**
    A request's reading belongs to the request's own vehicle. The schema does
    not enforce this; the endpoints keep it.
   */
  predicate Coherent(s: Store) {
    forall q :: q in s.requests && s.requests[q].readingId in s.readings ==>
      s.readings[s.requests[q].readingId].vehicleId == s.requests[q].vehicleId
  }

  lemma EmptyStoreWf()
    ensures Wf(EmptyStore) && Coherent(EmptyStore)
  {
  }
}
