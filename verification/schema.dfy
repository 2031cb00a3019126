/**
  What the database does on a delete, as the schema's foreign keys declare
  it: a user takes its vehicles with it, a vehicle its readings and
  requests, a request its line items (all Cascade); a reading named by a
  request and a service named by a line item cannot go (Restrict). No
  endpoint deletes a user, vehicle, reading or request; these operations
  state the rules the schema fixes for whoever does.
 */
module Schema {
  import opened Wrappers
  import opened Domain

  /** Some request names reading `id`. */
  predicate ReadingInUse(s: Store, id: int) {
    exists q :: q in s.requests && s.requests[q].readingId == id
  }

  /** Some line item names service `id`. */
  predicate ServiceInUse(s: Store, id: int) {
    exists l :: l in s.lineItems && s.lineItems[l].serviceId == id
  }

  /** The readings of the vehicles in `vs`. */
  function ReadingsOf(s: Store, vs: set<int>): set<int> {
    set r | r in s.readings && s.readings[r].vehicleId in vs
  }

  /** The requests of the vehicles in `vs`. */
  function RequestsOf(s: Store, vs: set<int>): set<int> {
    set q | q in s.requests && s.requests[q].vehicleId in vs
  }

  /**
    A request that survives the deletion of the vehicles `vs` names a reading
    that does not: the Restrict rule on the request's reading refuses it.
   */
  predicate CascadeBlocked(s: Store, vs: set<int>) {
    exists q :: q in s.requests && s.requests[q].vehicleId !in vs && s.requests[q].readingId in ReadingsOf(s, vs)
  }

  /**
    Deleting the vehicles `vs`: they go with their readings, their requests
    and those requests' line items, and every other row stays; unless the
    Restrict rule on a surviving request's reading refuses the whole delete.
   */
  function DeleteVehicles(s: Store, vs: set<int>): (r: Result<Store, Error>)
    requires Wf(s)
    ensures r.Err? <==> CascadeBlocked(s, vs)
    ensures r.Err? ==> r.error == WriteRejected
    ensures r.Ok? ==>
      var s' := r.value;
      && s'.users == s.users && s'.services == s.services
      && (forall v :: v in s'.vehicles <==> v in s.vehicles && v !in vs)
      && (forall o :: o in s'.readings <==> o in s.readings && s.readings[o].vehicleId !in vs)
      && (forall q :: q in s'.requests <==> q in s.requests && s.requests[q].vehicleId !in vs)
      && (forall l :: l in s'.lineItems <==> l in s.lineItems && s.lineItems[l].requestId in s'.requests)
    ensures r.Ok? ==>
      var s' := r.value;
      && (forall v :: v in s'.vehicles ==> s'.vehicles[v] == s.vehicles[v])
      && (forall o :: o in s'.readings ==> s'.readings[o] == s.readings[o])
      && (forall q :: q in s'.requests ==> s'.requests[q] == s.requests[q])
      && (forall l :: l in s'.lineItems ==> s'.lineItems[l] == s.lineItems[l])
    ensures r.Ok? ==> Wf(r.value) && (Coherent(s) ==> Coherent(r.value))
  {
    if CascadeBlocked(s, vs) then Err(WriteRejected)
    else
      var gone := RequestsOf(s, vs);
      Ok(s.(
        vehicles := map v | v in s.vehicles && v !in vs :: s.vehicles[v],
        readings := map o | o in s.readings && s.readings[o].vehicleId !in vs :: s.readings[o],
        requests := map q | q in s.requests && q !in gone :: s.requests[q],
        lineItems := map l | l in s.lineItems && s.lineItems[l].requestId !in gone :: s.lineItems[l]))
  }

  /** Deleting one vehicle, by the cascade rules above. */
  function DeleteVehicle(s: Store, id: int): (r: Result<Store, Error>)
    requires Wf(s)
    ensures id !in s.vehicles ==> r == Err(VehicleNotFound)
    ensures id in s.vehicles ==> r == DeleteVehicles(s, {id})
    ensures r.Ok? ==>
      && id !in r.value.vehicles
      && (forall o :: o in r.value.readings ==> r.value.readings[o].vehicleId != id)
      && (forall q :: q in r.value.requests ==> r.value.requests[q].vehicleId != id)
  {
    if id !in s.vehicles then Err(VehicleNotFound) else DeleteVehicles(s, {id})
  }

  /**
    Deleting a user: the user goes, and its vehicles go by the cascade
    rules above.
   */
  function DeleteUser(s: Store, uid: int): (r: Result<Store, Error>)
    requires Wf(s)
    ensures uid !in s.users ==> r == Err(UserNotFound)
    ensures uid in s.users ==> (r.Err? <==> CascadeBlocked(s, OwnedBy(s, uid)))
    ensures r.Ok? ==>
      && r.value.users == s.users - {uid}
      && (forall v :: v in r.value.vehicles <==> v in s.vehicles && s.vehicles[v].ownerId != uid)
    ensures r.Ok? ==> Wf(r.value) && (Coherent(s) ==> Coherent(r.value))
  {
    if uid !in s.users then Err(UserNotFound)
    else
      match DeleteVehicles(s, OwnedBy(s, uid))
      case Err(e) => Err(e)
      case Ok(s') =>
        var s'' := s'.(users := s.users - {uid});
        assert forall v :: v in s''.vehicles ==> s''.vehicles[v].ownerId != uid;
        Ok(s'')
  }

  /** The vehicles `uid` owns. */
  function OwnedBy(s: Store, uid: int): set<int> {
    set v | v in s.vehicles && s.vehicles[v].ownerId == uid
  }

  /**
    When every request's reading belongs to the request's own vehicle, the
    Restrict rule never blocks a cascade: deleting any vehicles, and so any
    user, succeeds.
   */
  lemma CoherentCascadeNeverBlocked(s: Store, vs: set<int>)
    requires Wf(s) && Coherent(s)
    ensures DeleteVehicles(s, vs).Ok?
  {
  }

  /** Deleting a reading: refused while a request names it (Restrict); otherwise only it goes. */
  function DeleteReading(s: Store, id: int): (r: Result<Store, Error>)
    requires Wf(s)
    ensures id !in s.readings ==> r == Err(ReadingNotFound)
    ensures id in s.readings ==> (r.Err? <==> ReadingInUse(s, id))
    ensures id in s.readings && r.Err? ==> r.error == WriteRejected
    ensures r.Ok? ==> r.value == s.(readings := s.readings - {id})
    ensures r.Ok? ==> Wf(r.value) && (Coherent(s) ==> Coherent(r.value))
  {
    if id !in s.readings then Err(ReadingNotFound)
    else if ReadingInUse(s, id) then Err(WriteRejected)
    else Ok(s.(readings := s.readings - {id}))
  }

  /** Deleting a request: it goes with its line items (Cascade); every other row stays. */
  function DeleteRequest(s: Store, id: int): (r: Result<Store, Error>)
    requires Wf(s)
    ensures r.Err? <==> id !in s.requests
    ensures r.Err? ==> r.error == RequestNotFound
    ensures r.Ok? ==>
      && r.value.requests == s.requests - {id}
      && (forall l :: l in r.value.lineItems <==> l in s.lineItems && s.lineItems[l].requestId != id)
      && (forall l :: l in r.value.lineItems ==> r.value.lineItems[l] == s.lineItems[l])
      && r.value == s.(requests := r.value.requests, lineItems := r.value.lineItems)
    ensures r.Ok? ==> Wf(r.value) && (Coherent(s) ==> Coherent(r.value))
  {
    if id !in s.requests then Err(RequestNotFound)
    else
      Ok(s.(
        requests := s.requests - {id},
        lineItems := map l | l in s.lineItems && s.lineItems[l].requestId != id :: s.lineItems[l]))
  }

  /** Once a request is deleted its reading is free again and can itself be deleted. */
  lemma DeletedRequestFreesReading(s: Store, id: int)
    requires Wf(s) && id in s.requests
    ensures var s' := DeleteRequest(s, id).value;
      DeleteReading(s', s.requests[id].readingId).Ok?
  {
  }
}
