/**
  The maintenance-service catalog endpoints: add, list, read, update and
  delete a service. The admin controller's own delete is this delete; its
  add and update also refuse a blank name first (module Admin).
 */
module Catalog {
  import opened Wrappers
  import opened Domain
  import opened Access
  import opened Eligibility
  import Schema

  /** The body of the add and update endpoints; `None` is a null name. */
  datatype ServiceDto = ServiceDto(name: Option<string>, cost: Cost, minimumOdometer: int, maximumOdometer: int)

  /** A catalog entry as the read endpoints report it. */
  datatype ServiceView = ServiceView(id: int, name: string, cost: Cost, minOdometer: int, maxOdometer: int)

  function View(id: int, svc: MaintenanceService): ServiceView {
    ServiceView(id, svc.name, svc.cost, svc.minimumOdometer, svc.maximumOdometer)
  }

  /** The row a body with a name describes, its fields taken as given. */
  function RowOf(dto: ServiceDto): MaintenanceService
    requires dto.name.Some?
  {
    MaintenanceService(dto.name.value, dto.cost, dto.minimumOdometer, dto.maximumOdometer)
  }

  /**
    `AddService`: one new catalog entry holding the body's fields exactly,
    with no check that the minimum is at most the maximum. A null name is
    refused by the NOT NULL column.
   */
  function AddService(s: Store, c: Caller, dto: ServiceDto): (r: Result<(Store, int), Error>)
    requires Wf(s)
    ensures AdminGate(c).Some? ==> r == Err(AdminGate(c).value)
    ensures AdminGate(c).None? ==> (r.Err? <==> dto.name.None?)
    ensures AdminGate(c).None? && r.Err? ==> r.error == WriteRejected
    ensures r.Ok? ==>
      && r.value.1 == s.nextServiceId
      && Added(s.services, r.value.0.services, r.value.1,
               MaintenanceService(dto.name.value, dto.cost, dto.minimumOdometer, dto.maximumOdometer))
      && r.value.0 == s.(services := r.value.0.services, nextServiceId := s.nextServiceId + 1)
    ensures r.Ok? ==> Wf(r.value.0) && (Coherent(s) ==> Coherent(r.value.0))
  {
    match AdminGate(c)
    case Some(e) => Err(e)
    case None =>
      if dto.name.None? then Err(WriteRejected)
      else
        var id := s.nextServiceId;
        Ok((s.(services := s.services[id := RowOf(dto)], nextServiceId := id + 1), id))
  }

  /** `GetAllServices`: every catalog entry, with its range, keyed by id. */
  function GetAllServices(s: Store, c: Caller): (r: Result<map<int, ServiceView>, Error>)
    ensures r.Err? <==> c.Anonymous?
    ensures r.Err? ==> r.error == Unauthorized
    ensures r.Ok? ==> r.value.Keys == s.services.Keys
    ensures r.Ok? ==> forall id :: id in r.value ==>
      && r.value[id].id == id && r.value[id].name == s.services[id].name && r.value[id].cost == s.services[id].cost
      && r.value[id].minOdometer == s.services[id].minimumOdometer && r.value[id].maxOdometer == s.services[id].maximumOdometer
  {
    match AuthGate(c)
    case Some(e) => Err(e)
    case None => Ok(map id | id in s.services :: View(id, s.services[id]))
  }

  /** `GetServiceById`: the entry with that id, or not found. */
  function GetServiceById(s: Store, c: Caller, id: int): (r: Result<ServiceView, Error>)
    ensures c.Anonymous? ==> r == Err(Unauthorized)
    ensures c.Authenticated? ==> (r.Err? <==> id !in s.services)
    ensures c.Authenticated? && r.Err? ==> r.error == ServiceNotFound
    ensures r.Ok? ==> r.value == View(id, s.services[id])
  {
    match AuthGate(c)
    case Some(e) => Err(e)
    case None => if id !in s.services then Err(ServiceNotFound) else Ok(View(id, s.services[id]))
  }

  /** An added service reads back, alone or in the full listing, with the body's fields. */
  lemma AddThenRead(s: Store, c: Caller, dto: ServiceDto)
    requires Wf(s) && AddService(s, c, dto).Ok?
    ensures var (s', id) := AddService(s, c, dto).value;
      && GetServiceById(s', c, id) == Ok(ServiceView(id, dto.name.value, dto.cost, dto.minimumOdometer, dto.maximumOdometer))
      && GetAllServices(s', c).Ok? && id in GetAllServices(s', c).value
  {
  }

  /**
    An added service is due at a reading exactly when its range, taken as
    given, covers it: one added with its minimum above its maximum is never
    due, and the entries already there keep their due status.
   */
  lemma AddedServiceDueExactlyInRange(s: Store, c: Caller, dto: ServiceDto, reading: int)
    requires Wf(s) && AddService(s, c, dto).Ok?
    ensures var (s', id) := AddService(s, c, dto).value;
      && (id in RequiredServices(s'.services, reading) <==> dto.minimumOdometer <= reading <= dto.maximumOdometer)
      && (dto.minimumOdometer > dto.maximumOdometer ==> id !in RequiredServices(s'.services, reading))
      && RequiredServices(s.services, reading).Keys == RequiredServices(s'.services, reading).Keys - {id}
  {
  }

  /**
    `UpdateService`: overwrites all four fields of an existing entry with
    the body's, and changes nothing else.
   */
  function UpdateService(s: Store, c: Caller, id: int, dto: ServiceDto): (r: Result<Store, Error>)
    requires Wf(s)
    ensures AdminGate(c).Some? ==> r == Err(AdminGate(c).value)
    ensures AdminGate(c).None? && id !in s.services ==> r == Err(ServiceNotFound)
    ensures AdminGate(c).None? && id in s.services ==> (r.Err? <==> dto.name.None?)
    ensures AdminGate(c).None? && id in s.services && r.Err? ==> r.error == WriteRejected
    ensures r.Ok? ==>
      && id in s.services
      && r.value == s.(services := s.services[id := MaintenanceService(dto.name.value, dto.cost, dto.minimumOdometer, dto.maximumOdometer)])
    ensures r.Ok? ==> Wf(r.value) && (Coherent(s) ==> Coherent(r.value))
  {
    match AdminGate(c)
    case Some(e) => Err(e)
    case None =>
      if id !in s.services then Err(ServiceNotFound)
      else if dto.name.None? then Err(WriteRejected)
      else Ok(s.(services := s.services[id := RowOf(dto)]))
  }

  /** An update reads back as the body's fields, and a second identical update changes nothing. */
  lemma UpdateThenRead(s: Store, c: Caller, id: int, dto: ServiceDto)
    requires Wf(s) && UpdateService(s, c, id, dto).Ok?
    ensures var s' := UpdateService(s, c, id, dto).value;
      && GetServiceById(s', c, id) == Ok(ServiceView(id, dto.name.value, dto.cost, dto.minimumOdometer, dto.maximumOdometer))
      && UpdateService(s', c, id, dto) == Ok(s')
  {
    var s' := UpdateService(s, c, id, dto).value;
    assert s'.services[id := RowOf(dto)] == s'.services;
  }

  /**
    `DeleteService`: removes exactly the entry with that id. A line item
    still naming it makes the database refuse (Restrict).
   */
  function DeleteService(s: Store, c: Caller, id: int): (r: Result<Store, Error>)
    requires Wf(s)
    ensures AdminGate(c).Some? ==> r == Err(AdminGate(c).value)
    ensures AdminGate(c).None? && id !in s.services ==> r == Err(ServiceNotFound)
    ensures AdminGate(c).None? && id in s.services ==> (r.Err? <==> Schema.ServiceInUse(s, id))
    ensures AdminGate(c).None? && id in s.services && r.Err? ==> r.error == WriteRejected
    ensures r.Ok? ==> id in s.services && r.value == s.(services := s.services - {id})
    ensures r.Ok? ==> Wf(r.value) && (Coherent(s) ==> Coherent(r.value))
  {
    match AdminGate(c)
    case Some(e) => Err(e)
    case None =>
      if id !in s.services then Err(ServiceNotFound)
      else if Schema.ServiceInUse(s, id) then Err(WriteRejected)
      else Ok(s.(services := s.services - {id}))
  }

  /** A deleted service can no longer be read, and no reading makes it due. */
  lemma DeleteThenRead(s: Store, c: Caller, id: int, reading: int)
    requires Wf(s) && DeleteService(s, c, id).Ok?
    ensures var s' := DeleteService(s, c, id).value;
      && GetServiceById(s', c, id) == Err(ServiceNotFound)
      && id !in RequiredServices(s'.services, reading)
  {
  }

  /** A service that has been booked can never be deleted while its line item stands. */
  lemma BookedServiceCannotBeDeleted(s: Store, c: Caller, id: int, l: int)
    requires Wf(s) && AdminGate(c).None?
    requires l in s.lineItems && s.lineItems[l].serviceId == id
    ensures DeleteService(s, c, id) == Err(WriteRejected)
  {
  }
}
