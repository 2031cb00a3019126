/**
  The eligibility matcher: which catalog services a given odometer reading
  makes due.
 */
module Eligibility {
  import opened Domain

  /** The service's range contains the reading, inclusive at both ends. */
  predicate Covers(svc: MaintenanceService, reading: int) {
    svc.minimumOdometer <= reading && svc.maximumOdometer >= reading
  }

  /** The catalog entries due at `reading`, keyed by service id. */
  function RequiredServices(catalog: map<int, MaintenanceService>, reading: int): (due: map<int, MaintenanceService>)
    ensures due.Keys <= catalog.Keys
    ensures forall id :: id in due ==> due[id] == catalog[id]
    ensures forall id :: id in catalog ==> (id in due <==> catalog[id].minimumOdometer <= reading <= catalog[id].maximumOdometer)
  {
    map id | id in catalog && Covers(catalog[id], reading) :: catalog[id]
  }

  /**
    Both bounds of a service's range make it due; one step outside either
    bound does not.
   */
  lemma BoundsInclusive(catalog: map<int, MaintenanceService>, id: int)
    requires id in catalog
    requires catalog[id].minimumOdometer <= catalog[id].maximumOdometer
    ensures id in RequiredServices(catalog, catalog[id].minimumOdometer)
    ensures id in RequiredServices(catalog, catalog[id].maximumOdometer)
    ensures id !in RequiredServices(catalog, catalog[id].minimumOdometer - 1)
    ensures id !in RequiredServices(catalog, catalog[id].maximumOdometer + 1)
  {
  }

  /** A service whose minimum exceeds its maximum is never due. */
  lemma InvertedRangeNeverDue(catalog: map<int, MaintenanceService>, id: int, reading: int)
    requires id in catalog
    requires catalog[id].minimumOdometer > catalog[id].maximumOdometer
    ensures id !in RequiredServices(catalog, reading)
  {
  }

  /** Growing the catalog never takes a due service off the list. */
  lemma RequiredServicesMonotone(small: map<int, MaintenanceService>, big: map<int, MaintenanceService>, reading: int)
    requires small.Keys <= big.Keys
    requires forall id :: id in small ==> small[id] == big[id]
    ensures RequiredServices(small, reading).Keys <= RequiredServices(big, reading).Keys
  {
    forall id | id in RequiredServices(small, reading)
      ensures id in RequiredServices(big, reading)
    {
      assert Covers(big[id], reading);
    }
  }
}
