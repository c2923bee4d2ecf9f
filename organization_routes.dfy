/**
  The handlers of the organization routes: list, get, update, delete and the searches
  by building, by activity, by name, by radius and by area.
*/
module OrganizationRoutes {
  import opened Common
  import opened Schema
  import opened Descendants
  import opened Repositories
  import opened Http

  const NotFoundDetail: string := "Organization not found"
  const DeletedMessage: string := "Organization deleted"

  /** get_organizations: the Python slice `get_all()[skip : skip + limit]` of the full scan. */
  function ListOrganizations(db: Database, skip: int, limit: int): (r: seq<Organization>)
    reads db
    requires db.Valid()
    ensures skip >= 0 && limit >= 0 ==> r == Window(db.AllOrganizations(), skip, limit)
    ensures skip >= |db.organizations| ==> r == []
    ensures forall o :: o in r ==> o in db.organizations.Values
  {
    var all := db.AllOrganizations();
    PySliceIsRun(all, skip, skip + limit);
    if skip >= 0 && limit >= 0 then
      PySliceIsWindow(all, skip, limit);
      PySlice(all, skip, skip + limit)
    else
      PySlice(all, skip, skip + limit)
  }

  /** get_organization: 404 exactly when the organization does not exist, else it with its relations. */
  function GetOrganization(db: Database, organizationId: int): (r: Response<OrganizationView>)
    reads db
    requires db.Valid()
    ensures r.Ok? || r.NotFound?
    ensures r.NotFound? <==> organizationId !in db.organizations
    ensures r.NotFound? ==> r.detail == NotFoundDetail
    ensures r.Ok? ==> r.value.organization == db.organizations[organizationId]
    ensures r.Ok? ==> forall p :: p in r.value.phoneNumbers <==> p in db.phoneNumbers.Values && p.organizationId == organizationId
    ensures r.Ok? && db.ReferencesIntact() ==> r.value.building == Some(db.buildings[db.organizations[organizationId].buildingId])
  {
    match db.GetOrganizationWithRelations(organizationId)
    case None => NotFound(NotFoundDetail)
    case Some(view) => Ok(view)
  }

  /**
    update_organization as written: 404 when the organization does not exist; otherwise the
    body alone goes to the repository, which finds no `id` in it and raises KeyError.
    Nothing changes.
  */
  method UpdateOrganization(db: Database, organizationId: int, body: OrganizationUpdate) returns (r: Response<Organization>)
    requires db.Valid()
    modifies db
    ensures db.Valid()
    ensures organizationId !in old(db.organizations) ==> r == NotFound(NotFoundDetail)
    ensures organizationId in old(db.organizations) ==> r == Error(KeyError)
    ensures db.State() == old(db.State())
  {
    if db.GetOrganization(organizationId).None? {
      return NotFound(NotFoundDetail);
    }
    var outcome := db.UpdateOrganization(Unset, body);
    r := if outcome.Failed? then Error(outcome.error) else Error(ResponseValidationError);
  }

  /**
    update_organization as intended: the path id selects the row, legal_name and building_id
    are written and the updated organization is returned. Sending phone_numbers or
    activity_ids still fails, since the statement has no columns for them.
  */
  method UpdateOrganizationIntended(db: Database, organizationId: int, body: OrganizationUpdate) returns (r: Response<Organization>)
    requires db.Valid()
    modifies db
    ensures db.Valid()
    ensures db.nextBuildingId == old(db.nextBuildingId) && db.nextActivityId == old(db.nextActivityId)
    ensures db.nextOrganizationId == old(db.nextOrganizationId) && db.nextPhoneNumberId == old(db.nextPhoneNumberId)
    ensures organizationId !in old(db.organizations) ==> r == NotFound(NotFoundDetail) && db.State() == old(db.State())
    ensures organizationId in old(db.organizations) && OrganizationUpdateHasUnknownColumns(body) ==>
              r == Error(CompileError) && db.State() == old(db.State())
    ensures (organizationId in old(db.organizations) && !OrganizationUpdateHasUnknownColumns(body)
              && OrganizationUpdateWritesNull(body)) ==> r == Error(IntegrityError) && db.State() == old(db.State())
    ensures (organizationId in old(db.organizations) && !OrganizationUpdateHasUnknownColumns(body)
              && !OrganizationUpdateWritesNull(body)) ==>
              && r == Ok(ApplyOrganizationUpdate(old(db.organizations)[organizationId], body))
              && db.organizations == old(db.organizations)[organizationId := r.value]
    ensures db.buildings == old(db.buildings) && db.activities == old(db.activities)
    ensures db.phoneNumbers == old(db.phoneNumbers) && db.organizationActivity == old(db.organizationActivity)
    ensures old(db.ReferencesIntact()) && (!body.buildingId.Set? || body.buildingId.value in old(db.buildings)) ==> db.ReferencesIntact()
  {
    if db.GetOrganization(organizationId).None? {
      return NotFound(NotFoundDetail);
    }
    var outcome := db.UpdateOrganization(Set(organizationId), body);
    if outcome.Failed? {
      r := Error(outcome.error);
    } else {
      r := Ok(db.organizations[organizationId]);
    }
  }

  /**
    delete_organization: removes the organization with its phone numbers and link rows if
    present, and always answers the same message.
  */
  method DeleteOrganization(db: Database, organizationId: int) returns (r: Response<string>)
    requires db.Valid()
    modifies db
    ensures db.Valid()
    ensures db.nextBuildingId == old(db.nextBuildingId) && db.nextActivityId == old(db.nextActivityId)
    ensures db.nextOrganizationId == old(db.nextOrganizationId) && db.nextPhoneNumberId == old(db.nextPhoneNumberId)
    ensures r == Ok(DeletedMessage)
    ensures db.organizations == old(db.organizations) - {organizationId}
    ensures forall p :: p in db.phoneNumbers.Values ==> p.organizationId != organizationId
    ensures db.phoneNumbers == PhonesWithout(old(db.phoneNumbers), organizationId)
    ensures db.organizationActivity == LinksWithout(old(db.organizationActivity), organizationId)
    ensures db.buildings == old(db.buildings) && db.activities == old(db.activities)
  {
    db.DeleteOrganization(organizationId);
    r := Ok(DeletedMessage);
  }

  /** get_organizations_by_building: the organizations housed in the building. */
  function OrganizationsByBuilding(db: Database, buildingId: int): (r: set<Organization>)
    reads db
    requires db.Valid()
    ensures forall o :: o in r <==> o in db.organizations.Values && o.buildingId == buildingId
    ensures buildingId in db.buildings ==> r == db.GetBuildingWithRelations(buildingId).value.organizations
  {
    db.GetByBuilding(buildingId)
  }

  /**
    get_organizations_by_activity: the organizations linked to the activity or to an
    activity below it that the level-bounded recursion collects.
  */
  function OrganizationsByActivity(db: Database, activityId: int): (r: set<Organization>)
    reads db
    requires db.Valid()
    ensures forall o :: o in r <==>
      o in db.organizations.Values && exists c :: Reaches(db.activities, activityId, c) && (o.id, c) in db.organizationActivity
    ensures activityId !in db.activities ==> r == {}
  {
    db.GetByActivity(activityId)
  }

  /**
    search_organizations_by_name as written: an empty name is refused with 422 before the
    handler runs; any other name reaches a query that raises AttributeError.
  */
  function SearchByName(db: Database, name: string): (r: Response<set<Organization>>)
    ensures name == [] ==> r == Unprocessable
    ensures name != [] ==> r == Error(AttributeError)
  {
    if name == [] then Unprocessable
    else
      match db.SearchByName(name)
      case Success(found) => Ok(found)
      case Failure(fault) => Error(fault)
  }

  /** search_organizations_by_name as intended: a case-insensitive substring match on legal_name. */
  function SearchByNameIntended(db: Database, name: string): (r: Response<set<Organization>>)
    reads db
    requires db.Valid()
    ensures r.Ok? || r == Unprocessable
    ensures r == Unprocessable <==> name == []
    ensures r.Ok? ==> forall o :: o in r.value <==> o in db.organizations.Values && IsSubstring(Lower(name), Lower(o.legalName))
  {
    if name == [] then Unprocessable else Ok(db.SearchByLegalName(name))
  }

  /**
    get_organizations_in_radius: a radius that is not positive is refused with 422;
    otherwise the organizations whose building lies within the radius.
  */
  function OrganizationsInRadius(db: Database, lat: real, lon: real, radiusKm: real,
                                 distanceKm: (real, real, real, real) -> real): (r: Response<set<Organization>>)
    reads db
    requires db.Valid()
    ensures r.Ok? || r == Unprocessable
    ensures r == Unprocessable <==> radiusKm <= 0.0
    ensures r.Ok? ==> forall o :: o in r.value <==>
      o in db.organizations.Values && o.buildingId in db.buildings
      && distanceKm(lat, lon, db.buildings[o.buildingId].latitude, db.buildings[o.buildingId].longitude) <= radiusKm
  {
    if radiusKm <= 0.0 then Unprocessable else Ok(db.GetInRadius(lat, lon, radiusKm, distanceKm))
  }

  /** get_organizations_in_rectangular_area: the organizations whose building lies in the closed box. */
  function OrganizationsInArea(db: Database, minLat: real, maxLat: real, minLon: real, maxLon: real): (r: set<Organization>)
    reads db
    requires db.Valid()
    ensures forall o :: o in r <==>
      o in db.organizations.Values && o.buildingId in db.buildings
      && InBox(db.buildings[o.buildingId], minLat, maxLat, minLon, maxLon)
    ensures minLat > maxLat || minLon > maxLon ==> r == {}
  {
    db.GetInRectangularArea(minLat, maxLat, minLon, maxLon)
  }
}
