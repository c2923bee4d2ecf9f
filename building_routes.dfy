/** The handlers of the building routes: list, get, update and delete. */
module BuildingRoutes {
  import opened Common
  import opened Schema
  import opened Repositories
  import opened Http

  const NotFoundDetail: string := "Building not found"
  const DeletedMessage: string := "Building deleted"

  /** get_buildings: the Python slice `get_all()[skip : skip + limit]` of the full scan. */
  function ListBuildings(db: Database, skip: int, limit: int): (r: seq<Building>)
    reads db
    requires db.Valid()
    ensures skip >= 0 && limit >= 0 ==> r == Window(db.AllBuildings(), skip, limit)
    ensures skip >= |db.buildings| ==> r == []
    ensures forall b :: b in r ==> b in db.buildings.Values
  {
    var all := db.AllBuildings();
    PySliceIsRun(all, skip, skip + limit);
    if skip >= 0 && limit >= 0 then
      PySliceIsWindow(all, skip, limit);
      PySlice(all, skip, skip + limit)
    else
      PySlice(all, skip, skip + limit)
  }

  /** get_building: 404 exactly when the building does not exist, else it with its organizations. */
  function GetBuilding(db: Database, buildingId: int): (r: Response<BuildingView>)
    reads db
    requires db.Valid()
    ensures r.Ok? || r.NotFound?
    ensures r.NotFound? <==> buildingId !in db.buildings
    ensures r.NotFound? ==> r.detail == NotFoundDetail
    ensures r.Ok? ==> r.value.building == db.buildings[buildingId]
    ensures r.Ok? ==> forall o :: o in r.value.organizations <==> o in db.organizations.Values && o.buildingId == buildingId
  {
    match db.GetBuildingWithRelations(buildingId)
    case None => NotFound(NotFoundDetail)
    case Some(view) => Ok(view)
  }

  /**
    update_building as written: 404 when the building does not exist; otherwise the body
    alone goes to the repository, which finds no `id` in it and raises KeyError. Nothing changes.
  */
  method UpdateBuilding(db: Database, buildingId: int, body: BuildingUpdate) returns (r: Response<Building>)
    requires db.Valid()
    modifies db
    ensures db.Valid()
    ensures buildingId !in old(db.buildings) ==> r == NotFound(NotFoundDetail)
    ensures buildingId in old(db.buildings) ==> r == Error(KeyError)
    ensures db.State() == old(db.State())
  {
    if db.GetBuilding(buildingId).None? {
      return NotFound(NotFoundDetail);
    }
    var outcome := db.UpdateBuilding(Unset, body);
    r := if outcome.Failed? then Error(outcome.error) else Error(ResponseValidationError);
  }

  /**
    update_building as intended: the path id selects the row, the sent columns are written
    and the updated building is returned; a null for a NOT NULL column is refused.
  */
  method UpdateBuildingIntended(db: Database, buildingId: int, body: BuildingUpdate) returns (r: Response<Building>)
    requires db.Valid()
    modifies db
    ensures db.Valid()
    ensures db.nextBuildingId == old(db.nextBuildingId) && db.nextActivityId == old(db.nextActivityId)
    ensures db.nextOrganizationId == old(db.nextOrganizationId) && db.nextPhoneNumberId == old(db.nextPhoneNumberId)
    ensures buildingId !in old(db.buildings) ==> r == NotFound(NotFoundDetail) && db.State() == old(db.State())
    ensures buildingId in old(db.buildings) && BuildingUpdateWritesNull(body) ==> r == Error(IntegrityError) && db.State() == old(db.State())
    ensures buildingId in old(db.buildings) && !BuildingUpdateWritesNull(body) ==>
              && r == Ok(ApplyBuildingUpdate(old(db.buildings)[buildingId], body))
              && db.buildings == old(db.buildings)[buildingId := r.value]
    ensures db.activities == old(db.activities) && db.organizations == old(db.organizations)
    ensures db.phoneNumbers == old(db.phoneNumbers) && db.organizationActivity == old(db.organizationActivity)
    ensures old(db.ReferencesIntact()) ==> db.ReferencesIntact()
  {
    if db.GetBuilding(buildingId).None? {
      return NotFound(NotFoundDetail);
    }
    var outcome := db.UpdateBuilding(Set(buildingId), body);
    if outcome.Failed? {
      r := Error(outcome.error);
    } else {
      r := Ok(db.buildings[buildingId]);
    }
  }

  /**
    delete_building: "Building deleted" when the building is removed or was absent; a
    building that still houses an organization cannot be deleted, since the flush would
    null those organizations' building_id, and the IntegrityError escapes as a 500.
  */
  method DeleteBuilding(db: Database, buildingId: int) returns (r: Response<string>)
    requires db.Valid()
    modifies db
    ensures db.Valid()
    ensures db.nextBuildingId == old(db.nextBuildingId) && db.nextActivityId == old(db.nextActivityId)
    ensures db.nextOrganizationId == old(db.nextOrganizationId) && db.nextPhoneNumberId == old(db.nextPhoneNumberId)
    ensures r == Ok(DeletedMessage) <==> !(buildingId in old(db.buildings) && Houses(old(db.organizations), buildingId))
    ensures r != Ok(DeletedMessage) ==> r == Error(IntegrityError) && db.State() == old(db.State())
    ensures r == Ok(DeletedMessage) ==> db.buildings == old(db.buildings) - {buildingId}
    ensures buildingId !in db.buildings <==> r == Ok(DeletedMessage)
    ensures db.activities == old(db.activities) && db.organizations == old(db.organizations)
    ensures db.phoneNumbers == old(db.phoneNumbers) && db.organizationActivity == old(db.organizationActivity)
    ensures old(db.ReferencesIntact()) ==> db.ReferencesIntact()
  {
    var outcome := db.DeleteBuilding(buildingId);
    r := if outcome.Failed? then Error(outcome.error) else Ok(DeletedMessage);
  }
}
