/** The handlers of the activity routes: list, get, update, delete and one level of the tree. */
module ActivityRoutes {
  import opened Common
  import opened Schema
  import opened Repositories
  import opened Http

  const NotFoundDetail: string := "Activity not found"
  const DeletedMessage: string := "Activity deleted"

  /** get_activities: the Python slice `get_all()[skip : skip + limit]` of the full scan. */
  function ListActivities(db: Database, skip: int, limit: int): (r: seq<Activity>)
    reads db
    requires db.Valid()
    ensures skip >= 0 && limit >= 0 ==> r == Window(db.AllActivities(), skip, limit)
    ensures skip >= |db.activities| ==> r == []
    ensures forall a :: a in r ==> a in db.activities.Values
  {
    var all := db.AllActivities();
    PySliceIsRun(all, skip, skip + limit);
    if skip >= 0 && limit >= 0 then
      PySliceIsWindow(all, skip, limit);
      PySlice(all, skip, skip + limit)
    else
      PySlice(all, skip, skip + limit)
  }

  /** get_activity: 404 exactly when the activity does not exist, else it with its relations. */
  function GetActivity(db: Database, activityId: int): (r: Response<ActivityView>)
    reads db
    requires db.Valid()
    ensures r.Ok? || r.NotFound?
    ensures r.NotFound? <==> activityId !in db.activities
    ensures r.NotFound? ==> r.detail == NotFoundDetail
    ensures r.Ok? ==> r.value.activity == db.activities[activityId]
    ensures r.Ok? ==> forall c :: c in r.value.children <==> c in db.activities.Values && c.parentId == Some(activityId)
  {
    match db.GetActivityWithRelations(activityId)
    case None => NotFound(NotFoundDetail)
    case Some(view) => Ok(view)
  }

  /**
    update_activity as written: 404 when the activity does not exist; otherwise the body
    alone goes to the repository, which finds no `id` in it and raises KeyError. Nothing changes.
  */
  method UpdateActivity(db: Database, activityId: int, body: ActivityUpdate) returns (r: Response<Activity>)
    requires db.Valid()
    modifies db
    ensures db.Valid()
    ensures activityId !in old(db.activities) ==> r == NotFound(NotFoundDetail)
    ensures activityId in old(db.activities) ==> r == Error(KeyError)
    ensures db.State() == old(db.State())
  {
    if db.GetActivity(activityId).None? {
      return NotFound(NotFoundDetail);
    }
    var outcome := db.UpdateActivity(Unset, body);
    r := if outcome.Failed? then Error(outcome.error) else Error(ResponseValidationError);
  }

  /**
    update_activity as intended: the path id selects the row, the sent columns are written
    and the updated activity is returned; a null name or level is refused.
  */
  method UpdateActivityIntended(db: Database, activityId: int, body: ActivityUpdate) returns (r: Response<Activity>)
    requires db.Valid()
    modifies db
    ensures db.Valid()
    ensures db.nextBuildingId == old(db.nextBuildingId) && db.nextActivityId == old(db.nextActivityId)
    ensures db.nextOrganizationId == old(db.nextOrganizationId) && db.nextPhoneNumberId == old(db.nextPhoneNumberId)
    ensures activityId !in old(db.activities) ==> r == NotFound(NotFoundDetail) && db.State() == old(db.State())
    ensures activityId in old(db.activities) && ActivityUpdateWritesNull(body) ==> r == Error(IntegrityError) && db.State() == old(db.State())
    ensures activityId in old(db.activities) && !ActivityUpdateWritesNull(body) ==>
              && r == Ok(ApplyActivityUpdate(old(db.activities)[activityId], body))
              && db.activities == old(db.activities)[activityId := r.value]
    ensures db.buildings == old(db.buildings) && db.organizations == old(db.organizations)
    ensures db.phoneNumbers == old(db.phoneNumbers) && db.organizationActivity == old(db.organizationActivity)
    ensures old(db.ReferencesIntact()) && (!body.parentId.Set? || body.parentId.value in old(db.activities)) ==> db.ReferencesIntact()
  {
    if db.GetActivity(activityId).None? {
      return NotFound(NotFoundDetail);
    }
    var outcome := db.UpdateActivity(Set(activityId), body);
    if outcome.Failed? {
      r := Error(outcome.error);
    } else {
      r := Ok(db.activities[activityId]);
    }
  }

  /**
    delete_activity: removes the activity if present, leaving its children as roots, and
    always answers the same message.
  */
  method DeleteActivity(db: Database, activityId: int) returns (r: Response<string>)
    requires db.Valid()
    modifies db
    ensures db.Valid()
    ensures db.nextBuildingId == old(db.nextBuildingId) && db.nextActivityId == old(db.nextActivityId)
    ensures db.nextOrganizationId == old(db.nextOrganizationId) && db.nextPhoneNumberId == old(db.nextPhoneNumberId)
    ensures r == Ok(DeletedMessage)
    ensures activityId in old(db.activities) ==> db.activities == OrphanChildren(old(db.activities) - {activityId}, activityId)
    ensures activityId !in old(db.activities) ==> db.activities == old(db.activities)
    ensures db.buildings == old(db.buildings) && db.organizations == old(db.organizations)
    ensures db.phoneNumbers == old(db.phoneNumbers) && db.organizationActivity == old(db.organizationActivity)
  {
    db.DeleteActivity(activityId);
    r := Ok(DeletedMessage);
  }

  /**
    get_activity_tree: the route's path always supplies a parent id, so the answer is the
    activities whose parent_id is that id, one level deep.
  */
  function ActivityTree(db: Database, parentId: int): (r: set<Activity>)
    reads db
    requires db.Valid()
    ensures forall a :: a in r <==> a in db.activities.Values && a.parentId == Some(parentId)
    ensures parentId in db.activities ==> r == db.GetActivityWithRelations(parentId).value.children
  {
    db.GetTree(Some(parentId))
  }
}
