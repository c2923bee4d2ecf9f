/**
  Table rows of the organization handbook and the request bodies that create or
  partially update them.
*/
module Schema {
  import opened Common

  /** A row of `Buildings`: every column is NOT NULL. */
  datatype Building = Building(id: int, address: string, longitude: real, latitude: real)

  /** A row of `activities`: `parentId` is a nullable self-reference, `level` is caller-supplied. */
  datatype Activity = Activity(id: int, name: string, parentId: Option<int>, level: int)

  /** A row of `Organizations`. */
  datatype Organization = Organization(id: int, legalName: string, buildingId: int)

  /** A row of `OrgPhoneNumbers`, owned by one organization. */
  datatype PhoneNumber = PhoneNumber(id: int, phoneNumber: string, organizationId: int)

  /** Create bodies; `level` is None when the caller leaves it out. */
  datatype BuildingCreate = BuildingCreate(address: string, longitude: real, latitude: real)
  datatype ActivityCreate = ActivityCreate(name: string, parentId: Option<int>, level: Option<int>)
  datatype OrganizationCreate = OrganizationCreate(legalName: string, buildingId: int, phoneNumbers: seq<string>, activityIds: seq<int>)

  /** Default of the `level` column when a create body leaves it out. */
  const DefaultLevel: int := 0

  /**
    One field of an update body after `exclude_unset`: left out, sent as null, or sent with a value.
  */
  datatype Field<T> = Unset | Null | Set(value: T)

  /** Update bodies: every field optional; none of them carries an `id`. */
  datatype BuildingUpdate = BuildingUpdate(address: Field<string>, longitude: Field<real>, latitude: Field<real>)
  datatype ActivityUpdate = ActivityUpdate(name: Field<string>, parentId: Field<int>, level: Field<int>)
  datatype OrganizationUpdate = OrganizationUpdate(
    legalName: Field<string>, buildingId: Field<int>,
    phoneNumbers: Field<seq<string>>, activityIds: Field<seq<int>>)

  /** A NOT NULL column after the write: the sent value, else the current one. */
  function Written<T>(f: Field<T>, current: T): T
  {
    if f.Set? then f.value else current
  }

  /** A nullable column after the write: the sent value, null, or the current one. */
  function WrittenNullable<T>(f: Field<T>, current: Option<T>): Option<T>
  {
    match f
    case Unset => current
    case Null => None
    case Set(v) => Some(v)
  }

  function NewBuilding(id: int, body: BuildingCreate): (b: Building)
    ensures b.id == id && b.address == body.address
    ensures b.longitude == body.longitude && b.latitude == body.latitude
  {
    Building(id, body.address, body.longitude, body.latitude)
  }

  function NewActivity(id: int, body: ActivityCreate): (a: Activity)
    ensures a.id == id && a.name == body.name && a.parentId == body.parentId
    ensures a.level == (if body.level.Some? then body.level.value else 0)
  {
    Activity(id, body.name, body.parentId, if body.level.Some? then body.level.value else DefaultLevel)
  }

  /** True when the update sends null into a NOT NULL column of `Buildings`. */
  predicate BuildingUpdateWritesNull(u: BuildingUpdate)
  {
    u.address.Null? || u.longitude.Null? || u.latitude.Null?
  }

  /** True when the update sends null into a NOT NULL column of `activities` (all but `parent_id`). */
  predicate ActivityUpdateWritesNull(u: ActivityUpdate)
  {
    u.name.Null? || u.level.Null?
  }

  /** True when the update sends null into a NOT NULL column of `Organizations`. */
  predicate OrganizationUpdateWritesNull(u: OrganizationUpdate)
  {
    u.legalName.Null? || u.buildingId.Null?
  }

  /** True when the update names keys that are not columns of `Organizations`. */
  predicate OrganizationUpdateHasUnknownColumns(u: OrganizationUpdate)
  {
    !u.phoneNumbers.Unset? || !u.activityIds.Unset?
  }

  /**
    The row selected by `WHERE id = <id>`: a sent value selects that key; null compiles to
    `id IS NULL`, which no primary key satisfies.
  */
  function MatchKey(id: Field<int>): (k: Option<int>)
    ensures k.Some? <==> id.Set?
    ensures id.Set? ==> k.value == id.value
  {
    if id.Set? then Some(id.value) else None
  }

  /**
    A building after `UPDATE ... SET`: sent columns take the sent value, the others keep
    theirs, and the key never changes. Used only when no sent value is null.
  */
  function ApplyBuildingUpdate(b: Building, u: BuildingUpdate): (r: Building)
    ensures r.id == b.id
    ensures u.address.Unset? ==> r.address == b.address
    ensures u.longitude.Unset? ==> r.longitude == b.longitude
    ensures u.latitude.Unset? ==> r.latitude == b.latitude
  {
    Building(b.id, Written(u.address, b.address), Written(u.longitude, b.longitude), Written(u.latitude, b.latitude))
  }

  /** An activity after `UPDATE ... SET`; `parent_id` alone may be sent as null. */
  function ApplyActivityUpdate(a: Activity, u: ActivityUpdate): (r: Activity)
    ensures r.id == a.id
    ensures u.name.Unset? ==> r.name == a.name
    ensures u.parentId.Unset? ==> r.parentId == a.parentId
    ensures u.parentId.Null? ==> r.parentId.None?
    ensures u.level.Unset? ==> r.level == a.level
  {
    Activity(a.id, Written(u.name, a.name), WrittenNullable(u.parentId, a.parentId), Written(u.level, a.level))
  }

  /** An organization after `UPDATE ... SET` of its own two columns. */
  function ApplyOrganizationUpdate(o: Organization, u: OrganizationUpdate): (r: Organization)
    ensures r.id == o.id
    ensures u.legalName.Unset? ==> r.legalName == o.legalName
    ensures u.buildingId.Unset? ==> r.buildingId == o.buildingId
  {
    Organization(o.id, Written(u.legalName, o.legalName), Written(u.buildingId, o.buildingId))
  }

  /** A body that sends nothing leaves every row as it is. */
  lemma EmptyUpdatesAreIdentity(b: Building, a: Activity, o: Organization)
    ensures ApplyBuildingUpdate(b, BuildingUpdate(Unset, Unset, Unset)) == b
    ensures ApplyActivityUpdate(a, ActivityUpdate(Unset, Unset, Unset)) == a
    ensures ApplyOrganizationUpdate(o, OrganizationUpdate(Unset, Unset, Unset, Unset)) == o
  {
  }

  /** Sending the same body twice has the effect of sending it once. */
  lemma UpdatesAreIdempotent(b: Building, ub: BuildingUpdate, a: Activity, ua: ActivityUpdate, o: Organization, uo: OrganizationUpdate)
    ensures ApplyBuildingUpdate(ApplyBuildingUpdate(b, ub), ub) == ApplyBuildingUpdate(b, ub)
    ensures ApplyActivityUpdate(ApplyActivityUpdate(a, ua), ua) == ApplyActivityUpdate(a, ua)
    ensures ApplyOrganizationUpdate(ApplyOrganizationUpdate(o, uo), uo) == ApplyOrganizationUpdate(o, uo)
  {
  }

  /** With no null sent, every sent column ends up holding the sent value. */
  lemma SentValuesAreWritten(b: Building, ub: BuildingUpdate, a: Activity, ua: ActivityUpdate, o: Organization, uo: OrganizationUpdate)
    requires !BuildingUpdateWritesNull(ub) && !ActivityUpdateWritesNull(ua) && !OrganizationUpdateWritesNull(uo)
    ensures !ub.address.Unset? ==> ApplyBuildingUpdate(b, ub).address == ub.address.value
    ensures !ub.longitude.Unset? ==> ApplyBuildingUpdate(b, ub).longitude == ub.longitude.value
    ensures !ub.latitude.Unset? ==> ApplyBuildingUpdate(b, ub).latitude == ub.latitude.value
    ensures !ua.name.Unset? ==> ApplyActivityUpdate(a, ua).name == ua.name.value
    ensures ua.parentId.Set? ==> ApplyActivityUpdate(a, ua).parentId == Some(ua.parentId.value)
    ensures !ua.level.Unset? ==> ApplyActivityUpdate(a, ua).level == ua.level.value
    ensures !uo.legalName.Unset? ==> ApplyOrganizationUpdate(o, uo).legalName == uo.legalName.value
    ensures !uo.buildingId.Unset? ==> ApplyOrganizationUpdate(o, uo).buildingId == uo.buildingId.value
  {
  }
}
