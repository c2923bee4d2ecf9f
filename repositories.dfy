/**
  The repository layer over an in-memory relational store: the four tables
  `Buildings`, `activities`, `Organizations` and `OrgPhoneNumbers`, the
  `organization_activity` link table, and the queries and statements the
  Organization, Building and Activity repositories issue against them.
*/
module Repositories {
  import opened Common
  import opened Schema
  import opened Tables
  import opened Descendants

  /** The exceptions a repository call or a handler can end in. */
  datatype Fault =
    | KeyError                 // `update_data["id"]` on a body without an id
    | TypeError                // unknown keyword arguments to a mapped constructor
    | AttributeError           // a column attribute the mapped class does not have
    | CompileError             // `UPDATE ... SET` naming keys that are not columns
    | IntegrityError           // null written into a NOT NULL column
    | ResponseValidationError  // a handler returned None where a row is declared

  /** Completion of a statement that returns nothing. */
  datatype Outcome = Done | Failed(error: Fault)

  /** Completion of a call that returns a value. */
  datatype Result<T> = Success(value: T) | Failure(error: Fault)

  /** An organization with its building, phone numbers and activities loaded. */
  datatype OrganizationView = OrganizationView(
    organization: Organization, building: Option<Building>,
    phoneNumbers: set<PhoneNumber>, activities: set<Activity>)

  /** A building with its organizations loaded. */
  datatype BuildingView = BuildingView(building: Building, organizations: set<Organization>)

  /** An activity with its parent, children and organizations loaded. */
  datatype ActivityView = ActivityView(
    activity: Activity, parent: Option<Activity>,
    children: set<Activity>, organizations: set<Organization>)

  /** Phone rows numbered from `start`, one per number in order, all owned by `organizationId`. */
  function NewPhones(organizationId: int, start: int, numbers: seq<string>): (m: map<int, PhoneNumber>)
    ensures forall k :: k in m <==> start <= k < start + |numbers|
    ensures forall k :: k in m ==> m[k] == PhoneNumber(k, numbers[k - start], organizationId)
    decreases |numbers|
  {
    if numbers == [] then map[]
    else
      var last := start + |numbers| - 1;
      NewPhones(organizationId, start, numbers[..|numbers| - 1])[last := PhoneNumber(last, numbers[|numbers| - 1], organizationId)]
  }

  /** Phone rows carry their own positive key below `next` and belong to an existing organization. */
  ghost predicate PhoneRowsValid(phones: map<int, PhoneNumber>, organizations: map<int, Organization>, next: int)
  {
    forall k :: k in phones ==> phones[k].id == k && 0 < k < next && phones[k].organizationId in organizations
  }

  /** Numbering new rows from the next id keeps the phone rows valid. */
  lemma NewPhonesKeepRowsValid(phones: map<int, PhoneNumber>, organizations: map<int, Organization>,
                               next: int, organizationId: int, numbers: seq<string>)
    requires PhoneRowsValid(phones, organizations, next) && 0 < next && organizationId in organizations
    ensures PhoneRowsValid(phones + NewPhones(organizationId, next, numbers), organizations, next + |numbers|)
    ensures forall k :: k in phones ==> k !in NewPhones(organizationId, next, numbers)
  {
  }

  /** Adding the next number adds one row keyed by the next id. */
  lemma NewPhonesExtend(organizationId: int, start: int, numbers: seq<string>, i: int)
    requires 0 <= i < |numbers|
    ensures NewPhones(organizationId, start, numbers[..i + 1])
         == NewPhones(organizationId, start, numbers[..i])[start + i := PhoneNumber(start + i, numbers[i], organizationId)]
  {
    assert numbers[..i + 1][..i] == numbers[..i];
  }

  /** The phone table without the rows of one organization (the delete-orphan cascade). */
  function PhonesWithout(phones: map<int, PhoneNumber>, organizationId: int): (m: map<int, PhoneNumber>)
    ensures forall k :: k in m <==> k in phones && phones[k].organizationId != organizationId
    ensures forall k :: k in m ==> m[k] == phones[k]
  {
    map k | k in phones && phones[k].organizationId != organizationId :: phones[k]
  }

  /** The link table without the rows of one organization. */
  function LinksWithout(links: set<(int, int)>, organizationId: int): (s: set<(int, int)>)
    ensures forall p :: p in s <==> p in links && p.0 != organizationId
  {
    set p | p in links && p.0 != organizationId
  }

  /** Does a building lie in the closed latitude/longitude box (SQL BETWEEN on both)? */
  predicate InBox(b: Building, minLat: real, maxLat: real, minLon: real, maxLon: real)
  {
    minLat <= b.latitude <= maxLat && minLon <= b.longitude <= maxLon
  }

  /** Does some organization name `buildingId` as its building? */
  predicate Houses(organizations: map<int, Organization>, buildingId: int)
  {
    exists k | k in organizations :: organizations[k].buildingId == buildingId
  }

  /**
    The outcome of deleting a building through the session: the flush first sets the
    building_id of the building's organizations to NULL, which the NOT NULL column refuses.
  */
  function BuildingDeleteOutcome(buildings: map<int, Building>, organizations: map<int, Organization>, id: int): Outcome
  {
    if id in buildings && Houses(organizations, id) then Failed(IntegrityError) else Done
  }

  /**
    The activity rows after the flush of an activity's deletion: each child of activity
    `id` has its parent_id set to NULL, and every other row is left as it was.
  */
  function OrphanChildren(acts: map<int, Activity>, id: int): (r: map<int, Activity>)
    ensures r.Keys == acts.Keys
    ensures forall k :: k in r ==> r[k].parentId != Some(id)
    ensures forall k :: k in acts && acts[k].parentId != Some(id) ==> r[k] == acts[k]
    ensures forall k :: k in acts && acts[k].parentId == Some(id) ==> r[k] == acts[k].(parentId := None)
  {
    map k | k in acts :: if acts[k].parentId == Some(id) then acts[k].(parentId := None) else acts[k]
  }

  /** The outcome of the repository update of a building. */
  function BuildingUpdateOutcome(rows: map<int, Building>, id: Field<int>, u: BuildingUpdate): Outcome
  {
    if id.Unset? then Failed(KeyError)
    else if id.Set? && id.value in rows && BuildingUpdateWritesNull(u) then Failed(IntegrityError)
    else Done
  }

  /** The outcome of the repository update of an activity. */
  function ActivityUpdateOutcome(rows: map<int, Activity>, id: Field<int>, u: ActivityUpdate): Outcome
  {
    if id.Unset? then Failed(KeyError)
    else if id.Set? && id.value in rows && ActivityUpdateWritesNull(u) then Failed(IntegrityError)
    else Done
  }

  /** The outcome of the repository update of an organization. */
  function OrganizationUpdateOutcome(rows: map<int, Organization>, id: Field<int>, u: OrganizationUpdate): Outcome
  {
    if id.Unset? then Failed(KeyError)
    else if OrganizationUpdateHasUnknownColumns(u) then Failed(CompileError)
    else if id.Set? && id.value in rows && OrganizationUpdateWritesNull(u) then Failed(IntegrityError)
    else Done
  }

  /**
    Every update body the Update schemas can produce lacks an `id`, so forwarding it
    alone, as the handlers do, always fails with KeyError, whatever the table holds.
  */
  lemma SchemaBodiesAlwaysFail(b: map<int, Building>, ub: BuildingUpdate,
                               a: map<int, Activity>, ua: ActivityUpdate,
                               o: map<int, Organization>, uo: OrganizationUpdate)
    ensures BuildingUpdateOutcome(b, Unset, ub) == Failed(KeyError)
    ensures ActivityUpdateOutcome(a, Unset, ua) == Failed(KeyError)
    ensures OrganizationUpdateOutcome(o, Unset, uo) == Failed(KeyError)
  {
  }

  /**
    An update that names an existing id and sends no null succeeds; for an organization
    the body must also leave out phone numbers and activity ids.
  */
  lemma UpdateWithIdSucceeds(b: map<int, Building>, ub: BuildingUpdate,
                             a: map<int, Activity>, ua: ActivityUpdate,
                             o: map<int, Organization>, uo: OrganizationUpdate, id: int)
    ensures BuildingUpdateOutcome(b, Set(id), ub) == Done <==> !(id in b && BuildingUpdateWritesNull(ub))
    ensures ActivityUpdateOutcome(a, Set(id), ua) == Done <==> !(id in a && ActivityUpdateWritesNull(ua))
    ensures OrganizationUpdateOutcome(o, Set(id), uo) == Done <==>
      !OrganizationUpdateHasUnknownColumns(uo) && !(id in o && OrganizationUpdateWritesNull(uo))
  {
  }

  /** The whole content of the store: every table and every table's next key. */
  datatype StoreState = StoreState(
    buildings: map<int, Building>, activities: map<int, Activity>,
    organizations: map<int, Organization>, phoneNumbers: map<int, PhoneNumber>,
    organizationActivity: set<(int, int)>,
    nextBuildingId: int, nextActivityId: int, nextOrganizationId: int, nextPhoneNumberId: int)

  class Database {
    var buildings: map<int, Building>
    var activities: map<int, Activity>
    var organizations: map<int, Organization>
    var phoneNumbers: map<int, PhoneNumber>
    /** Rows (organization_id, activity_id); the pair is the primary key, so each occurs once. */
    var organizationActivity: set<(int, int)>
    var nextBuildingId: int
    var nextActivityId: int
    var nextOrganizationId: int
    var nextPhoneNumberId: int

    /**
      What every statement keeps: rows carry their own positive key below the table's next
      key; every phone number and every link row belongs to an existing organization.
    */
    ghost predicate Valid()
      reads this
    {
      && (forall k :: k in buildings ==> buildings[k].id == k && 0 < k < nextBuildingId)
      && (forall k :: k in activities ==> activities[k].id == k && 0 < k < nextActivityId)
      && (forall k :: k in organizations ==> organizations[k].id == k && 0 < k < nextOrganizationId)
      && PhoneRowsValid(phoneNumbers, organizations, nextPhoneNumberId)
      && (forall p :: p in organizationActivity ==> p.0 in organizations)
      && 0 < nextBuildingId && 0 < nextActivityId && 0 < nextOrganizationId && 0 < nextPhoneNumberId
    }

    /**
      The declared foreign keys: every organization's building exists, every parent_id is
      null or an existing activity, every link row names an existing activity. The engine
      does not enforce them, so statements keep them only under the stated conditions.
    */
    ghost predicate ReferencesIntact()
      reads this
    {
      && (forall k :: k in organizations ==> organizations[k].buildingId in buildings)
      && (forall k :: k in activities ==> activities[k].parentId.None? || activities[k].parentId.value in activities)
      && (forall p :: p in organizationActivity ==> p.1 in activities)
    }

    function State(): StoreState
      reads this
    {
      StoreState(buildings, activities, organizations, phoneNumbers, organizationActivity,
                 nextBuildingId, nextActivityId, nextOrganizationId, nextPhoneNumberId)
    }

    constructor ()
      ensures Valid() && ReferencesIntact()
      ensures buildings == map[] && activities == map[] && organizations == map[]
      ensures phoneNumbers == map[] && organizationActivity == {}
    {
      buildings := map[];
      activities := map[];
      organizations := map[];
      phoneNumbers := map[];
      organizationActivity := {};
      nextBuildingId := 1;
      nextActivityId := 1;
      nextOrganizationId := 1;
      nextPhoneNumberId := 1;
    }

    // ---------------------------------------------------------------- lookups

    function GetBuilding(id: int): (r: Option<Building>)
      reads this
      requires Valid()
      ensures r.None? <==> id !in buildings
      ensures r.Some? ==> r.value.id == id && r.value in buildings.Values
    {
      if id in buildings then Some(buildings[id]) else None
    }

    function GetActivity(id: int): (r: Option<Activity>)
      reads this
      requires Valid()
      ensures r.None? <==> id !in activities
      ensures r.Some? ==> r.value.id == id && r.value in activities.Values
    {
      if id in activities then Some(activities[id]) else None
    }

    function GetOrganization(id: int): (r: Option<Organization>)
      reads this
      requires Valid()
      ensures r.None? <==> id !in organizations
      ensures r.Some? ==> r.value.id == id && r.value in organizations.Values
    {
      if id in organizations then Some(organizations[id]) else None
    }

    function GetBuildingWithRelations(id: int): (r: Option<BuildingView>)
      reads this
      requires Valid()
      ensures r.None? <==> id !in buildings
      ensures r.Some? ==> r.value.building.id == id
      ensures r.Some? ==> forall o :: o in r.value.organizations <==> o in organizations.Values && o.buildingId == id
    {
      if id in buildings then
        Some(BuildingView(buildings[id], set o | o in organizations.Values && o.buildingId == id))
      else None
    }

    function GetActivityWithRelations(id: int): (r: Option<ActivityView>)
      reads this
      requires Valid()
      ensures r.None? <==> id !in activities
      ensures r.Some? ==> r.value.activity.id == id
      ensures r.Some? ==> forall c :: c in r.value.children <==> c in activities.Values && c.parentId == Some(id)
      ensures r.Some? ==> forall o :: o in r.value.organizations <==> o in organizations.Values && (o.id, id) in organizationActivity
    {
      if id in activities then
        var a := activities[id];
        var parent := if a.parentId.Some? && a.parentId.value in activities then Some(activities[a.parentId.value]) else None;
        Some(ActivityView(a, parent,
          set c | c in activities.Values && c.parentId == Some(id),
          set o | o in organizations.Values && (o.id, id) in organizationActivity))
      else None
    }

    function GetOrganizationWithRelations(id: int): (r: Option<OrganizationView>)
      reads this
      requires Valid()
      ensures r.None? <==> id !in organizations
      ensures r.Some? ==> r.value.organization.id == id
      ensures r.Some? ==> forall p :: p in r.value.phoneNumbers <==> p in phoneNumbers.Values && p.organizationId == id
      ensures r.Some? ==> forall a :: a in r.value.activities <==> a in activities.Values && (id, a.id) in organizationActivity
    {
      if id in organizations then
        var o := organizations[id];
        var building := if o.buildingId in buildings then Some(buildings[o.buildingId]) else None;
        Some(OrganizationView(o, building,
          set p | p in phoneNumbers.Values && p.organizationId == id,
          set a | a in activities.Values && (id, a.id) in organizationActivity))
      else None
    }

    // ---------------------------------------------------------------- full scans

    function AllBuildings(): (r: seq<Building>)
      reads this
      requires Valid()
      ensures |r| == |buildings|
      ensures forall b :: b in r <==> b in buildings.Values
      ensures forall i, j :: 0 <= i < j < |r| ==> r[i].id < r[j].id
    {
      RowsAscending(buildings, (b: Building) => b.id);
      Rows(buildings)
    }

    function AllActivities(): (r: seq<Activity>)
      reads this
      requires Valid()
      ensures |r| == |activities|
      ensures forall a :: a in r <==> a in activities.Values
      ensures forall i, j :: 0 <= i < j < |r| ==> r[i].id < r[j].id
    {
      RowsAscending(activities, (a: Activity) => a.id);
      Rows(activities)
    }

    function AllOrganizations(): (r: seq<Organization>)
      reads this
      requires Valid()
      ensures |r| == |organizations|
      ensures forall o :: o in r <==> o in organizations.Values
      ensures forall i, j :: 0 <= i < j < |r| ==> r[i].id < r[j].id
    {
      RowsAscending(organizations, (o: Organization) => o.id);
      Rows(organizations)
    }

    // ---------------------------------------------------------------- filters

    function GetByBuilding(buildingId: int): (r: set<Organization>)
      reads this
      requires Valid()
      ensures forall o :: o in r ==> o in organizations.Values && o.buildingId == buildingId
      ensures forall k :: k in organizations && organizations[k].buildingId == buildingId ==> organizations[k] in r
    {
      set o | o in organizations.Values && o.buildingId == buildingId
    }

    /**
      Organizations linked to an activity of the recursive query's closure: those linked to
      some activity that a chain reaches from `activityId`.
    */
    function GetByActivity(activityId: int): (r: set<Organization>)
      reads this
      requires Valid()
      ensures forall o :: o in r <==>
        o in organizations.Values && exists c :: Reaches(activities, activityId, c) && (o.id, c) in organizationActivity
      ensures activityId !in activities ==> r == {}
    {
      var ids := DescendantIds(activities, activityId);
      var r := set o | o in organizations.Values && exists c :: c in ids && (o.id, c) in organizationActivity;
      assert forall c :: c in ids <==> Reaches(activities, activityId, c) by {
        forall c ensures c in ids <==> Reaches(activities, activityId, c) {
          DescendantIdsCharacterized(activities, activityId, c);
        }
      }
      r
    }

    function GetInRectangularArea(minLat: real, maxLat: real, minLon: real, maxLon: real): (r: set<Organization>)
      reads this
      requires Valid()
      ensures forall o :: o in r <==>
        o in organizations.Values && o.buildingId in buildings && InBox(buildings[o.buildingId], minLat, maxLat, minLon, maxLon)
    {
      set o | o in organizations.Values && o.buildingId in buildings
                && InBox(buildings[o.buildingId], minLat, maxLat, minLon, maxLon)
    }

    /**
      Organizations whose building lies within `radiusKm` of (lat, lon); the great-circle
      distance the database computes is the parameter `distanceKm(lat, lon, latitude, longitude)`.
    */
    function GetInRadius(lat: real, lon: real, radiusKm: real, distanceKm: (real, real, real, real) -> real): (r: set<Organization>)
      reads this
      requires Valid()
      ensures forall o :: o in r <==>
        o in organizations.Values && o.buildingId in buildings
        && distanceKm(lat, lon, buildings[o.buildingId].latitude, buildings[o.buildingId].longitude) <= radiusKm
    {
      set o | o in organizations.Values && o.buildingId in buildings
                && distanceKm(lat, lon, buildings[o.buildingId].latitude, buildings[o.buildingId].longitude) <= radiusKm
    }

    /** search_by_name as written: the query refers to `Organization.name`, which the class lacks. */
    function SearchByName(name: string): (r: Result<set<Organization>>)
      ensures r == Failure(AttributeError)
    {
      Failure(AttributeError)
    }

    /** search_by_name as intended: `legal_name ILIKE '%name%'`, ASCII case-insensitive. */
    function SearchByLegalName(name: string): (r: set<Organization>)
      reads this
      requires Valid()
      ensures forall o :: o in r <==> o in organizations.Values && IsSubstring(Lower(name), Lower(o.legalName))
    {
      set o | o in organizations.Values && IsSubstring(Lower(name), Lower(o.legalName))
    }

    /** get_tree: the activities whose parent_id is `parentId` (null selects the roots). */
    function GetTree(parentId: Option<int>): (r: set<Activity>)
      reads this
      requires Valid()
      ensures forall a :: a in r <==> a in activities.Values && a.parentId == parentId
    {
      set a | a in activities.Values && a.parentId == parentId
    }

    // ---------------------------------------------------------------- lemmas about queries

    /** children and parent are two sides of one relationship. */
    lemma ChildrenMatchParent(p: int, c: int)
      requires Valid() && p in activities && c in activities
      ensures activities[c] in GetActivityWithRelations(p).value.children
          <==> GetActivityWithRelations(c).value.parent == Some(activities[p])
    {
      var child := activities[c];
      if GetActivityWithRelations(c).value.parent == Some(activities[p]) {
        assert child.parentId.Some? && child.parentId.value in activities;
        assert activities[child.parentId.value] == activities[p];
        assert activities[child.parentId.value].id == child.parentId.value;
      }
    }

    /** An organization's activities and an activity's organizations come from the same link rows. */
    lemma ActivitiesMatchOrganizations(o: int, a: int)
      requires Valid() && o in organizations && a in activities
      ensures activities[a] in GetOrganizationWithRelations(o).value.activities
          <==> organizations[o] in GetActivityWithRelations(a).value.organizations
    {
      assert activities[a].id == a && organizations[o].id == o;
    }

    /** A building's organizations are the organizations whose building is that building. */
    lemma OrganizationsMatchBuilding(b: int, o: int)
      requires Valid() && b in buildings && o in organizations
      ensures organizations[o] in GetBuildingWithRelations(b).value.organizations
          <==> GetOrganizationWithRelations(o).value.building == Some(buildings[b])
    {
      var org := organizations[o];
      if GetOrganizationWithRelations(o).value.building == Some(buildings[b]) {
        assert buildings[org.buildingId].id == org.buildingId;
      }
    }

    /** get_by_building returns what get_with_relations loads as the building's organizations. */
    lemma ByBuildingIsBuildingView(b: int)
      requires Valid() && b in buildings
      ensures GetByBuilding(b) == GetBuildingWithRelations(b).value.organizations
    {
    }

    /** Every phone number shows up under its own organization and under no other. */
    lemma PhoneBelongsToOneOrganization(k: int, o: int)
      requires Valid() && k in phoneNumbers && o in organizations
      ensures phoneNumbers[k] in GetOrganizationWithRelations(o).value.phoneNumbers
          <==> phoneNumbers[k].organizationId == o
    {
    }

    /** An organization linked to the start activity itself is found, whatever the start's level. */
    lemma ByActivityFindsDirectLinks(a: int, o: int)
      requires Valid() && a in activities && o in organizations && (o, a) in organizationActivity
      ensures organizations[o] in GetByActivity(a)
    {
      assert IsChain(activities, a, [a]);
      assert Reaches(activities, a, a);
    }

    /**
      Linking propagates one level down: an organization linked to a child of `a` whose
      level is below 3 is found under `a`.
    */
    lemma ByActivityFindsShallowChildren(a: int, c: int, o: int)
      requires Valid() && a in activities && c in activities && o in organizations
      requires activities[c].parentId == Some(a) && activities[c].level < LevelBound
      requires (o, c) in organizationActivity
      ensures organizations[o] in GetByActivity(a)
    {
      assert IsChain(activities, a, [a]);
      ChainExtends(activities, a, [a], c);
      assert [a] + [c] == [a, c];
      assert Reaches(activities, a, c);
    }

    /**
      Whatever get_by_activity finds is linked to the start activity or to a collected
      activity of level below 3 whose parent is also collected.
    */
    lemma ByActivityStopsAtLevelBound(a: int, o: Organization)
      requires Valid() && o in GetByActivity(a)
      ensures exists c :: (o.id, c) in organizationActivity && c in DescendantIds(activities, a)
                && (c == a || (activities[c].level < LevelBound
                               && activities[c].parentId.Some?
                               && activities[c].parentId.value in DescendantIds(activities, a)))
    {
      var c :| Reaches(activities, a, c) && (o.id, c) in organizationActivity;
      DescendantIdsCharacterized(activities, a, c);
      if c != a {
        CollectedBelowBound(activities, a, c);
      }
    }

    /** The area query is the union of get_by_building over the buildings inside the box. */
    lemma AreaIsUnionOfBuildings(minLat: real, maxLat: real, minLon: real, maxLon: real, o: Organization)
      requires Valid()
      ensures o in GetInRectangularArea(minLat, maxLat, minLon, maxLon)
          <==> exists b :: b in buildings && InBox(buildings[b], minLat, maxLat, minLon, maxLon) && o in GetByBuilding(b)
    {
      if o in GetInRectangularArea(minLat, maxLat, minLon, maxLon) {
        assert o in GetByBuilding(o.buildingId);
      }
    }

    /** A box with min above max on either axis holds nothing. */
    lemma InvertedAreaIsEmpty(minLat: real, maxLat: real, minLon: real, maxLon: real)
      requires Valid() && (minLat > maxLat || minLon > maxLon)
      ensures GetInRectangularArea(minLat, maxLat, minLon, maxLon) == {}
    {
    }

    /** A larger radius finds every organization a smaller one finds. */
    lemma RadiusIsMonotone(lat: real, lon: real, r1: real, r2: real, distanceKm: (real, real, real, real) -> real)
      requires Valid() && r1 <= r2
      ensures GetInRadius(lat, lon, r1, distanceKm) <= GetInRadius(lat, lon, r2, distanceKm)
    {
    }

    /** A longer search term narrows the result: whatever matches it matches any part of it. */
    lemma LongerNameNarrowsSearch(shorter: string, longer: string)
      requires Valid() && IsSubstring(shorter, longer)
      ensures SearchByLegalName(longer) <= SearchByLegalName(shorter)
    {
      LowerKeepsSubstring(shorter, longer);
      forall o | o in SearchByLegalName(longer)
        ensures o in SearchByLegalName(shorter)
      {
        SubstringTransitive(Lower(shorter), Lower(longer), Lower(o.legalName));
      }
    }

    /** get_tree(p) for an existing p returns exactly the children get_with_relations loads. */
    lemma TreeIsChildren(p: int)
      requires Valid() && p in activities
      ensures GetTree(Some(p)) == GetActivityWithRelations(p).value.children
    {
    }

    /**
      get_tree returns one level only: each activity is listed under its own parent_id and
      under no other, so a grandchild never appears under its grandparent.
    */
    lemma TreeIsOneLevel(k: int, parentId: Option<int>)
      requires Valid() && k in activities
      ensures activities[k] in GetTree(parentId) <==> activities[k].parentId == parentId
    {
    }

    /** With the foreign keys intact, a parent id that names no activity has no children. */
    lemma TreeOfUnknownParentIsEmpty(p: int)
      requires Valid() && ReferencesIntact() && p !in activities
      ensures GetTree(Some(p)) == {}
    {
      forall k | k in activities
        ensures activities[k].parentId != Some(p)
      {
      }
    }

    // ---------------------------------------------------------------- statements

    method CreateBuilding(body: BuildingCreate) returns (b: Building)
      requires Valid()
      modifies this
      ensures Valid()
      ensures b.id == old(nextBuildingId) && b.id !in old(buildings)
      ensures b.address == body.address && b.longitude == body.longitude && b.latitude == body.latitude
      ensures buildings == old(buildings)[b.id := b]
      ensures nextBuildingId == old(nextBuildingId) + 1
      ensures activities == old(activities) && organizations == old(organizations)
      ensures phoneNumbers == old(phoneNumbers) && organizationActivity == old(organizationActivity)
      ensures nextActivityId == old(nextActivityId) && nextOrganizationId == old(nextOrganizationId)
      ensures nextPhoneNumberId == old(nextPhoneNumberId)
      ensures old(ReferencesIntact()) ==> ReferencesIntact()
      ensures GetBuilding(b.id) == Some(b)
    {
      b := NewBuilding(nextBuildingId, body);
      buildings := buildings[b.id := b];
      nextBuildingId := nextBuildingId + 1;
    }

    method CreateActivity(body: ActivityCreate) returns (a: Activity)
      requires Valid()
      modifies this
      ensures Valid()
      ensures a.id == old(nextActivityId) && a.id !in old(activities)
      ensures a.name == body.name && a.parentId == body.parentId
      ensures a.level == (if body.level.Some? then body.level.value else DefaultLevel)
      ensures activities == old(activities)[a.id := a]
      ensures nextActivityId == old(nextActivityId) + 1
      ensures buildings == old(buildings) && organizations == old(organizations)
      ensures phoneNumbers == old(phoneNumbers) && organizationActivity == old(organizationActivity)
      ensures nextBuildingId == old(nextBuildingId) && nextOrganizationId == old(nextOrganizationId)
      ensures nextPhoneNumberId == old(nextPhoneNumberId)
      ensures old(ReferencesIntact()) && (body.parentId.None? || body.parentId.value in old(activities)) ==> ReferencesIntact()
      ensures GetActivity(a.id) == Some(a)
    {
      a := NewActivity(nextActivityId, body);
      activities := activities[a.id := a];
      nextActivityId := nextActivityId + 1;
    }

    /**
      OrganizationRepository.create as written: the body's phone_numbers and activity_ids
      are passed to the Organization constructor, which has no such columns, so every call
      raises TypeError before anything is added.
    */
    method CreateOrganization(body: OrganizationCreate) returns (r: Result<Organization>)
      ensures r == Failure(TypeError)
    {
      r := Failure(TypeError);
    }

    /**
      OrganizationRepository.create as intended: insert the organization, one phone row per
      number in order, and a link row to each listed activity that exists.
    */
    method CreateOrganizationIntended(body: OrganizationCreate) returns (o: Organization)
      requires Valid()
      modifies this
      ensures Valid()
      ensures o == Organization(old(nextOrganizationId), body.legalName, body.buildingId)
      ensures o.id !in old(organizations) && organizations == old(organizations)[o.id := o]
      ensures phoneNumbers == old(phoneNumbers) + NewPhones(o.id, old(nextPhoneNumberId), body.phoneNumbers)
      ensures forall k :: k in old(phoneNumbers) ==> phoneNumbers[k].organizationId != o.id
      ensures organizationActivity == old(organizationActivity) + set a | a in body.activityIds && a in activities :: (o.id, a)
      ensures buildings == old(buildings) && activities == old(activities)
      ensures nextOrganizationId == old(nextOrganizationId) + 1
      ensures nextPhoneNumberId == old(nextPhoneNumberId) + |body.phoneNumbers|
      ensures nextBuildingId == old(nextBuildingId) && nextActivityId == old(nextActivityId)
      ensures old(ReferencesIntact()) && body.buildingId in buildings ==> ReferencesIntact()
    {
      var id := nextOrganizationId;
      o := Organization(id, body.legalName, body.buildingId);
      organizations := organizations[id := o];
      nextOrganizationId := id + 1;
      assert forall k :: k in old(phoneNumbers) ==> phoneNumbers[k].organizationId != id;
      AddPhoneNumbers(id, body.phoneNumbers);
      organizationActivity := organizationActivity + set a | a in body.activityIds && a in activities :: (id, a);
    }

    /** Inserts one phone row per number, in order, with consecutive fresh ids. */
    method AddPhoneNumbers(organizationId: int, numbers: seq<string>)
      requires Valid() && organizationId in organizations
      modifies this
      ensures Valid()
      ensures phoneNumbers == old(phoneNumbers) + NewPhones(organizationId, old(nextPhoneNumberId), numbers)
      ensures nextPhoneNumberId == old(nextPhoneNumberId) + |numbers|
      ensures buildings == old(buildings) && activities == old(activities) && organizations == old(organizations)
      ensures organizationActivity == old(organizationActivity)
      ensures nextBuildingId == old(nextBuildingId) && nextActivityId == old(nextActivityId)
      ensures nextOrganizationId == old(nextOrganizationId)
    {
      var start := nextPhoneNumberId;
      var i := 0;
      while i < |numbers|
        invariant 0 <= i <= |numbers|
        invariant nextPhoneNumberId == start + i
        invariant phoneNumbers == old(phoneNumbers) + NewPhones(organizationId, start, numbers[..i])
        invariant buildings == old(buildings) && activities == old(activities) && organizations == old(organizations)
        invariant organizationActivity == old(organizationActivity)
        invariant nextBuildingId == old(nextBuildingId) && nextActivityId == old(nextActivityId)
        invariant nextOrganizationId == old(nextOrganizationId)
      {
        var p := PhoneNumber(nextPhoneNumberId, numbers[i], organizationId);
        NewPhonesExtend(organizationId, start, numbers, i);
        ghost var before := NewPhones(organizationId, start, numbers[..i]);
        assert (old(phoneNumbers) + before)[p.id := p] == old(phoneNumbers) + before[p.id := p];
        phoneNumbers := phoneNumbers[p.id := p];
        nextPhoneNumberId := nextPhoneNumberId + 1;
        i := i + 1;
      }
      assert numbers[..i] == numbers;
      NewPhonesKeepRowsValid(old(phoneNumbers), organizations, start, organizationId, numbers);
    }

    /**
      BuildingRepository.update: the row selected by the body's `id` takes the sent columns.
      No id raises KeyError; a null sent into a NOT NULL column of a matched row raises
      IntegrityError and nothing changes; an id that matches nothing changes nothing.
    */
    method UpdateBuilding(id: Field<int>, u: BuildingUpdate) returns (r: Outcome)
      requires Valid()
      modifies this
      ensures Valid()
      ensures r == BuildingUpdateOutcome(old(buildings), id, u)
      ensures buildings == if r.Done? then UpdateWhere(old(buildings), MatchKey(id), b => ApplyBuildingUpdate(b, u)) else old(buildings)
      ensures activities == old(activities) && organizations == old(organizations)
      ensures phoneNumbers == old(phoneNumbers) && organizationActivity == old(organizationActivity)
      ensures nextBuildingId == old(nextBuildingId) && nextActivityId == old(nextActivityId)
      ensures nextOrganizationId == old(nextOrganizationId) && nextPhoneNumberId == old(nextPhoneNumberId)
      ensures old(ReferencesIntact()) ==> ReferencesIntact()
    {
      r := BuildingUpdateOutcome(buildings, id, u);
      if r.Done? {
        buildings := UpdateWhere(buildings, MatchKey(id), b => ApplyBuildingUpdate(b, u));
      }
    }

    /** ActivityRepository.update, with the same rules; `parent_id` may be set to null. */
    method UpdateActivity(id: Field<int>, u: ActivityUpdate) returns (r: Outcome)
      requires Valid()
      modifies this
      ensures Valid()
      ensures r == ActivityUpdateOutcome(old(activities), id, u)
      ensures activities == if r.Done? then UpdateWhere(old(activities), MatchKey(id), a => ApplyActivityUpdate(a, u)) else old(activities)
      ensures buildings == old(buildings) && organizations == old(organizations)
      ensures phoneNumbers == old(phoneNumbers) && organizationActivity == old(organizationActivity)
      ensures nextBuildingId == old(nextBuildingId) && nextActivityId == old(nextActivityId)
      ensures nextOrganizationId == old(nextOrganizationId) && nextPhoneNumberId == old(nextPhoneNumberId)
      ensures old(ReferencesIntact()) && (!u.parentId.Set? || u.parentId.value in old(activities)) ==> ReferencesIntact()
    {
      r := ActivityUpdateOutcome(activities, id, u);
      if r.Done? {
        activities := UpdateWhere(activities, MatchKey(id), a => ApplyActivityUpdate(a, u));
      }
    }

    /**
      OrganizationRepository.update, with the same rules; a body that sends phone_numbers or
      activity_ids names keys that are not columns and fails to compile.
    */
    method UpdateOrganization(id: Field<int>, u: OrganizationUpdate) returns (r: Outcome)
      requires Valid()
      modifies this
      ensures Valid()
      ensures r == OrganizationUpdateOutcome(old(organizations), id, u)
      ensures organizations == if r.Done? then UpdateWhere(old(organizations), MatchKey(id), o => ApplyOrganizationUpdate(o, u)) else old(organizations)
      ensures buildings == old(buildings) && activities == old(activities)
      ensures phoneNumbers == old(phoneNumbers) && organizationActivity == old(organizationActivity)
      ensures nextBuildingId == old(nextBuildingId) && nextActivityId == old(nextActivityId)
      ensures nextOrganizationId == old(nextOrganizationId) && nextPhoneNumberId == old(nextPhoneNumberId)
      ensures old(ReferencesIntact()) && (!u.buildingId.Set? || u.buildingId.value in old(buildings)) ==> ReferencesIntact()
    {
      r := OrganizationUpdateOutcome(organizations, id, u);
      if r.Done? {
        organizations := UpdateWhere(organizations, MatchKey(id), o => ApplyOrganizationUpdate(o, u));
      }
    }

    /**
      BuildingRepository.delete: when the building exists, the session deletes it; the flush
      would first null the building_id of the organizations it houses, so a building that
      houses any organization is refused with IntegrityError and nothing changes.
    */
    method DeleteBuilding(id: int) returns (r: Outcome)
      requires Valid()
      modifies this
      ensures Valid()
      ensures r == BuildingDeleteOutcome(old(buildings), old(organizations), id)
      ensures buildings == if r.Done? then old(buildings) - {id} else old(buildings)
      ensures activities == old(activities) && organizations == old(organizations)
      ensures phoneNumbers == old(phoneNumbers) && organizationActivity == old(organizationActivity)
      ensures nextBuildingId == old(nextBuildingId) && nextActivityId == old(nextActivityId)
      ensures nextOrganizationId == old(nextOrganizationId) && nextPhoneNumberId == old(nextPhoneNumberId)
      ensures old(ReferencesIntact()) ==> ReferencesIntact()
    {
      r := BuildingDeleteOutcome(buildings, organizations, id);
      if id in buildings && r.Done? {
        buildings := buildings - {id};
      }
    }

    /**
      ActivityRepository.delete: when the activity exists, the session deletes it and the
      flush sets the parent_id of its children to NULL; an absent id changes nothing.
    */
    method DeleteActivity(id: int)
      requires Valid()
      modifies this
      ensures Valid()
      ensures activities == if id in old(activities) then OrphanChildren(old(activities) - {id}, id) else old(activities)
      ensures buildings == old(buildings) && organizations == old(organizations)
      ensures phoneNumbers == old(phoneNumbers) && organizationActivity == old(organizationActivity)
      ensures nextBuildingId == old(nextBuildingId) && nextActivityId == old(nextActivityId)
      ensures nextOrganizationId == old(nextOrganizationId) && nextPhoneNumberId == old(nextPhoneNumberId)
      ensures old(ReferencesIntact()) && (forall p :: p in old(organizationActivity) ==> p.1 != id)
              ==> ReferencesIntact()
    {
      if id in activities {
        activities := OrphanChildren(activities - {id}, id);
      }
    }

    /**
      OrganizationRepository.delete: removes the organization, its phone numbers (the
      delete-orphan cascade) and its link rows; an absent id changes nothing.
    */
    method DeleteOrganization(id: int)
      requires Valid()
      modifies this
      ensures Valid()
      ensures organizations == old(organizations) - {id}
      ensures phoneNumbers == PhonesWithout(old(phoneNumbers), id)
      ensures organizationActivity == LinksWithout(old(organizationActivity), id)
      ensures id !in old(organizations) ==> phoneNumbers == old(phoneNumbers) && organizationActivity == old(organizationActivity)
      ensures buildings == old(buildings) && activities == old(activities)
      ensures nextBuildingId == old(nextBuildingId) && nextActivityId == old(nextActivityId)
      ensures nextOrganizationId == old(nextOrganizationId) && nextPhoneNumberId == old(nextPhoneNumberId)
      ensures old(ReferencesIntact()) ==> ReferencesIntact()
    {
      if id in organizations {
        organizations := organizations - {id};
        phoneNumbers := PhonesWithout(phoneNumbers, id);
        organizationActivity := LinksWithout(organizationActivity, id);
      } else {
        assert forall k :: k in phoneNumbers ==> phoneNumbers[k].organizationId != id;
        assert PhonesWithout(phoneNumbers, id).Keys == phoneNumbers.Keys;
        assert PhonesWithout(phoneNumbers, id) == phoneNumbers;
        assert LinksWithout(organizationActivity, id) == organizationActivity;
      }
    }
  }
}
