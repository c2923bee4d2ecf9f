# org-handbook-api in Dafny

A Dafny model of the core of org-handbook-api, a FastAPI/SQLAlchemy directory of
organizations, the buildings that house them, their phone numbers and a tree of
activities (lines of business). The model covers three parts of the service.

- **The repository layer.** Four tables (`Buildings`, `activities`, `Organizations`,
  `OrgPhoneNumbers`) and the `organization_activity` link table live in one
  `Repositories.Database` object. Each table is a map from primary key to row, and the
  link table is a set of (organization_id, activity_id) pairs. Queries are functions
  over that state: lookups, lookups with relations, full scans, the filters by
  building, box, radius, name and tree level, and the recursive activity query. Inserts,
  partial updates and deletes are methods that modify the state.
- **Activity descendants.** The recursive common table expression behind
  `get_by_activity` is the least fixpoint `Descendants.DescendantIds`. It is
  characterised both ways by chains of parent links whose later members have level
  below 3. `Descendants.Round` follows the query as written, round by round; its UNION ALL
  never ends when the start reaches, by a chain of that kind, a parent cycle whose
  members all have level below 3.
- **The route handlers.** Three modules, one per router. List handlers apply Python's
  slice semantics (`Http.PySlice`, negative indices included). Get handlers answer 404
  exactly when the row is missing. Update handlers check for existence and then call the
  repository. Delete handlers answer a fixed message, except that a building which still
  houses organizations cannot be deleted. The search handlers apply
  the query guards.
- **Configuration format detection.** The extension is lower-cased and stripped of
  leading dots. The pathlib suffix of the final path component is used when there is
  one; otherwise the whole file name is classified. An explicit format given to the
  reader wins over detection.

Modules: `Common` (Option, ASCII lower-casing, substrings), `Schema` (rows, create and
update bodies), `Tables` (ordered scans, `UPDATE ... WHERE id`), `Descendants`,
`Repositories`, `Http` (responses, slicing), `BuildingRoutes`, `ActivityRoutes`,
`OrganizationRoutes`, `ConfigLoader`.

The storage engine is SQLite without `PRAGMA foreign_keys`. Declared foreign keys are
therefore not enforced by writes, while NOT NULL is.

- `Database.Valid()` holds what every statement keeps. Keys equal row ids and lie below
  each table's next id. Every phone number and every link row belongs to an existing
  organization; the delete-orphan cascade and the removal of link rows keep this.
- `Database.ReferencesIntact()` is the declared foreign keys. Each statement states the
  condition under which it preserves them.

## Model

| member | source | states |
|---|---|---|
| ConfigLoader.LStripDots | orghandbookapi/config_loader.py:28 | `lstrip(".")` leaves a suffix of the input, removes only dots, and the rest does not start with a dot |
| ConfigLoader.DetectIgnoresLeadingDots | orghandbookapi/config_loader.py:28-36 | any number of leading dots in front of an extension does not change the detected format |
| ConfigLoader.DetectIgnoresCase | orghandbookapi/config_loader.py:28-36 | two extensions equal up to ASCII case give the same format |
| ConfigLoader.DetectByExtension | orghandbookapi/config_loader.py:17-36 | YAML exactly when the extension spells "yaml" or "yml" after dropping leading dots and ignoring case, TOML exactly for "toml", JSON for everything else (total) |
| ConfigLoader.PathName | orghandbookapi/config_loader.py:50 | pathlib's `name`: the final component, which never contains '/' and is never "." |
| ConfigLoader.Suffix | orghandbookapi/config_loader.py:50 | pathlib's `suffix`: empty, or a dot followed by at least one non-dot character, ending the name and shorter than it |
| ConfigLoader.DetectByFilename | orghandbookapi/config_loader.py:39-51 | the suffix of the final path component, without its dot, decides when there is one; with no suffix the whole file name, directories included, is classified |
| ConfigLoader.DetectByFilenameUsesLastSuffix | orghandbookapi/config_loader.py:50-51 | for `dir/stem.ext` only the last suffix counts: the format is the one `ext` alone gives |
| ConfigLoader.DirectoryDefeatsFallback | orghandbookapi/config_loader.py:50-51 | a suffix-less name under a directory, such as "dir/yml", always gives JSON |
| ConfigLoader.SelectConfigType | orghandbookapi/config_loader.py:68-71 | an explicit format is used as given; detection by file name only when none is given |
| Schema.NewBuilding | orghandbookapi/database/models/repositories.py:259-260 | a created building carries the given id and exactly the body's address and coordinates |
| Schema.NewActivity | orghandbookapi/database/models/activity.py:12-17 | a created activity carries the body's name and parent_id, and level 0 when the body leaves it out |
| Schema.MatchKey | orghandbookapi/database/models/repositories.py:94 | `WHERE id = <id>` selects the sent key; a null id selects no row |
| Schema.ApplyBuildingUpdate | orghandbookapi/database/models/repositories.py:249-253 | the id never changes and columns the body leaves out keep their values |
| Schema.ApplyActivityUpdate | orghandbookapi/database/models/repositories.py:301-305 | the id never changes, left-out columns keep their values, and a null parent_id clears the parent |
| Schema.ApplyOrganizationUpdate | orghandbookapi/database/models/repositories.py:91-95 | the id never changes and left-out columns keep their values |
| Schema.EmptyUpdatesAreIdentity | orghandbookapi/database/models/repositories.py:91-95 | a body that sends nothing leaves every row unchanged |
| Schema.UpdatesAreIdempotent | orghandbookapi/database/models/repositories.py:91-95 | applying the same body twice equals applying it once |
| Schema.SentValuesAreWritten | orghandbookapi/database/models/repositories.py:249-253 | with no null sent, every sent column holds the sent value afterwards |
| Tables.SortedKeys | orghandbookapi/database/models/repositories.py:266-268 | the table's keys, each once, strictly ascending |
| Tables.RowsAscending | orghandbookapi/database/models/repositories.py:266-268 | a full scan lists every row and nothing else, in strictly ascending key order, so each row once |
| Tables.UpdateWhere | orghandbookapi/database/models/repositories.py:250-254 | UPDATE ... WHERE id = key rewrites only the matching row and never adds or removes a row |
| Tables.UpdateWhereNoMatch | orghandbookapi/database/models/repositories.py:250-254 | an UPDATE whose key matches no row leaves the table unchanged |
| Tables.UpdateWhereIdempotent | orghandbookapi/database/models/repositories.py:250-254 | repeating an UPDATE with an idempotent rewrite has no further effect |
| Descendants.Step | orghandbookapi/database/models/repositories.py:137-141 | the recursive member admits exactly the activities whose parent is already collected and whose level is below 3 |
| Descendants.Saturate | orghandbookapi/database/models/repositories.py:131-143 | repeating the recursive member ends in a set that contains the seed, lies within the table and admits nothing more |
| Descendants.SaturateLeast | orghandbookapi/database/models/repositories.py:131-143 | that set is contained in every closed superset of the seed (least fixpoint) |
| Descendants.DescendantIds | orghandbookapi/database/models/repositories.py:131-135 | the start is collected exactly when it exists; an unknown start collects nothing |
| Descendants.DescendantIdsCharacterized | orghandbookapi/database/models/repositories.py:131-143 | an activity is collected exactly when a chain of parent links with levels below 3 reaches it from the start |
| Descendants.CollectedAreReached | orghandbookapi/database/models/repositories.py:131-143 | every collected activity is reached by such a chain |
| Descendants.ReachedAreCollected | orghandbookapi/database/models/repositories.py:131-143 | every activity such a chain reaches is collected |
| Descendants.Round | orghandbookapi/database/models/repositories.py:131-143 | the query as written, round by round: round 0 is the start row when it exists, and no row lies outside the table |
| Descendants.RoundsAreCollected | orghandbookapi/database/models/repositories.py:131-143 | every row of every round of the UNION ALL recursion is an id of the fixpoint |
| Descendants.ChainsAppearInRounds | orghandbookapi/database/models/repositories.py:137-141 | the end of a level-bounded chain of n + 1 activities appears in round n |
| Descendants.RoundsCoverDescendants | orghandbookapi/database/models/repositories.py:131-143 | an id is in the fixpoint exactly when some round holds it, so whenever the query as written ends it yields the fixpoint's ids |
| Descendants.SelfParentNeverStops | orghandbookapi/database/models/repositories.py:143 | started at an activity that is its own parent and has level below 3, that activity is in every round, so UNION ALL never reaches an empty round and the query does not end |
| Descendants.ReachableCycleNeverStops | orghandbookapi/database/models/repositories.py:131-143 | when a level-bounded chain from the start reaches an activity on a parent cycle whose members all have level below 3, every round is non-empty, so the UNION ALL recursion never ends |
| Descendants.CollectedBelowBound | orghandbookapi/database/models/repositories.py:137-141 | every collected activity other than the start has level below 3 and a collected parent, so nothing is reached through a level-3 activity |
| Repositories.NewPhones | orghandbookapi/database/models/organization.py:38-45 | one phone row per number, numbered consecutively from the next id, in order, all owned by the organization |
| Repositories.NewPhonesKeepRowsValid | orghandbookapi/database/models/organization.py:43-45 | numbering new phone rows from the next id keeps every phone row pointing at an existing organization and never overwrites an old row |
| Repositories.OrphanChildren | orghandbookapi/database/models/activity.py:22 | after the flush no row names the deleted activity as parent; its children lose only their parent_id and every other row is unchanged |
| Repositories.PhonesWithout | orghandbookapi/database/models/organization.py:24-26 | the delete-orphan cascade removes exactly the phone rows of the deleted organization |
| Repositories.LinksWithout | orghandbookapi/database/models/organization.py:6-13 | deleting an organization removes exactly its link rows |
| Repositories.SchemaBodiesAlwaysFail | orghandbookapi/database/models/repositories.py:94 | a body without `id`, which is every body the Update schemas produce, fails with KeyError whatever the tables hold |
| Repositories.UpdateWithIdSucceeds | orghandbookapi/database/models/repositories.py:89-97 | with an id, an update succeeds exactly when it sends no null into a NOT NULL column of a matched row and, for an organization, no phone_numbers or activity_ids |
| Repositories.Database.GetBuilding | orghandbookapi/database/models/repositories.py:224-227 | nothing exactly when no building has the id, else the building whose id it is |
| Repositories.Database.GetActivity | orghandbookapi/database/models/repositories.py:272-275 | nothing exactly when no activity has the id, else the activity whose id it is |
| Repositories.Database.GetOrganization | orghandbookapi/database/models/repositories.py:60-65 | nothing exactly when no organization has the id, else the organization whose id it is |
| Repositories.Database.GetBuildingWithRelations | orghandbookapi/database/models/repositories.py:229-238 | the building with exactly the organizations whose building_id is its id |
| Repositories.Database.GetActivityWithRelations | orghandbookapi/database/models/repositories.py:277-290 | the activity with exactly the activities whose parent_id is its id as children, and exactly the organizations linked to it |
| Repositories.Database.GetOrganizationWithRelations | orghandbookapi/database/models/repositories.py:67-80 | the organization with exactly its phone numbers and exactly the activities it is linked to |
| Repositories.Database.AllBuildings | orghandbookapi/database/models/repositories.py:265-268 | every building, nothing else, each once, in ascending id order |
| Repositories.Database.AllActivities | orghandbookapi/database/models/repositories.py:317-320 | every activity, nothing else, each once, in ascending id order |
| Repositories.Database.AllOrganizations | orghandbookapi/database/models/repositories.py:107-110 | every organization, nothing else, each once, in ascending id order |
| Repositories.Database.GetByBuilding | orghandbookapi/database/models/repositories.py:112-125 | exactly the organizations whose building_id is the given one |
| Repositories.Database.GetByActivity | orghandbookapi/database/models/repositories.py:127-155 | exactly the organizations linked to an activity that a chain of level-bounded parent links reaches from the start; nothing for an unknown start |
| Repositories.Database.GetInRectangularArea | orghandbookapi/database/models/repositories.py:198-220 | exactly the organizations whose existing building lies in the closed latitude/longitude box |
| Repositories.Database.GetInRadius | orghandbookapi/database/models/repositories.py:172-196 | exactly the organizations whose existing building is within the radius, by the given distance function |
| Repositories.Database.SearchByName | orghandbookapi/database/models/repositories.py:157-170 | as written, the query names a column the class lacks and always fails with AttributeError |
| Repositories.Database.SearchByLegalName | orghandbookapi/database/models/repositories.py:157-170 | exactly the organizations whose legal name contains the search term, ignoring ASCII case |
| Repositories.Database.GetTree | orghandbookapi/database/models/repositories.py:322-334 | exactly the activities whose parent_id equals the argument; null selects the roots |
| Repositories.Database.ChildrenMatchParent | orghandbookapi/database/models/activity.py:19-22 | c is among p's children exactly when c's parent is p |
| Repositories.Database.ActivitiesMatchOrganizations | orghandbookapi/database/models/organization.py:27-29 | an activity is among an organization's activities exactly when the organization is among that activity's organizations |
| Repositories.Database.OrganizationsMatchBuilding | orghandbookapi/database/models/organization.py:21-23 | an organization is among a building's organizations exactly when its loaded building is that building |
| Repositories.Database.ByBuildingIsBuildingView | orghandbookapi/database/models/repositories.py:112-125 | get_by_building returns what get_with_relations loads as the building's organizations |
| Repositories.Database.PhoneBelongsToOneOrganization | orghandbookapi/database/models/organization.py:43-47 | each phone number appears under its own organization and under no other |
| Repositories.Database.ByActivityFindsDirectLinks | orghandbookapi/database/models/repositories.py:131-135 | an organization linked to the start activity is found, whatever the start's level |
| Repositories.Database.ByActivityFindsShallowChildren | orghandbookapi/database/models/repositories.py:137-141 | an organization linked to a child of level below 3 is found under the parent |
| Repositories.Database.ByActivityStopsAtLevelBound | orghandbookapi/database/models/repositories.py:137-153 | whatever is found is linked to the start or to a collected activity of level below 3 whose parent is collected |
| Repositories.Database.AreaIsUnionOfBuildings | orghandbookapi/database/models/repositories.py:214-218 | the area query is the union of get_by_building over the buildings inside the box |
| Repositories.Database.InvertedAreaIsEmpty | orghandbookapi/database/models/repositories.py:215-218 | a box with min above max on either axis finds nothing |
| Repositories.Database.RadiusIsMonotone | orghandbookapi/database/models/repositories.py:194 | a larger radius finds every organization a smaller one finds |
| Repositories.Database.LongerNameNarrowsSearch | orghandbookapi/database/models/repositories.py:168 | a search term that contains another finds a subset of what the shorter one finds |
| Repositories.Database.TreeIsChildren | orghandbookapi/database/models/repositories.py:331-333 | get_tree(p) for an existing p equals the children get_with_relations loads |
| Repositories.Database.TreeIsOneLevel | orghandbookapi/database/models/repositories.py:326-334 | each activity is listed under its own parent_id and no other, so grandchildren never appear |
| Repositories.Database.TreeOfUnknownParentIsEmpty | orghandbookapi/database/models/repositories.py:331-333 | with the foreign keys intact, an id naming no activity has no children |
| Repositories.Database.CreateBuilding | orghandbookapi/database/models/repositories.py:257-263 | adds exactly one building with a fresh id and the body's fields, returns it, changes nothing else, and get then finds it |
| Repositories.Database.CreateActivity | orghandbookapi/database/models/repositories.py:309-315 | adds exactly one activity with a fresh id, the body's fields and level 0 by default, returns it and changes nothing else |
| Repositories.Database.CreateOrganization | orghandbookapi/database/models/repositories.py:99-105 | as written, every call raises TypeError and adds nothing |
| Repositories.Database.CreateOrganizationIntended | orghandbookapi/database/models/repositories.py:99-105 | adds the organization with a fresh id, one phone row per number in order, and a link to each listed existing activity |
| Repositories.Database.AddPhoneNumbers | orghandbookapi/database/models/organization.py:24-26 | inserts one phone row per number with consecutive fresh ids and touches no other table |
| Repositories.Database.UpdateBuilding | orghandbookapi/database/models/repositories.py:247-255 | no id gives KeyError; a null for a NOT NULL column of the matched row gives IntegrityError and no change; otherwise only the matched row takes the sent columns, and no match changes nothing |
| Repositories.Database.UpdateActivity | orghandbookapi/database/models/repositories.py:299-307 | the same rules for activities; a null parent_id is allowed |
| Repositories.Database.UpdateOrganization | orghandbookapi/database/models/repositories.py:89-97 | the same rules; sending phone_numbers or activity_ids fails to compile and changes nothing |
| Repositories.Database.DeleteBuilding | orghandbookapi/database/models/repositories.py:240-245 | IntegrityError and no change when the building houses an organization (the flush would null their NOT NULL building_id); otherwise removes exactly that building if present; the foreign keys stay intact either way |
| Repositories.Database.DeleteActivity | orghandbookapi/database/models/repositories.py:292-297 | removes exactly that activity if present and sets its children's parent_id to null; an absent id changes nothing |
| Repositories.Database.DeleteOrganization | orghandbookapi/database/models/repositories.py:82-87 | removes the organization, all its phone numbers and its link rows; an absent id changes nothing |
| Http.ClampIndex | orghandbookapi/routers/v1/building.py:35 | a slice bound counts from the end when negative and is clipped to the list |
| Http.PySlice | orghandbookapi/routers/v1/building.py:35 | Python's `xs[start:stop]` never fails and is never longer than the list |
| Http.Window | orghandbookapi/routers/v1/building.py:35 | a page holds at most `limit` consecutive items from position `skip`, and none past the end |
| Http.PySliceIsWindow | orghandbookapi/routers/v1/organization.py:35 | for non-negative skip and limit, `xs[skip:skip + limit]` is exactly that page |
| Http.PySliceIsRun | orghandbookapi/routers/v1/activity.py:22 | any slice is a run of consecutive items from the resolved start, so it holds only list items in list order |
| Http.NegativeSkipTakesTail | orghandbookapi/routers/v1/activity.py:22 | a negative skip -m with a long enough limit gives the last m items |
| BuildingRoutes.ListBuildings | orghandbookapi/routers/v1/building.py:34-35 | the page of the ascending scan at skip/limit, empty once skip reaches the count, holding only buildings |
| BuildingRoutes.GetBuilding | orghandbookapi/routers/v1/building.py:57-60 | 404 "Building not found" exactly when the building does not exist, else the building with its organizations |
| BuildingRoutes.UpdateBuilding | orghandbookapi/routers/v1/building.py:103-107 | 404 for an absent building; for an existing one, KeyError, because only the body is forwarded; the store never changes |
| BuildingRoutes.UpdateBuildingIntended | orghandbookapi/routers/v1/building.py:103-107 | 404 for an absent building; IntegrityError and no change for a null column; otherwise the updated building, and only that row changes |
| BuildingRoutes.DeleteBuilding | orghandbookapi/routers/v1/building.py:126-127 | "Building deleted" exactly when the building is absent or houses no organization, and then it is gone; otherwise IntegrityError (a 500) and no change; nothing else changes |
| ActivityRoutes.ListActivities | orghandbookapi/routers/v1/activity.py:21-22 | the page of the ascending scan at skip/limit, empty once skip reaches the count |
| ActivityRoutes.GetActivity | orghandbookapi/routers/v1/activity.py:27-30 | 404 "Activity not found" exactly when the activity does not exist, else the activity with its children |
| ActivityRoutes.UpdateActivity | orghandbookapi/routers/v1/activity.py:46-50 | 404 for an absent activity; for an existing one, KeyError; the store never changes |
| ActivityRoutes.UpdateActivityIntended | orghandbookapi/routers/v1/activity.py:46-50 | 404 for an absent activity; IntegrityError and no change for a null name or level; otherwise the updated activity |
| ActivityRoutes.DeleteActivity | orghandbookapi/routers/v1/activity.py:57-58 | always "Activity deleted"; the activity is gone, its children become roots, and every other row and table is unchanged |
| ActivityRoutes.ActivityTree | orghandbookapi/routers/v1/activity.py:61-65 | exactly the activities whose parent_id is the path id, which are the children get_activity loads |
| OrganizationRoutes.ListOrganizations | orghandbookapi/routers/v1/organization.py:34-35 | the page of the ascending scan at skip/limit, empty once skip reaches the count |
| OrganizationRoutes.GetOrganization | orghandbookapi/routers/v1/organization.py:59-65 | 404 "Organization not found" exactly when the organization does not exist, else it with exactly its phone numbers and, with foreign keys intact, its building |
| OrganizationRoutes.UpdateOrganization | orghandbookapi/routers/v1/organization.py:108-112 | 404 for an absent organization; for an existing one, KeyError; the store never changes |
| OrganizationRoutes.UpdateOrganizationIntended | orghandbookapi/routers/v1/organization.py:108-112 | 404 for an absent organization; CompileError for phone_numbers/activity_ids; IntegrityError for a null column; otherwise the updated organization |
| OrganizationRoutes.DeleteOrganization | orghandbookapi/routers/v1/organization.py:131-132 | always "Organization deleted"; afterwards no phone number belongs to that id |
| OrganizationRoutes.OrganizationsByBuilding | orghandbookapi/routers/v1/organization.py:153 | exactly the organizations in the building, the same set get_building loads |
| OrganizationRoutes.OrganizationsByActivity | orghandbookapi/routers/v1/organization.py:174 | exactly the organizations linked to an activity reachable from the start by level-bounded parent links |
| OrganizationRoutes.SearchByName | orghandbookapi/routers/v1/organization.py:180-195 | an empty name gives 422; any other name ends in AttributeError |
| OrganizationRoutes.SearchByNameIntended | orghandbookapi/routers/v1/organization.py:180-195 | 422 exactly for an empty name, else the organizations whose legal name contains it, ignoring ASCII case |
| OrganizationRoutes.OrganizationsInRadius | orghandbookapi/routers/v1/organization.py:201-220 | 422 exactly when the radius is not positive, else the organizations within the radius |
| OrganizationRoutes.OrganizationsInArea | orghandbookapi/routers/v1/organization.py:226-249 | the organizations whose building lies in the closed box; nothing when min exceeds max |

## Left out

- Repositories.Database.GetInRadius: the great-circle distance (acos, sin, cos and radians, evaluated by the database) is the parameter `distanceKm`. Floating-point trigonometry is not modelled.
- Coordinates are `real`. Floating-point rounding and NaN are not modelled; coordinates are only compared.
- Repositories.Database.CreateBuilding: new ids come from a per-table counter that never reuses a key. SQLite picks max(rowid)+1, which reuses the id of a deleted highest row.
- Repositories.Database.AllBuildings: the queries have no ORDER BY. Ascending id order is the model's choice (SQLite's rowid scan order); only "every row once" is guaranteed by the source. The same applies to AllActivities and AllOrganizations.
- Repositories.Database.GetByActivity: returns the least fixpoint of the recursion. The query as written uses UNION ALL and never ends when the start reaches a parent cycle of activities below level 3 through a level-bounded chain (see Findings); `Descendants.ReachableCycleNeverStops` states that divergence.
- Descendants.DescendantIds: the fixpoint is what the recursion would give with UNION. On a parent cycle below level 3 that the start reaches this way, the program does not answer at all.
- OrganizationRoutes.OrganizationsByActivity: answers for every start, while the program's request never completes when the start reaches such a parent cycle.
- Repositories.Database.GetByActivity: the result is a set. The SQL join can return an organization once per matching link row.
- Foreign keys are not enforced by SQLite here. `ReferencesIntact` is therefore conditional: each statement keeps it only under the condition it states.
- Repositories.Database.DeleteActivity: the link rows of a deleted activity are left in place, because the `organizations` relationship in activity.py:23-25 names no link table. What the ORM would do with them is not modelled.
- Repositories.Database.DeleteBuilding: the model refuses the delete up front when the building houses an organization. The program instead issues the nulling UPDATE, fails on the NOT NULL column and rolls back, and the store ends the same.
- The `organizations` relationship in activity.py:23-25 declares no `secondary` table. The model reads an activity's organizations from the link table, as the organization side declares.
- Repositories.Database.UpdateBuilding: a body that sends no column at all is treated as changing nothing. SQLAlchemy's handling of an empty SET is not modelled. The same applies to UpdateActivity and UpdateOrganization.
- Repositories.Database.SearchByLegalName: `%` and `_` inside the search term act as LIKE wildcards in SQL, and the model treats them as literal characters. Case folding is ASCII only, as in SQLite.
- ConfigLoader.DetectByExtension folds only ASCII letters, while Python's `str.lower` also folds other letters. None of the recognised extensions is affected.
- Paths follow POSIX pathlib rules. Windows separators and drive letters are not modelled.
- Eager loading (`selectinload`), sessions, flush, commit and refresh, and async execution are not modelled. So is the serialisation of `ActivityTree` children beyond one level.
- The create handlers are one-line forwards to the repository `create` and are not modelled separately.
- The response validation of a view whose building is missing (foreign key broken) is not modelled.
- Left out as I/O or wiring: the configuration file loading and parsing (`_load_data_from_config`, loader.py), the CLI and HTTP client in main.py, application setup and the API-key check in app.py, and the engine and session plumbing in database.py and dependencies.py.

## Findings

| source | as written | input that shows it | evidently intended | confidence | as-written member | corrected member |
|---|---|---|---|---|---|---|
| orghandbookapi/database/models/repositories.py:101-102 | the whole create body, including phone_numbers and activity_ids, is passed to the Organization constructor, which has no such columns | any body, e.g. legal_name "A", building_id 1, phone_numbers [], activity_ids []: TypeError, nothing stored | insert the organization, one phone row per number, and links to the listed activities | not executed | Repositories.Database.CreateOrganization | Repositories.Database.CreateOrganizationIntended |
| orghandbookapi/routers/v1/building.py:107 | the handler forwards only the body; the repository reads `update_data["id"]`, which BuildingUpdate never contains; the handler would also return None against a Building response model | PUT on an existing building 1 with address "x": KeyError (500), nothing updated | the path id selects the row and the updated building is returned | not executed | BuildingRoutes.UpdateBuilding | BuildingRoutes.UpdateBuildingIntended |
| orghandbookapi/routers/v1/activity.py:50 | the same for activities | PUT on an existing activity 1 with name "x": KeyError (500), nothing updated | the path id selects the row and the updated activity is returned | not executed | ActivityRoutes.UpdateActivity | ActivityRoutes.UpdateActivityIntended |
| orghandbookapi/routers/v1/organization.py:112 | the same for organizations | PUT on an existing organization 1 with legal_name "x": KeyError (500), nothing updated | the path id selects the row and the updated organization is returned | not executed | OrganizationRoutes.UpdateOrganization | OrganizationRoutes.UpdateOrganizationIntended |
| orghandbookapi/database/models/repositories.py:168 | the filter uses `Organization.name`, but the column is `legal_name` | search name "a": AttributeError (500) | case-insensitive substring match on legal_name | not executed | Repositories.Database.SearchByName | Repositories.Database.SearchByLegalName |
| orghandbookapi/database/models/repositories.py:143 | the recursive CTE uses UNION ALL, so rows already produced are produced again, and SQLite stops only at an empty round | activity 5 with parent_id 5 and level 0 (accepted by create, since the foreign key is not enforced); GET /organizations/activity/5 never completes | UNION, which stops once a round adds no new id and yields the activities reachable from the start | not executed | Descendants.SelfParentNeverStops | Descendants.DescendantIds |
