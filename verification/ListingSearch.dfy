/** Answering one search: which query answers it, and how the listings of a page are loaded. */
module ListingSearch {
  import opened Common
  import opened Inventory
  import opened ListingQuery
  import opened ListingFeed
  import opened ListingFilters

  datatype Item =
    | PropertyItem(property: Property)
    | ProjectItem(project: Project, units: seq<Unit>)

  datatype Answer =
    | Elsewhere
    | Found(items: seq<Item>, total: nat, page: nat, limit: nat)

  function KeyOf(item: Item): Key {
    match item
    case PropertyItem(p) => Key(PropertyKind, p.id)
    case ProjectItem(p, _) => Key(ProjectKind, p.id)
  }

  /** The card of a project shows those of its units that are on offer. */
  function Offers(q: Query, p: Project, units: seq<Unit>): seq<Unit> {
    if units == [] then []
    else (if OnOffer(q, p, units[0]) then [units[0]] else []) + Offers(q, p, units[1..])
  }

  /** Loading joins the matching units only, and all of those are on offer. */
  lemma {:induction false} CardShowsMatchingUnits(q: Query, p: Project, units: seq<Unit>)
    ensures Offers(q, p, UnitsThatMatch(q, p, units)) == UnitsThatMatch(q, p, units)
  {
    if units != [] {
      CardShowsMatchingUnits(q, p, units[1..]);
      var rest := UnitsThatMatch(q, p, units[1..]);
      if UnitRowMatches(q, UnitRow(p, units[0])) {
        assert UnitsThatMatch(q, p, units) == [units[0]] + rest && ([units[0]] + rest)[1..] == rest;
      } else {
        assert UnitsThatMatch(q, p, units) == rest;
      }
    }
  }

  function Card(q: Query, p: Project): Item {
    ProjectItem(p, Offers(q, p, MatchingUnits(q, p)))
  }

  // ----- Loading by key -----

  function LoadProperty(q: Query, properties: seq<Property>, id: Id): Option<Item> {
    if properties == [] then None
    else if properties[0].id == id && PropertyMatches(q, properties[0]) then Some(PropertyItem(properties[0]))
    else LoadProperty(q, properties[1..], id)
  }

  function LoadProject(q: Query, projects: seq<Project>, id: Id): Option<Item> {
    if projects == [] then None
    else if projects[0].id == id && MatchingUnits(q, projects[0]) != [] then Some(Card(q, projects[0]))
    else LoadProject(q, projects[1..], id)
  }

  function Load(q: Query, db: Database, key: Key): Option<Item> {
    match key.kind
    case PropertyKind => LoadProperty(q, db.properties, key.id)
    case ProjectKind => LoadProject(q, db.projects, key.id)
  }

  function LoadAll(q: Query, db: Database, keys: seq<Key>): seq<Item> {
    if keys == [] then []
    else (match Load(q, db, keys[0]) case Some(item) => [item] case None => []) + LoadAll(q, db, keys[1..])
  }

  function KeysOf(listings: seq<Listing>): seq<Key> {
    seq(|listings|, i requires 0 <= i < |listings| => listings[i].key)
  }

  function PageKeys(q: Query, db: Database): seq<Key>
    requires q.page > 0
  {
    KeysOf(Page(Feed(q, db), q.page, q.limit))
  }

  lemma {:induction false} PropertyLoads(q: Query, properties: seq<Property>, p: Property)
    requires forall i, j | 0 <= i < j < |properties| :: properties[i].id != properties[j].id
    requires p in properties && PropertyMatches(q, p)
    ensures LoadProperty(q, properties, p.id) == Some(PropertyItem(p))
  {
    assert properties == [properties[0]] + properties[1..];
    if properties[0] != p {
      var j :| 0 <= j < |properties| && properties[j] == p;
      PropertyLoads(q, properties[1..], p);
    }
  }

  lemma {:induction false} ProjectLoads(q: Query, projects: seq<Project>, p: Project)
    requires DistinctProjects(projects) && p in projects && MatchingUnits(q, p) != []
    ensures LoadProject(q, projects, p.id) == Some(Card(q, p))
  {
    assert projects == [projects[0]] + projects[1..];
    if projects[0] != p {
      var j :| 0 <= j < |projects| && projects[j] == p;
      ProjectLoads(q, projects[1..], p);
    }
  }

  lemma {:induction false} LoadedProperty(q: Query, properties: seq<Property>, id: Id)
    ensures match LoadProperty(q, properties, id)
            case Some(item) => item.PropertyItem? && item.property in properties && item.property.id == id
                               && PropertyMatches(q, item.property)
            case None => forall p | p in properties && p.id == id :: !PropertyMatches(q, p)
  {
    if properties != [] {
      LoadedProperty(q, properties[1..], id);
      assert properties == [properties[0]] + properties[1..];
    }
  }

  lemma {:induction false} LoadedProject(q: Query, projects: seq<Project>, id: Id)
    ensures match LoadProject(q, projects, id)
            case Some(item) => item.ProjectItem? && item.project in projects && item.project.id == id
                               && item.units == MatchingUnits(q, item.project) != []
            case None => forall p | p in projects && p.id == id :: MatchingUnits(q, p) == []
  {
    if projects != [] {
      LoadedProject(q, projects[1..], id);
      assert projects == [projects[0]] + projects[1..];
      CardShowsMatchingUnits(q, projects[0], projects[0].units);
    }
  }

  lemma LoadHasKey(q: Query, db: Database, key: Key)
    ensures Load(q, db, key).Some? ==> KeyOf(Load(q, db, key).value) == key
  {
    match key.kind
    case PropertyKind => LoadedProperty(q, db.properties, key.id);
    case ProjectKind => LoadedProject(q, db.projects, key.id);
  }

  /** Every listing of the feed can be loaded from the tables it was computed from. */
  lemma ListingLoads(q: Query, db: Database, l: Listing)
    requires DistinctIds(db) && Belongs(q, db, l)
    ensures Load(q, db, l.key).Some?
  {
    if p :| p in db.properties && PropertyMatches(q, p) && l == PropertyListing(q, p) {
      PropertyLoads(q, db.properties, p);
    } else {
      var p :| p in db.projects && MatchingUnits(q, p) != [] && l == ProjectListing(q, p);
      ProjectLoads(q, db.projects, p);
    }
  }

  function ItemKeys(items: seq<Item>): seq<Key> {
    seq(|items|, i requires 0 <= i < |items| => KeyOf(items[i]))
  }

  /** The keys that the tables still know, in the same order. */
  function StillThere(q: Query, db: Database, keys: seq<Key>): seq<Key> {
    if keys == [] then []
    else (if Load(q, db, keys[0]).Some? then [keys[0]] else []) + StillThere(q, db, keys[1..])
  }

  lemma {:induction false} LoadingKeepsOrder(q: Query, db: Database, keys: seq<Key>)
    ensures ItemKeys(LoadAll(q, db, keys)) == StillThere(q, db, keys)
  {
    if keys != [] {
      LoadingKeepsOrder(q, db, keys[1..]);
      LoadHasKey(q, db, keys[0]);
      var rest := LoadAll(q, db, keys[1..]);
      var first := Load(q, db, keys[0]);
      if first.Some? {
        assert LoadAll(q, db, keys) == [first.value] + rest;
        assert ItemKeys([first.value] + rest) == [keys[0]] + ItemKeys(rest);
      } else {
        assert LoadAll(q, db, keys) == rest;
      }
    }
  }

  lemma {:induction false} StillThereLength(q: Query, db: Database, keys: seq<Key>)
    ensures |StillThere(q, db, keys)| <= |keys|
    ensures StillThere(q, db, keys) == keys <==> forall key | key in keys :: Load(q, db, key).Some?
  {
    if keys != [] {
      StillThereLength(q, db, keys[1..]);
      assert keys == [keys[0]] + keys[1..];
    }
  }

  /**
   The loaded page follows the keys; it drops a listing exactly when that one stopped matching
   between the two queries, so over unchanged tables it drops and reorders nothing.
   */
  lemma PageIsComplete(q: Query, db: Database, later: Database)
    requires DistinctIds(db) && q.page > 0
    ensures var keys := PageKeys(q, db); var shown := ItemKeys(LoadAll(q, later, keys));
            && shown == StillThere(q, later, keys)
            && (shown == keys <==> forall key | key in keys :: Load(q, later, key).Some?)
            && (later == db ==> shown == keys)
  {
    LoadingKeepsOrder(q, later, PageKeys(q, db));
    StillThereLength(q, later, PageKeys(q, db));
    if later == db {
      PageLoads(q, db);
    }
  }

  lemma PageLoads(q: Query, db: Database)
    requires DistinctIds(db) && q.page > 0
    ensures forall key | key in PageKeys(q, db) :: Load(q, db, key).Some?
  {
    var feed := Feed(q, db);
    var page := Page(feed, q.page, q.limit);
    forall key | key in KeysOf(page) ensures Load(q, db, key).Some? {
      var i :| 0 <= i < |page| && KeysOf(page)[i] == key;
      PageIsPart(feed, q.page, q.limit, page[i]);
      FeedMembers(q, db, page[i]);
      ListingLoads(q, db, page[i]);
    }
  }

  lemma PageIsPart<T>(all: seq<T>, page: nat, limit: nat, x: T)
    requires page > 0 && x in Page(all, page, limit)
    ensures x in all
  {}

  // ----- The search -----

  /** TypeORM's answer to the second property query: the rows of these ids that still match. */
  function PropertiesOf(q: Query, properties: seq<Property>, ids: set<Id>): seq<Property> {
    if properties == [] then []
    else
      (if properties[0].id in ids && PropertyMatches(q, properties[0]) then [properties[0]] else [])
      + PropertiesOf(q, properties[1..], ids)
  }

  function ProjectsOf(q: Query, projects: seq<Project>, ids: set<Id>): seq<Project> {
    if projects == [] then []
    else
      (if projects[0].id in ids && MatchingUnits(q, projects[0]) != [] then [projects[0]] else [])
      + ProjectsOf(q, projects[1..], ids)
  }

  lemma {:induction false} PropertiesOfAre(q: Query, properties: seq<Property>, ids: set<Id>)
    ensures forall p :: p in PropertiesOf(q, properties, ids) <==> p in properties && p.id in ids && PropertyMatches(q, p)
  {
    if properties != [] {
      PropertiesOfAre(q, properties[1..], ids);
      assert properties == [properties[0]] + properties[1..];
    }
  }

  lemma {:induction false} ProjectsOfAre(q: Query, projects: seq<Project>, ids: set<Id>)
    ensures forall p :: p in ProjectsOf(q, projects, ids) <==> p in projects && p.id in ids && MatchingUnits(q, p) != []
  {
    if projects != [] {
      ProjectsOfAre(q, projects[1..], ids);
      assert projects == [projects[0]] + projects[1..];
    }
  }

  function IdsOf(keys: seq<Key>, kind: Kind): set<Id> {
    set i | 0 <= i < |keys| && keys[i].kind == kind :: keys[i].id
  }

  ghost predicate Holds(q: Query, db: Database, items: map<Key, Item>) {
    forall key | key in items :: Load(q, db, key) == Some(items[key])
  }

  method AddProperties(q: Query, db: Database, properties: seq<Property>) returns (items: map<Key, Item>)
    requires DistinctIds(db) && forall p | p in properties :: p in db.properties && PropertyMatches(q, p)
    ensures Holds(q, db, items)
    ensures forall p | p in properties :: Key(PropertyKind, p.id) in items
  {
    items := map[];
    for i := 0 to |properties|
      invariant Holds(q, db, items)
      invariant forall j | 0 <= j < i :: Key(PropertyKind, properties[j].id) in items
    {
      assert properties[i] in properties;
      PropertyLoads(q, db.properties, properties[i]);
      items := items[Key(PropertyKind, properties[i].id) := PropertyItem(properties[i])];
    }
  }

  method AddProjects(q: Query, db: Database, projects: seq<Project>, before: map<Key, Item>)
    returns (items: map<Key, Item>)
    requires DistinctIds(db) && forall p | p in projects :: p in db.projects && MatchingUnits(q, p) != []
    requires Holds(q, db, before)
    ensures Holds(q, db, items) && before.Keys <= items.Keys
    ensures forall p | p in projects :: Key(ProjectKind, p.id) in items
  {
    items := before;
    for i := 0 to |projects|
      invariant Holds(q, db, items) && before.Keys <= items.Keys
      invariant forall j | 0 <= j < i :: Key(ProjectKind, projects[j].id) in items
    {
      assert projects[i] in projects;
      ProjectLoads(q, db.projects, projects[i]);
      items := items[Key(ProjectKind, projects[i].id) := Card(q, projects[i])];
    }
  }

  method LoadItems(q: Query, db: Database, keys: seq<Key>) returns (items: map<Key, Item>)
    requires DistinctIds(db)
    ensures Holds(q, db, items)
    ensures forall key | key in keys && Load(q, db, key).Some? :: key in items
  {
    var propertyIds, projectIds := IdsOf(keys, PropertyKind), IdsOf(keys, ProjectKind);
    PropertiesOfAre(q, db.properties, propertyIds);
    ProjectsOfAre(q, db.projects, projectIds);
    items := AddProperties(q, db, PropertiesOf(q, db.properties, propertyIds));
    items := AddProjects(q, db, ProjectsOf(q, db.projects, projectIds), items);
    forall key | key in keys && Load(q, db, key).Some? ensures key in items {
      KeyIsFetched(q, db, keys, key);
    }
  }

  /** Whatever can be loaded for a key is among the rows fetched for the page. */
  lemma KeyIsFetched(q: Query, db: Database, keys: seq<Key>, key: Key)
    requires key in keys && Load(q, db, key).Some?
    ensures key.kind == PropertyKind ==>
              var fetched := PropertiesOf(q, db.properties, IdsOf(keys, PropertyKind));
              exists p | p in fetched :: p.id == key.id
    ensures key.kind == ProjectKind ==>
              var fetched := ProjectsOf(q, db.projects, IdsOf(keys, ProjectKind));
              exists p | p in fetched :: p.id == key.id
  {
    match key.kind
    case PropertyKind =>
      var ids := IdsOf(keys, PropertyKind);
      LoadedProperty(q, db.properties, key.id);
      PropertiesOfAre(q, db.properties, ids);
      var p := LoadProperty(q, db.properties, key.id).value.property;
      var fetched := PropertiesOf(q, db.properties, ids);
      assert p in fetched && p.id == key.id;
    case ProjectKind =>
      var ids := IdsOf(keys, ProjectKind);
      LoadedProject(q, db.projects, key.id);
      ProjectsOfAre(q, db.projects, ids);
      var p := LoadProject(q, db.projects, key.id).value.project;
      var fetched := ProjectsOf(q, db.projects, ids);
      assert p in fetched && p.id == key.id;
  }

  function PickAll(items: map<Key, Item>, keys: seq<Key>): seq<Item> {
    if keys == [] then []
    else (if keys[0] in items then [items[keys[0]]] else []) + PickAll(items, keys[1..])
  }

  lemma {:induction false} PickedAreLoaded(q: Query, db: Database, items: map<Key, Item>, keys: seq<Key>)
    requires Holds(q, db, items) && forall key | key in keys && Load(q, db, key).Some? :: key in items
    ensures PickAll(items, keys) == LoadAll(q, db, keys)
  {
    if keys != [] {
      assert keys[0] in keys;
      PickedAreLoaded(q, db, items, keys[1..]);
    }
  }

  /** `db` is what the key and count queries see, `later` what the loading queries see. */
  method Search(q: Query, db: Database, later: Database) returns (answer: Answer)
    requires DistinctIds(later) && q.page > 0
    ensures answer == if q.propertyType !in {"", "apartment", "villa", "plot"} then Elsewhere
                      else Found(LoadAll(q, later, PageKeys(q, db)), |Feed(q, db)|, q.page, q.limit)
  {
    if q.propertyType != "" && q.propertyType !in PROJECT_TYPES {
      return Elsewhere;
    }
    var keys := PageKeys(q, db);
    var items := LoadItems(q, later, keys);
    PickedAreLoaded(q, later, items, keys);
    return Found(PickAll(items, keys), |Union(q, db)|, q.page, q.limit);
  }

  // ----- The search through the index -----

  /** A hit of the index is checked against the tables again. */
  predicate HitMatches(q: Query, p: Property) {
    PublicProperty(p) && exists row | row in JoinRows(p) :: PassesFilters(q, row)
  }

  /** A hit may be shown: its property is public and offers what was asked for, where it was asked for. */
  ghost predicate MayBeShown(q: Query, p: Property) {
    && p.status in {Available, Sold, Rented} && p.approval == "Approved"
    && PropertyOffers(q, p) && AtPlaces(q, p.city, LocalitiesOf(p))
  }

  lemma HitMatchesIff(q: Query, p: Property)
    ensures HitMatches(q, p) <==> MayBeShown(q, p)
  {
    SomePlace(q, p.city, LocalitiesOf(p));
    forall l ensures PassesFilters(q, PropertyRow(p, l)) <==> PropertyOffers(q, p) && AtPlaces(q, p.city, [l]) {
      PassesIff(q, p, l);
    }
    if row :| row in JoinRows(p) && PassesFilters(q, row) {
      JoinRowsAre(p, row);
      assert row == PropertyRow(p, row.locality);
    }
    if locality :| locality in LocalitiesOf(p) && AtPlaces(q, p.city, [locality]) {
      JoinRowsAre(p, PropertyRow(p, locality));
    }
  }

  function HitsOf(q: Query, properties: seq<Property>, ids: seq<Id>): seq<Property> {
    if properties == [] then []
    else
      (if properties[0].id in ids && HitMatches(q, properties[0]) then [properties[0]] else [])
      + HitsOf(q, properties[1..], ids)
  }

  lemma {:induction false} HitsOfAre(q: Query, properties: seq<Property>, ids: seq<Id>, p: Property)
    ensures p in HitsOf(q, properties, ids) <==> p in properties && p.id in ids && HitMatches(q, p)
  {
    if properties != [] {
      HitsOfAre(q, properties[1..], ids, p);
      assert properties == [properties[0]] + properties[1..];
    }
  }

  /** The row behind a hit, if it passes. */
  function HitOf(properties: seq<Property>, id: Id): Option<Property> {
    if properties == [] then None
    else if properties[0].id == id then Some(properties[0])
    else HitOf(properties[1..], id)
  }

  function Ranked(properties: seq<Property>, ids: seq<Id>): seq<Property> {
    if ids == [] then []
    else (match HitOf(properties, ids[0]) case Some(p) => [p] case None => []) + Ranked(properties, ids[1..])
  }

  function SearchIndexed(q: Query, db: Database, ids: seq<Id>): seq<Property> {
    Ranked(HitsOf(q, db.properties, ids), ids)
  }

  lemma {:induction false} HitOfIs(properties: seq<Property>, id: Id)
    ensures match HitOf(properties, id)
            case Some(p) => p in properties && p.id == id
            case None => forall p | p in properties :: p.id != id
  {
    if properties != [] {
      HitOfIs(properties[1..], id);
      assert properties == [properties[0]] + properties[1..];
    }
  }

  /** The ids whose rows pass now. */
  ghost function PassingIds(q: Query, db: Database, ids: seq<Id>): seq<Id> {
    if ids == [] then []
    else
      (if Passes(q, db, ids[0]) then [ids[0]] else []) + PassingIds(q, db, ids[1..])
  }

  ghost predicate Passes(q: Query, db: Database, id: Id) {
    exists p | p in db.properties :: p.id == id && MayBeShown(q, p)
  }

  lemma HitOfPassing(q: Query, db: Database, all: seq<Id>, id: Id)
    requires id in all
    ensures var hit := HitOf(HitsOf(q, db.properties, all), id);
            (hit.Some? <==> Passes(q, db, id)) && (hit.Some? ==> hit.value.id == id)
  {
    HitOfIs(HitsOf(q, db.properties, all), id);
    forall p ensures p in HitsOf(q, db.properties, all) <==> p in db.properties && p.id in all && MayBeShown(q, p) {
      HitsOfAre(q, db.properties, all, p);
      HitMatchesIff(q, p);
    }
  }

  lemma {:induction false} RankedArePassing(q: Query, db: Database, all: seq<Id>, ids: seq<Id>)
    requires forall id | id in ids :: id in all
    ensures var items := Ranked(HitsOf(q, db.properties, all), ids); var passing := PassingIds(q, db, ids);
            && |items| == |passing|
            && forall i | 0 <= i < |items| :: items[i].id == passing[i]
  {
    if ids != [] {
      assert ids == [ids[0]] + ids[1..];
      RankedArePassing(q, db, all, ids[1..]);
      HitOfPassing(q, db, all, ids[0]);
    }
  }

  lemma {:induction false} RankedAreHits(properties: seq<Property>, ids: seq<Id>)
    ensures forall p | p in Ranked(properties, ids) :: p in properties
  {
    if ids != [] {
      RankedAreHits(properties, ids[1..]);
      HitOfIs(properties, ids[0]);
    }
  }

  /**
   However stale the index is, a search through it shows exactly those of its hits that are public
   and pass the filters now, in the order of the hits.
   */
  lemma StaleIndexShowsNothingHidden(q: Query, db: Database, ids: seq<Id>)
    ensures var items := SearchIndexed(q, db, ids); var passing := PassingIds(q, db, ids);
            && (forall p | p in items :: p in db.properties && MayBeShown(q, p))
            && |items| == |passing| && forall i | 0 <= i < |items| :: items[i].id == passing[i]
  {
    RankedArePassing(q, db, ids, ids);
    RankedAreHits(HitsOf(q, db.properties, ids), ids);
    forall p ensures p in HitsOf(q, db.properties, ids) <==> p in db.properties && p.id in ids && MayBeShown(q, p) {
      HitsOfAre(q, db.properties, ids, p);
      HitMatchesIff(q, p);
    }
  }
}
