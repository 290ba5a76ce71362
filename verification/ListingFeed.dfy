/**
 The combined feed of properties and projects: two queries united, one total order, pages cut
 from it, and the listings loaded behind the keys of a page.
 */
module ListingFeed {
  import opened Common
  import opened Inventory
  import opened ListingQuery
  import Sorting

  datatype Kind = PropertyKind | ProjectKind
  datatype Key = Key(kind: Kind, id: Id)

  /** One row of the united query. */
  datatype Listing = Listing(key: Key, createdAt: Time, value: Option<real>)

  predicate Descending(q: Query) {
    q.sort in {Some(PriceHighToLow), Some(AreaHighToLow)}
  }

  predicate ByArea(q: Query) {
    q.sort in {Some(AreaLowToHigh), Some(AreaHighToLow)}
  }

  /** SELECT DISTINCT. */
  function Distinct(rows: seq<Listing>): seq<Listing> {
    if rows == [] then []
    else
      var earlier, last := rows[..|rows| - 1], rows[|rows| - 1];
      Distinct(earlier) + if last in earlier then [] else [last]
  }

  // ----- The property query -----

  function PropertyRows(properties: seq<Property>): seq<PropertyRow> {
    if properties == [] then [] else JoinRows(properties[0]) + PropertyRows(properties[1..])
  }

  function PropertyListing(q: Query, p: Property): Listing {
    Listing(Key(PropertyKind, p.id), p.createdAt, if ByArea(q) then Area(p) else p.price)
  }

  function SelectProperties(q: Query, rows: seq<PropertyRow>): seq<Listing> {
    if rows == [] then []
    else
      (if PropertyRowMatches(q, rows[0]) then [PropertyListing(q, rows[0].property)] else [])
      + SelectProperties(q, rows[1..])
  }

  // ----- The project query -----

  function UnitRows(projects: seq<Project>): seq<UnitRow> {
    if projects == [] then [] else RowsOfUnits(projects[0], projects[0].units) + UnitRows(projects[1..])
  }

  function RowsOfUnits(p: Project, units: seq<Unit>): seq<UnitRow> {
    seq(|units|, i requires 0 <= i < |units| => UnitRow(p, units[i]))
  }

  function MatchingRows(q: Query, rows: seq<UnitRow>): seq<UnitRow> {
    if rows == [] then []
    else (if UnitRowMatches(q, rows[0]) then [rows[0]] else []) + MatchingRows(q, rows[1..])
  }

  function UnitValue(q: Query, u: Unit): Option<real> {
    if ByArea(q) then u.area else UnitPrice(q, u)
  }

  predicate Better(q: Query, a: real, b: real) {
    if Descending(q) then a >= b else a <= b
  }

  /** MIN or MAX of a group; nulls are ignored. */
  function Extreme(q: Query, values: seq<Option<real>>): Option<real> {
    if values == [] then None
    else
      var rest := Extreme(q, values[1..]);
      if values[0].None? then rest
      else if rest.None? || Better(q, values[0].value, rest.value) then values[0]
      else rest
  }

  /** The sort values of the rows that are grouped under this project. */
  function GroupValues(q: Query, rows: seq<UnitRow>, id: Id, createdAt: Time): seq<Option<real>> {
    if rows == [] then []
    else
      (if rows[0].project.id == id && rows[0].project.createdAt == createdAt then [UnitValue(q, rows[0].unit)] else [])
      + GroupValues(q, rows[1..], id, createdAt)
  }

  function GroupOf(q: Query, rows: seq<UnitRow>, row: UnitRow): Listing {
    var p := row.project;
    Listing(Key(ProjectKind, p.id), p.createdAt, Extreme(q, GroupValues(q, rows, p.id, p.createdAt)))
  }

  /** GROUP BY id and creation time: one listing for each group that occurs. */
  function SelectProjects(q: Query, rows: seq<UnitRow>): seq<Listing> {
    Distinct(Groups(q, rows))
  }

  // ----- The union, sorted and cut -----

  function Union(q: Query, db: Database): seq<Listing> {
    Distinct(SelectProperties(q, PropertyRows(db.properties)))
    + SelectProjects(q, MatchingRows(q, UnitRows(db.projects)))
  }

  /** Missing values last, then the value, then the newer, projects before properties, then the larger id. */
  predicate Before(q: Query, a: Listing, b: Listing) {
    if q.sort.Some? && a.value != b.value then
      a.value.Some? && (b.value.None? || Better(q, a.value.value, b.value.value))
    else if a.createdAt != b.createdAt then a.createdAt > b.createdAt
    else if a.key.kind != b.key.kind then a.key.kind.ProjectKind?
    else a.key.id >= b.key.id
  }

  function Order(q: Query): (Listing, Listing) -> bool {
    (a, b) => Before(q, a, b)
  }

  function Feed(q: Query, db: Database): seq<Listing> {
    Sorting.Sort(Order(q), Union(q, db))
  }

  function Page<T>(all: seq<T>, page: nat, limit: nat): seq<T>
    requires page > 0
  {
    Slice(all, (page - 1) * limit, limit)
  }

  /** LIMIT and OFFSET. */
  function Slice<T>(all: seq<T>, from: nat, limit: nat): seq<T> {
    if from >= |all| then [] else if from + limit <= |all| then all[from..from + limit] else all[from..]
  }

  // ----- Which listings there are -----

  predicate PropertyMatches(q: Query, p: Property) {
    exists row | row in JoinRows(p) :: PropertyRowMatches(q, row)
  }

  function MatchingUnits(q: Query, p: Project): seq<Unit> {
    UnitsThatMatch(q, p, p.units)
  }

  function UnitsThatMatch(q: Query, p: Project, units: seq<Unit>): seq<Unit> {
    if units == [] then []
    else (if UnitRowMatches(q, UnitRow(p, units[0])) then [units[0]] else []) + UnitsThatMatch(q, p, units[1..])
  }

  function UnitValues(q: Query, units: seq<Unit>): seq<Option<real>> {
    seq(|units|, i requires 0 <= i < |units| => UnitValue(q, units[i]))
  }

  function ProjectListing(q: Query, p: Project): Listing {
    Listing(Key(ProjectKind, p.id), p.createdAt, Extreme(q, UnitValues(q, MatchingUnits(q, p))))
  }

  /** A listing that belongs into the feed, told from its property or project alone. */
  ghost predicate Belongs(q: Query, db: Database, l: Listing) {
    || (exists p | p in db.properties :: PropertyMatches(q, p) && l == PropertyListing(q, p))
    || (exists p | p in db.projects :: MatchingUnits(q, p) != [] && l == ProjectListing(q, p))
  }

  lemma {:induction false} DistinctKeeps(rows: seq<Listing>)
    ensures forall l :: l in Distinct(rows) <==> l in rows
    ensures forall i, j | 0 <= i < j < |Distinct(rows)| :: Distinct(rows)[i] != Distinct(rows)[j]
  {
    if rows != [] {
      var earlier := rows[..|rows| - 1];
      DistinctKeeps(earlier);
      assert rows == earlier + [rows[|rows| - 1]];
    }
  }

  lemma JoinRowsAreOf(p: Property)
    ensures forall row | row in JoinRows(p) :: row.property == p
  {
    if p.localities != [] {
      LocalityRowsAreOf(p, p.localities, AtLeastOne(p.primaryImages) * AtLeastOne(p.units));
    }
  }

  lemma {:induction false} LocalityRowsAreOf(p: Property, localities: seq<Option<string>>, copies: nat)
    ensures forall row | row in LocalityRows(p, localities, copies) :: row.property == p
  {
    if localities != [] {
      LocalityRowsAreOf(p, localities[1..], copies);
    }
  }

  lemma {:induction false} PropertyRowsAre(properties: seq<Property>, row: PropertyRow)
    ensures row in PropertyRows(properties) <==> row.property in properties && row in JoinRows(row.property)
  {
    if properties != [] {
      PropertyRowsAre(properties[1..], row);
      JoinRowsAreOf(properties[0]);
      assert properties == [properties[0]] + properties[1..];
    }
  }

  lemma {:induction false} SelectedAre(q: Query, rows: seq<PropertyRow>, l: Listing)
    ensures l in SelectProperties(q, rows)
            <==> exists row | row in rows :: PropertyRowMatches(q, row) && l == PropertyListing(q, row.property)
  {
    if rows != [] {
      SelectedAre(q, rows[1..], l);
      assert rows == [rows[0]] + rows[1..];
    }
  }

  /** Join fan-out disappears: the property query yields each matching property's listing. */
  lemma PropertyListingsAre(q: Query, properties: seq<Property>, l: Listing)
    ensures l in Distinct(SelectProperties(q, PropertyRows(properties)))
            <==> exists p | p in properties :: PropertyMatches(q, p) && l == PropertyListing(q, p)
  {
    var rows := PropertyRows(properties);
    DistinctKeeps(SelectProperties(q, rows));
    SelectedAre(q, rows, l);
    if row :| row in rows && PropertyRowMatches(q, row) && l == PropertyListing(q, row.property) {
      PropertyRowsAre(properties, row);
      assert PropertyMatches(q, row.property);
    }
    if p :| p in properties && PropertyMatches(q, p) && l == PropertyListing(q, p) {
      var row :| row in JoinRows(p) && PropertyRowMatches(q, row);
      JoinRowsAreOf(p);
      PropertyRowsAre(properties, row);
    }
  }

  // ----- Grouping undoes the join with units -----

  lemma {:induction false} MatchingAppend(q: Query, a: seq<UnitRow>, b: seq<UnitRow>)
    ensures MatchingRows(q, a + b) == MatchingRows(q, a) + MatchingRows(q, b)
  {
    if a == [] {
      assert a + b == b;
    } else {
      assert (a + b)[1..] == a[1..] + b;
      MatchingAppend(q, a[1..], b);
    }
  }

  lemma {:induction false} GroupAppend(q: Query, a: seq<UnitRow>, b: seq<UnitRow>, id: Id, createdAt: Time)
    ensures GroupValues(q, a + b, id, createdAt) == GroupValues(q, a, id, createdAt) + GroupValues(q, b, id, createdAt)
  {
    if a == [] {
      assert a + b == b;
    } else {
      assert (a + b)[1..] == a[1..] + b;
      GroupAppend(q, a[1..], b, id, createdAt);
    }
  }

  lemma {:induction false} MatchingOfOne(q: Query, p: Project, units: seq<Unit>)
    ensures MatchingRows(q, RowsOfUnits(p, units)) == RowsOfUnits(p, UnitsThatMatch(q, p, units))
  {
    if units != [] {
      RowsStep(p, units);
      MatchingOfOne(q, p, units[1..]);
      MatchingAppend(q, [UnitRow(p, units[0])], RowsOfUnits(p, units[1..]));
    }
  }

  lemma ValuesStep(q: Query, units: seq<Unit>)
    requires units != []
    ensures UnitValues(q, units) == [UnitValue(q, units[0])] + UnitValues(q, units[1..])
  {}

  lemma RowsStep(p: Project, units: seq<Unit>)
    requires units != []
    ensures RowsOfUnits(p, units) == [UnitRow(p, units[0])] + RowsOfUnits(p, units[1..])
  {}

  lemma {:induction false} GroupOfOne(q: Query, p: Project, units: seq<Unit>, id: Id, createdAt: Time)
    ensures GroupValues(q, RowsOfUnits(p, units), id, createdAt)
            == if p.id == id && p.createdAt == createdAt then UnitValues(q, units) else []
  {
    if units != [] {
      RowsStep(p, units);
      ValuesStep(q, units);
      GroupOfOne(q, p, units[1..], id, createdAt);
      GroupAppend(q, [UnitRow(p, units[0])], RowsOfUnits(p, units[1..]), id, createdAt);
    }
  }

  lemma MatchingOfFirst(q: Query, projects: seq<Project>)
    requires projects != []
    ensures MatchingRows(q, UnitRows(projects))
            == RowsOfUnits(projects[0], MatchingUnits(q, projects[0])) + MatchingRows(q, UnitRows(projects[1..]))
  {
    MatchingAppend(q, RowsOfUnits(projects[0], projects[0].units), UnitRows(projects[1..]));
    MatchingOfOne(q, projects[0], projects[0].units);
  }

  ghost predicate DistinctProjects(projects: seq<Project>) {
    forall i, j | 0 <= i < j < |projects| :: projects[i].id != projects[j].id
  }

  lemma GroupOfFirst(q: Query, projects: seq<Project>, id: Id, createdAt: Time)
    requires projects != []
    ensures GroupValues(q, MatchingRows(q, UnitRows(projects)), id, createdAt)
            == (if projects[0].id == id && projects[0].createdAt == createdAt
                then UnitValues(q, MatchingUnits(q, projects[0])) else [])
               + GroupValues(q, MatchingRows(q, UnitRows(projects[1..])), id, createdAt)
  {
    var units := MatchingUnits(q, projects[0]);
    MatchingOfFirst(q, projects);
    GroupAppend(q, RowsOfUnits(projects[0], units), MatchingRows(q, UnitRows(projects[1..])), id, createdAt);
    GroupOfOne(q, projects[0], units, id, createdAt);
  }

  lemma DistinctTail(projects: seq<Project>)
    requires DistinctProjects(projects) && projects != []
    ensures DistinctProjects(projects[1..])
    ensures forall x | x in projects[1..] :: x.id != projects[0].id
  {
    forall x | x in projects[1..] ensures x.id != projects[0].id {
      var k :| 0 <= k < |projects[1..]| && projects[1..][k] == x;
      assert projects[k + 1] == x;
    }
  }

  lemma {:induction false} OtherGroupsEmpty(q: Query, projects: seq<Project>, id: Id, createdAt: Time)
    requires forall x | x in projects :: x.id != id
    ensures GroupValues(q, MatchingRows(q, UnitRows(projects)), id, createdAt) == []
  {
    if projects != [] {
      assert projects[0] in projects;
      GroupOfFirst(q, projects, id, createdAt);
      OtherGroupsEmpty(q, projects[1..], id, createdAt);
    }
  }

  lemma {:induction false} GroupIsProject(q: Query, projects: seq<Project>, p: Project)
    requires DistinctProjects(projects) && p in projects
    ensures GroupValues(q, MatchingRows(q, UnitRows(projects)), p.id, p.createdAt) == UnitValues(q, MatchingUnits(q, p))
  {
    GroupOfFirst(q, projects, p.id, p.createdAt);
    DistinctTail(projects);
    assert projects == [projects[0]] + projects[1..];
    if p == projects[0] {
      OtherGroupsEmpty(q, projects[1..], p.id, p.createdAt);
    } else {
      GroupIsProject(q, projects[1..], p);
    }
  }

  lemma {:induction false} MatchingRowsAre(q: Query, projects: seq<Project>, row: UnitRow)
    ensures row in MatchingRows(q, UnitRows(projects))
            <==> row.project in projects && row.unit in MatchingUnits(q, row.project)
  {
    if projects != [] {
      MatchingOfFirst(q, projects);
      MatchingRowsAre(q, projects[1..], row);
      assert projects == [projects[0]] + projects[1..];
      var units := MatchingUnits(q, projects[0]);
      RowsAre(projects[0], units, row);
    }
  }

  lemma RowsAre(p: Project, units: seq<Unit>, row: UnitRow)
    ensures row in RowsOfUnits(p, units) <==> row.project == p && row.unit in units
  {
    if row.project == p && row.unit in units {
      var i :| 0 <= i < |units| && units[i] == row.unit;
      assert RowsOfUnits(p, units)[i] == row;
    }
  }

  function Groups(q: Query, rows: seq<UnitRow>): seq<Listing> {
    seq(|rows|, i requires 0 <= i < |rows| => GroupOf(q, rows, rows[i]))
  }

  lemma GroupListsProject(q: Query, projects: seq<Project>, row: UnitRow)
    requires DistinctProjects(projects) && row in MatchingRows(q, UnitRows(projects))
    ensures row.project in projects && MatchingUnits(q, row.project) != []
    ensures GroupOf(q, MatchingRows(q, UnitRows(projects)), row) == ProjectListing(q, row.project)
  {
    MatchingRowsAre(q, projects, row);
    GroupIsProject(q, projects, row.project);
  }

  /** The project query yields one listing for each project with a matching unit. */
  lemma ProjectListingsAre(q: Query, projects: seq<Project>, l: Listing)
    requires DistinctProjects(projects)
    ensures l in SelectProjects(q, MatchingRows(q, UnitRows(projects)))
            <==> exists p | p in projects :: MatchingUnits(q, p) != [] && l == ProjectListing(q, p)
  {
    var rows := MatchingRows(q, UnitRows(projects));
    DistinctKeeps(Groups(q, rows));
    if l in Groups(q, rows) {
      var i :| 0 <= i < |rows| && Groups(q, rows)[i] == l;
      GroupListsProject(q, projects, rows[i]);
    }
    if p :| p in projects && MatchingUnits(q, p) != [] && l == ProjectListing(q, p) {
      var row := UnitRow(p, MatchingUnits(q, p)[0]);
      MatchingRowsAre(q, projects, row);
      GroupListsProject(q, projects, row);
      var i :| 0 <= i < |rows| && rows[i] == row;
      assert Groups(q, rows)[i] == l;
    }
  }

  /** The value a project is sorted by is the best value of its matching units, if any has one. */
  lemma {:induction false} ExtremeIsBest(q: Query, values: seq<Option<real>>)
    ensures Extreme(q, values).None? <==> forall v | v in values :: v.None?
    ensures Extreme(q, values).Some? ==> Extreme(q, values) in values
    ensures forall v | v in values && v.Some? ::
              Extreme(q, values).Some? && Better(q, Extreme(q, values).value, v.value)
  {
    if values != [] {
      ExtremeIsBest(q, values[1..]);
      assert values == [values[0]] + values[1..];
    }
  }

  // ----- The feed as a whole -----

  lemma FeedMembers(q: Query, db: Database, l: Listing)
    requires DistinctIds(db)
    ensures l in Feed(q, db) <==> Belongs(q, db, l)
  {
    Sorting.SameMembers(Feed(q, db), Union(q, db));
    PropertyListingsAre(q, db.properties, l);
    ProjectListingsAre(q, db.projects, l);
  }

  lemma SameProperty(db: Database, p: Property, r: Property)
    requires DistinctIds(db) && p in db.properties && r in db.properties && p.id == r.id
    ensures p == r
  {
    var i :| 0 <= i < |db.properties| && db.properties[i] == p;
    var j :| 0 <= j < |db.properties| && db.properties[j] == r;
    assert i == j;
  }

  lemma SameProject(db: Database, p: Project, r: Project)
    requires DistinctIds(db) && p in db.projects && r in db.projects && p.id == r.id
    ensures p == r
  {
    var i :| 0 <= i < |db.projects| && db.projects[i] == p;
    var j :| 0 <= j < |db.projects| && db.projects[j] == r;
    assert i == j;
  }

  lemma BelongsByKey(q: Query, db: Database, a: Listing, b: Listing)
    requires DistinctIds(db) && Belongs(q, db, a) && Belongs(q, db, b) && a.key == b.key
    ensures a == b
  {
    if a.key.kind == PropertyKind {
      var p :| p in db.properties && PropertyMatches(q, p) && a == PropertyListing(q, p);
      var r :| r in db.properties && PropertyMatches(q, r) && b == PropertyListing(q, r);
      SameProperty(db, p, r);
    } else {
      var p :| p in db.projects && MatchingUnits(q, p) != [] && a == ProjectListing(q, p);
      var r :| r in db.projects && MatchingUnits(q, r) != [] && b == ProjectListing(q, r);
      SameProject(db, p, r);
    }
  }

  ghost predicate NoRepeats<T(!new)>(s: seq<T>) {
    forall i, j | 0 <= i < j < |s| :: s[i] != s[j]
  }

  lemma {:induction false} NoRepeatsByCount<T(!new)>(s: seq<T>)
    ensures NoRepeats(s) <==> forall x :: multiset(s)[x] <= 1
  {
    if s != [] {
      var rest := s[..|s| - 1];
      NoRepeatsByCount(rest);
      assert s == rest + [s[|s| - 1]];
      if forall x :: multiset(s)[x] <= 1 {
        assert forall x :: multiset(rest)[x] <= multiset(s)[x];
        assert s[|s| - 1] !in multiset(rest);
      }
    }
  }

  lemma UnionHasNoRepeats(q: Query, db: Database)
    requires DistinctIds(db)
    ensures NoRepeats(Union(q, db))
  {
    var rows := SelectProperties(q, PropertyRows(db.properties));
    var units := MatchingRows(q, UnitRows(db.projects));
    var a, b := Distinct(rows), SelectProjects(q, units);
    DistinctKeeps(rows);
    DistinctKeeps(Groups(q, units));
    forall i, j | 0 <= i < |a| && 0 <= j < |b| ensures a[i] != b[j] {
      PropertyListingsAre(q, db.properties, a[i]);
      ProjectListingsAre(q, db.projects, b[j]);
      assert a[i].key.kind == PropertyKind && b[j].key.kind == ProjectKind;
    }
  }

  /**
   Each matching property and project is in the feed exactly once, whatever the joins multiplied,
   under one key each; so the length is the number of matching properties and projects.
   */
  lemma EachListingOnce(q: Query, db: Database)
    requires DistinctIds(db)
    ensures forall l :: l in Feed(q, db) <==> Belongs(q, db, l)
    ensures forall i, j | 0 <= i < j < |Feed(q, db)| :: Feed(q, db)[i].key != Feed(q, db)[j].key
  {
    var feed := Feed(q, db);
    forall l ensures l in feed <==> Belongs(q, db, l) {
      FeedMembers(q, db, l);
    }
    UnionHasNoRepeats(q, db);
    NoRepeatsByCount(Union(q, db));
    NoRepeatsByCount(feed);
    forall i, j | 0 <= i < j < |feed| ensures feed[i].key != feed[j].key {
      assert feed[i] in feed && feed[j] in feed && feed[i] != feed[j];
      if feed[i].key == feed[j].key {
        BelongsByKey(q, db, feed[i], feed[j]);
      }
    }
  }

  lemma OrderIsTotal(q: Query)
    ensures Sorting.TotalPreorder(Order(q))
  {}

  /**
   The feed is sorted as the visitor chose: known values rise or fall along it and missing ones come
   last; among equals, and when nothing was chosen, the newer come first, then projects, then larger ids.
   */
  lemma FeedIsSorted(q: Query, db: Database)
    ensures Sorting.Sorted(Order(q), Feed(q, db))
    ensures forall i, j | 0 <= i < j < |Feed(q, db)| :: InSortOrder(q, Feed(q, db)[i], Feed(q, db)[j])
  {
    OrderIsTotal(q);
    Sorting.SortSorted(Order(q), Union(q, db));
    forall i, j | 0 <= i < j < |Feed(q, db)| ensures InSortOrder(q, Feed(q, db)[i], Feed(q, db)[j]) {
      assert Order(q)(Feed(q, db)[i], Feed(q, db)[j]);
    }
  }

  /** What a visitor may conclude from a standing above b, option by option. */
  ghost predicate InSortOrder(q: Query, a: Listing, b: Listing) {
    && (q.sort.Some? && a.value.None? ==> b.value.None?)
    && (a.value.Some? && b.value.Some? ==>
          && (q.sort in {Some(PriceLowToHigh), Some(AreaLowToHigh)} ==> a.value.value <= b.value.value)
          && (q.sort in {Some(PriceHighToLow), Some(AreaHighToLow)} ==> a.value.value >= b.value.value))
    && (q.sort.None? || a.value == b.value ==>
          && a.createdAt >= b.createdAt
          && (a.createdAt == b.createdAt && b.key.kind.ProjectKind? ==> a.key.kind.ProjectKind?)
          && (a.createdAt == b.createdAt && a.key.kind == b.key.kind ==> a.key.id >= b.key.id))
  }

  /** What a property is worth under a sort option. */
  ghost predicate PropertyWorth(q: Query, p: Property, value: Option<real>) {
    match q.sort
    case Some(AreaLowToHigh) | Some(AreaHighToLow) => value == (if p.details.None? then None else p.details.value.area)
    case Some(PriceLowToHigh) | Some(PriceHighToLow) | None => value == p.price
  }

  /** What a unit is worth under a sort option. */
  ghost predicate UnitWorth(q: Query, u: Unit, value: Option<real>) {
    match q.sort
    case Some(AreaLowToHigh) | Some(AreaHighToLow) => value == u.area
    case Some(PriceLowToHigh) | Some(PriceHighToLow) | None => value == (if q.mode == Some(Rent) then u.monthlyRent else u.price)
  }

  /** The unit passes and is worth this much. */
  ghost predicate Offered(q: Query, p: Project, u: Unit, value: Option<real>) {
    u in MatchingUnits(q, p) && UnitWorth(q, u, value)
  }

  /**
   A project stands at the value of one of its matching units: the greatest when sorting from high to
   low and the least otherwise. It has none only when every matching unit lacks one.
   */
  ghost predicate ProjectWorth(q: Query, p: Project, value: Option<real>) {
    && (exists u :: Offered(q, p, u, value))
    && (value.None? ==> forall u, v | Offered(q, p, u, v) :: v.None?)
    && (value.Some? && q.sort in {Some(PriceHighToLow), Some(AreaHighToLow)} ==>
          forall u, v | Offered(q, p, u, Some(v)) :: value.value >= v)
    && (value.Some? && q.sort in {Some(PriceLowToHigh), Some(AreaLowToHigh), None} ==>
          forall u, v | Offered(q, p, u, Some(v)) :: value.value <= v)
  }

  /** The value a listing is sorted by is what the sort option asks for. */
  lemma SortValueIs(q: Query, db: Database, l: Listing)
    requires DistinctIds(db) && l in Feed(q, db)
    ensures l.key.kind.PropertyKind? ==>
              exists p | p in db.properties :: p.id == l.key.id && p.createdAt == l.createdAt && PropertyWorth(q, p, l.value)
    ensures l.key.kind.ProjectKind? ==>
              exists p | p in db.projects :: p.id == l.key.id && p.createdAt == l.createdAt && ProjectWorth(q, p, l.value)
  {
    if l.key.kind.PropertyKind? {
      var p := PropertyBehind(q, db, l);
      PropertyValueIs(q, p);
    } else {
      var p := ProjectBehind(q, db, l);
      ProjectValueIs(q, p);
    }
  }

  lemma PropertyBehind(q: Query, db: Database, l: Listing) returns (p: Property)
    requires DistinctIds(db) && l in Feed(q, db) && l.key.kind.PropertyKind?
    ensures p in db.properties && PropertyMatches(q, p) && l == PropertyListing(q, p)
  {
    FeedMembers(q, db, l);
    p :| p in db.properties && PropertyMatches(q, p) && l == PropertyListing(q, p);
  }

  lemma ProjectBehind(q: Query, db: Database, l: Listing) returns (p: Project)
    requires DistinctIds(db) && l in Feed(q, db) && l.key.kind.ProjectKind?
    ensures p in db.projects && MatchingUnits(q, p) != [] && l == ProjectListing(q, p)
  {
    FeedMembers(q, db, l);
    p :| p in db.projects && MatchingUnits(q, p) != [] && l == ProjectListing(q, p);
  }

  lemma PropertyValueIs(q: Query, p: Property)
    ensures PropertyWorth(q, p, PropertyListing(q, p).value)
  {}

  lemma ProjectValueIs(q: Query, p: Project)
    requires MatchingUnits(q, p) != []
    ensures ProjectWorth(q, p, ProjectListing(q, p).value)
  {
    var values := UnitValues(q, MatchingUnits(q, p));
    var value := Extreme(q, values);
    ExtremeIsBest(q, values);
    assert values[0] in values;
    forall u, v | Offered(q, p, u, v) ensures v in values { OfferedIsValue(q, p, u, v); }
    var u := UnitOfValue(q, p, value);
  }

  lemma OfferedIsValue(q: Query, p: Project, u: Unit, value: Option<real>)
    requires Offered(q, p, u, value)
    ensures value in UnitValues(q, MatchingUnits(q, p))
  {
    var units := MatchingUnits(q, p);
    var k :| 0 <= k < |units| && units[k] == u;
    assert UnitValues(q, units)[k] == value;
  }

  lemma UnitOfValue(q: Query, p: Project, value: Option<real>) returns (u: Unit)
    requires value in UnitValues(q, MatchingUnits(q, p))
    ensures Offered(q, p, u, value)
  {
    var units := MatchingUnits(q, p);
    var i :| 0 <= i < |units| && UnitValues(q, units)[i] == value;
    u := units[i];
  }

  /**
   Ties are broken totally: in whatever order the database produced the united rows, the sorted
   list is the same, so every page query cuts from one list.
   */
  lemma OneSortedList(q: Query, db: Database, rows: seq<Listing>, sorted: seq<Listing>)
    requires DistinctIds(db)
    requires multiset(rows) == multiset(Union(q, db)) == multiset(sorted) && Sorting.Sorted(Order(q), sorted)
    ensures sorted == Feed(q, db) == Sorting.Sort(Order(q), rows)
  {
    OrderIsTotal(q);
    Sorting.SortSorted(Order(q), rows);
    SortedFeed(q, db, sorted);
    SortedFeed(q, db, Sorting.Sort(Order(q), rows));
  }

  lemma Antisymmetric(q: Query, db: Database, a: Listing, b: Listing)
    requires DistinctIds(db) && a in Feed(q, db) && b in Feed(q, db) && Before(q, a, b) && Before(q, b, a)
    ensures a == b
  {
    FeedMembers(q, db, a);
    FeedMembers(q, db, b);
    BelongsByKey(q, db, a, b);
  }

  lemma SortedFeed(q: Query, db: Database, sorted: seq<Listing>)
    requires DistinctIds(db) && multiset(sorted) == multiset(Union(q, db)) && Sorting.Sorted(Order(q), sorted)
    ensures sorted == Feed(q, db)
  {
    var feed := Feed(q, db);
    OrderIsTotal(q);
    Sorting.SortSorted(Order(q), Union(q, db));
    Sorting.SameMembers(sorted, feed);
    forall a, b | a in sorted && b in sorted ensures Order(q)(a, b) && Order(q)(b, a) ==> a == b {
      if Order(q)(a, b) && Order(q)(b, a) {
        Antisymmetric(q, db, a, b);
      }
    }
    Sorting.SortedIsUnique(Order(q), sorted, feed);
  }

  // ----- What a visitor may conclude -----

  lemma {:induction false} MatchingUnitsMatch(q: Query, p: Project, units: seq<Unit>)
    ensures forall u :: u in UnitsThatMatch(q, p, units) <==> u in units && UnitRowMatches(q, UnitRow(p, u))
  {
    if units != [] {
      MatchingUnitsMatch(q, p, units[1..]);
      assert units == [units[0]] + units[1..];
    }
  }

  /** The localities a property is found by; one without localities is found by its city alone. */
  function LocalitiesOf(p: Property): seq<Option<string>> {
    if p.localities == [] then [None] else p.localities
  }

  lemma {:induction false} LocalityRowsAre(p: Property, localities: seq<Option<string>>, copies: nat)
    requires copies > 0
    ensures forall l :: PropertyRow(p, l) in LocalityRows(p, localities, copies) <==> l in localities
  {
    if localities != [] {
      var first := seq(copies, _ => PropertyRow(p, localities[0]));
      assert first[0] == PropertyRow(p, localities[0]);
      LocalityRowsAre(p, localities[1..], copies);
    }
  }

  /** Whatever the joins multiply, a property shows up with each of its localities and with no other. */
  lemma JoinRowsAre(p: Property, row: PropertyRow)
    ensures row in JoinRows(p) <==> row.property == p && row.locality in LocalitiesOf(p)
  {
    JoinRowsAreOf(p);
    var copies := AtLeastOne(p.primaryImages) * AtLeastOne(p.units);
    assert copies > 0;
    LocalityRowsAre(p, p.localities, copies);
    assert seq(copies, _ => PropertyRow(p, None))[0] == PropertyRow(p, None);
  }

  /** Everything in the feed is public, and every project in it has a unit that passes all filters at once. */
  lemma FeedIsPublic(q: Query, db: Database, l: Listing)
    requires DistinctIds(db) && l in Feed(q, db)
    ensures l.key.kind.PropertyKind? ==>
              exists p | p in db.properties :: p.id == l.key.id
                && p.status in {Available, Sold, Rented} && p.approval == "Approved"
                && exists locality | locality in LocalitiesOf(p) :: PassesFilters(q, PropertyRow(p, locality))
    ensures l.key.kind.ProjectKind? ==>
              exists p | p in db.projects :: p.id == l.key.id && p.status in {Published, Booked}
                && exists u | u in p.units :: UnitRowMatches(q, UnitRow(p, u))
  {
    if l.key.kind.PropertyKind? {
      var p := PropertyBehind(q, db, l);
      var row :| row in JoinRows(p) && PropertyRowMatches(q, row);
      JoinRowsAre(p, row);
    } else {
      var p := ProjectBehind(q, db, l);
      MatchingUnitsMatch(q, p, p.units);
      assert MatchingUnits(q, p)[0] in MatchingUnits(q, p);
    }
  }

  /** The bounds a visitor set on what is sorted by. */
  ghost predicate InRangeAskedFor(q: Query, value: Option<real>) {
    match q.sort
    case Some(AreaLowToHigh) | Some(AreaHighToLow) => InRange(value, q.minArea, q.maxArea)
    case Some(PriceLowToHigh) | Some(PriceHighToLow) | None => InRange(value, q.minPrice, q.maxPrice)
  }

  /**
   The value a listing is sorted by lies in the range asked for, for properties and for projects,
   whose value is taken over the very units that passed the filter.
   */
  lemma SortValueInRange(q: Query, db: Database, l: Listing)
    requires DistinctIds(db) && l in Feed(q, db)
    ensures InRangeAskedFor(q, l.value)
  {
    if l.key.kind.PropertyKind? {
      var p := PropertyBehind(q, db, l);
      PropertyInRange(q, p);
    } else {
      var p := ProjectBehind(q, db, l);
      ProjectValueIs(q, p);
      var u :| Offered(q, p, u, l.value);
      MatchingUnitInRange(q, p, u, l.value);
    }
  }

  lemma PropertyInRange(q: Query, p: Property)
    requires PropertyMatches(q, p)
    ensures InRangeAskedFor(q, PropertyListing(q, p).value)
  {
    JoinRowsAreOf(p);
  }

  lemma MatchingUnitInRange(q: Query, p: Project, u: Unit, value: Option<real>)
    requires Offered(q, p, u, value)
    ensures InRangeAskedFor(q, value)
  {
    MatchingUnitsMatch(q, p, p.units);
  }

  // ----- Pages -----

  function Pages<T>(all: seq<T>, limit: nat, n: nat): seq<T> {
    if n == 0 then [] else Pages(all, limit, n - 1) + Page(all, n, limit)
  }

  function UpTo<T>(all: seq<T>, n: nat): seq<T> {
    if n <= |all| then all[..n] else all
  }

  lemma SliceExtends<T>(all: seq<T>, from: nat, limit: nat)
    ensures UpTo(all, from) + Slice(all, from, limit) == UpTo(all, from + limit)
  {
    assert from <= |all| ==> all[..from] + all[from..] == all;
  }

  /** The pages put end to end are the whole list, for every page size. */
  lemma {:induction false} PagesPartition<T>(all: seq<T>, limit: nat, n: nat)
    ensures Pages(all, limit, n) == UpTo(all, n * limit)
    ensures n * limit >= |all| ==> Pages(all, limit, n) == all
  {
    if n > 0 {
      PagesPartition(all, limit, n - 1);
      SliceExtends(all, (n - 1) * limit, limit);
      assert n * limit == (n - 1) * limit + limit;
    }
  }
}
