/** Properties, projects, and the filters of a listing search, row by joined row. */
module ListingQuery {
  import opened Common
  import opened Inventory
  import opened Strings
  import Slugs

  type Id = nat
  type Time = int

  datatype Mode = Sell | Rent
  datatype Condition = New | Resale
  datatype Sort = PriceLowToHigh | PriceHighToLow | AreaLowToHigh | AreaHighToLow
  datatype Bedrooms = Exactly(n: int) | AtLeast(n: int)

  datatype Range = Range(min: real, max: Option<real>)

  datatype Details = Details(area: Option<real>, bedrooms: int, facing: Option<string>, furnished: Option<bool>,
                             furnishingStatus: Option<string>, age: Option<string>)

  datatype Property = Property(
    id: Id, createdAt: Time, status: PropertyStatus, approval: string, propertyType: string, mode: Mode,
    title: string, code: string, city: string, condition: string, transactionType: string, price: Option<real>,
    details: Option<Details>,
    localities: seq<Option<string>>, primaryImages: nat, units: nat)

  datatype Unit = Unit(available: bool, mode: Mode, price: Option<real>, monthlyRent: Option<real>, area: Option<real>,
                       bedrooms: Option<int>, facing: Option<string>, furnishedStatus: Option<string>)
  datatype Project = Project(
    id: Id, createdAt: Time, status: ProjectStatus, projectType: string, name: string, code: string, builder: string,
    city: string, sublocation: Option<string>, possessionStatus: string, units: seq<Unit>)

  datatype Database = Database(properties: seq<Property>, projects: seq<Project>)

  /** An empty text filter is no filter. */
  datatype Query = Query(
    propertyType: string, mode: Option<Mode>, condition: Option<Condition>, name: string, city: string, location: string,
    priceRanges: seq<Range>, facings: seq<string>, furnishings: seq<string>, ages: seq<string>,
    minPrice: Option<real>, maxPrice: Option<real>, minArea: Option<real>, maxArea: Option<real>,
    bedrooms: Option<Bedrooms>, sort: Option<Sort>, page: nat, limit: nat)

  const PROJECT_TYPES := {"apartment", "villa", "plot"}

  ghost predicate DistinctIds(db: Database) {
    && (forall i, j | 0 <= i < j < |db.properties| :: db.properties[i].id != db.properties[j].id)
    && (forall i, j | 0 <= i < j < |db.projects| :: db.projects[i].id != db.projects[j].id)
  }

  // ----- Places -----

  function Replaced(s: string, c: char, to: char): string {
    seq(|s|, i requires 0 <= i < |s| => if s[i] == c then to else s[i])
  }

  /** Every run of blanks becomes one space. */
  function OneSpace(s: string): string {
    if s == "" then ""
    else if !Blank(s[0]) then [s[0]] + OneSpace(s[1..])
    else if |s| > 1 && Blank(s[1]) then OneSpace(s[1..])
    else " " + OneSpace(s[1..])
  }

  /** How the words of a query are washed. */
  function Place(value: string): string {
    Trim(OneSpace(Replaced(Slugs.Lower(value), '-', ' ')))
  }

  function HalveSpaces(s: string): string {
    if |s| < 2 then s
    else if s[0] == ' ' && s[1] == ' ' then " " + HalveSpaces(s[2..])
    else [s[0]] + HalveSpaces(s[1..])
  }

  function TrimSpaces(s: string): string {
    if s != "" && s[0] == ' ' then TrimSpaces(s[1..])
    else if s != "" && s[|s| - 1] == ' ' then TrimSpaces(s[..|s| - 1])
    else s
  }

  /** How the database washes a stored name. */
  function PlaceColumn(stored: string): string {
    Slugs.Lower(HalveSpaces(Replaced(TrimSpaces(stored), '-', ' ')))
  }

  predicate AtPlace(q: Query, city: string, locality: Option<string>) {
    && (q.location != "" ==>
          PlaceColumn(city) == Place(q.location)
          || (locality.Some? && PlaceColumn(locality.value) == Place(q.location)))
    && (q.city != "" ==> PlaceColumn(city) == Place(q.city))
  }

  // ----- Ranges; an unknown value is in no range -----

  predicate InRange(value: Option<real>, min: Option<real>, max: Option<real>) {
    && (min.Some? ==> value.Some? && value.value >= min.value)
    && (max.Some? ==> value.Some? && value.value <= max.value)
  }

  predicate HasBedrooms(bedrooms: Option<int>, wanted: Option<Bedrooms>) {
    match wanted
    case None => true
    case Some(Exactly(n)) => bedrooms == Some(n)
    case Some(AtLeast(n)) => bedrooms.Some? && bedrooms.value >= n
  }

  // ----- Words -----

  /** LIKE with the searched words anywhere; letters match in either case. */
  predicate Like(column: string, words: string) {
    Contains(Slugs.Lower(column), Slugs.Lower(words))
  }

  /** The choices made in a filter that allows several, trimmed and in lower case. */
  function Choices(values: seq<string>): set<string> {
    set v | v in values && Trim(v) != "" :: Slugs.Lower(Trim(v))
  }

  /** Every run of dashes and blanks becomes one underscore. */
  function Underscored(s: string): string {
    Replaced(OneSpace(Replaced(s, '-', ' ')), ' ', '_')
  }

  function LeadingNumber(s: string): nat {
    ValueOfDigits(TrimStart(s), 0)
  }

  function ValueOfDigits(s: string, value: nat): nat {
    if s != "" && '0' <= s[0] <= '9' then ValueOfDigits(s[1..], value * 10 + (s[0] as int - '0' as int)) else value
  }

  // ----- Properties -----

  /** One row of the left joins: the property with one of its localities. */
  datatype PropertyRow = PropertyRow(property: Property, locality: Option<string>)

  function AtLeastOne(n: nat): nat {
    if n == 0 then 1 else n
  }

  /** A property is joined with every locality, image and unit it has, or with nulls. */
  function JoinRows(p: Property): seq<PropertyRow> {
    var copies := AtLeastOne(p.primaryImages) * AtLeastOne(p.units);
    if p.localities == [] then seq(copies, _ => PropertyRow(p, None))
    else LocalityRows(p, p.localities, copies)
  }

  function LocalityRows(p: Property, localities: seq<Option<string>>, copies: nat): seq<PropertyRow> {
    if localities == [] then []
    else seq(copies, _ => PropertyRow(p, localities[0])) + LocalityRows(p, localities[1..], copies)
  }

  function Area(p: Property): Option<real> {
    if p.details.Some? then p.details.value.area else None
  }

  function UnderscoresToSpaces(s: string): string {
    Replaced(s, '_', ' ')
  }

  predicate InCondition(q: Query, p: Property) {
    var stored := if TrimSpaces(p.condition) != "" then TrimSpaces(p.condition) else p.transactionType;
    var words := Slugs.Lower(TrimSpaces(UnderscoresToSpaces(stored)));
    q.mode != Some(Rent) ==>
      match q.condition
      case None => true
      case Some(New) => words in {"new", "under construction", "new launch"}
      case Some(Resale) => words == "resale"
  }

  predicate FacesOneOf(q: Query, d: Details) {
    var wanted := set f | f in Choices(q.facings) :: OneSpace(Replaced(f, '-', ' '));
    wanted == {} || (d.facing.Some? && Slugs.Lower(Replaced(TrimSpaces(d.facing.value), '-', ' ')) in wanted)
  }

  predicate FurnishedAs(q: Query, d: Details) {
    var wanted := Choices(q.furnishings);
    wanted !! {"furnished", "unfurnished", "semi"}
    || ("furnished" in wanted && d.furnished == Some(true))
    || ("unfurnished" in wanted && d.furnished == Some(false))
    || ("semi" in wanted && d.furnishingStatus.Some? && Like(d.furnishingStatus.value, "semi"))
  }

  predicate OfAge(age: string, wanted: string) {
    if wanted == "1-5" then 1 <= LeadingNumber(age) <= 5
    else if wanted == "5-10" then 5 <= LeadingNumber(age) <= 10
    else if wanted == "10+" then 10 <= LeadingNumber(age)
    else Like(age, wanted)
  }

  predicate AgedAs(q: Query, d: Details) {
    var wanted := Choices(q.ages);
    wanted == {} || (d.age.Some? && exists a | a in wanted :: OfAge(d.age.value, a))
  }

  /** Details a property without a details row is filtered by: nothing is known. */
  const NO_DETAILS := Details(None, 0, None, None, None, None)

  predicate PassesDetails(q: Query, p: Property) {
    var d := if p.details.Some? then p.details.value else NO_DETAILS;
    FacesOneOf(q, d) && FurnishedAs(q, d) && AgedAs(q, d)
  }

  predicate PublicProperty(p: Property) {
    VisibleProperty(p.status, p.approval)
  }

  /** The place and range filters, which an index-backed search repeats. */
  predicate PassesFilters(q: Query, row: PropertyRow) {
    var p := row.property;
    && AtPlace(q, p.city, row.locality)
    && InCondition(q, p)
    && InRange(p.price, q.minPrice, q.maxPrice)
    && InRange(Area(p), q.minArea, q.maxArea)
    && HasBedrooms(if p.details.Some? then Some(p.details.value.bedrooms) else None, q.bedrooms)
    && PassesDetails(q, p)
  }

  predicate PropertyRowMatches(q: Query, row: PropertyRow) {
    var p := row.property;
    && PublicProperty(p)
    && (q.propertyType != "" ==> p.propertyType == q.propertyType)
    && (q.mode.Some? ==> p.mode == q.mode.value)
    && (q.name != "" ==> Like(p.title, q.name) || Like(p.code, q.name) || Like(p.city, q.name))
    && (q.priceRanges != [] ==> exists r | r in q.priceRanges :: InRange(p.price, Some(r.min), r.max))
    && PassesFilters(q, row)
  }

  // ----- Projects -----

  datatype UnitRow = UnitRow(project: Project, unit: Unit)

  function ModeOf(q: Query): Mode {
    if q.mode == Some(Rent) then Rent else Sell
  }

  function UnitPrice(q: Query, u: Unit): Option<real> {
    if ModeOf(q) == Rent then u.monthlyRent else u.price
  }

  /** Units that are on offer at all, in the mode asked for. */
  predicate OnOffer(q: Query, project: Project, u: Unit) {
    (u.available || project.status == Booked) && u.mode == ModeOf(q)
  }

  predicate NamesProject(words: string, p: Project) {
    || Like(p.name, words) || Like(p.code, words) || Like(p.builder, words) || Like(p.city, words)
    || (p.sublocation.Some? && Like(p.sublocation.value, words))
  }

  /** The furnishing of units goes by other names; unknown choices are ignored. */
  function FurnishingName(choice: string): Option<string> {
    if choice == "furnished" then Some("fully_furnished")
    else if choice == "unfurnished" then Some("unfurnished")
    else if choice == "semi" then Some("semi_furnished")
    else None
  }

  function UnitFacings(q: Query): set<string> {
    set f | f in q.facings && f != "" :: Underscored(Slugs.Lower(f))
  }

  function UnitFurnishings(q: Query): set<string> {
    set f | f in q.furnishings && FurnishingName(Slugs.Lower(f)).Some? :: FurnishingName(Slugs.Lower(f)).value
  }

  predicate PassesUnitDetails(q: Query, u: Unit) {
    && (UnitFacings(q) == {} || (u.facing.Some? && u.facing.value in UnitFacings(q)))
    && (UnitFurnishings(q) == {} || (u.furnishedStatus.Some? && u.furnishedStatus.value in UnitFurnishings(q)))
  }

  /** Projects have no age in years: only those that can be new pass, and only when new was asked for. */
  predicate PassesAge(q: Query, p: Project) {
    var ages := set a | a in q.ages && a != "" :: Slugs.Lower(a);
    ages == {} || ("new" in ages && p.possessionStatus in {"new_launch", "under_construction", "ready_to_move"})
  }

  predicate UnitRowMatches(q: Query, row: UnitRow) {
    var p, u := row.project, row.unit;
    && OnOffer(q, p, u)
    && VisibleProject(p.status) && p.projectType in PROJECT_TYPES
    && !(q.mode != Some(Rent) && q.condition == Some(Resale))
    && (q.propertyType != "" ==> p.projectType == q.propertyType)
    && AtPlace(q, p.city, p.sublocation)
    && (Trim(q.name) != "" ==> NamesProject(Trim(q.name), p))
    && PassesUnitDetails(q, u) && PassesAge(q, p)
    && InRange(UnitPrice(q, u), q.minPrice, q.maxPrice)
    && InRange(u.area, q.minArea, q.maxArea)
    && HasBedrooms(u.bedrooms, q.bedrooms)
  }
}
