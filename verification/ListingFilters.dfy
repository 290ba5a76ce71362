/**
 What the filters of a search ask for, told from the visitor's side: a property is listed exactly
 when it offers each thing asked for, and a project exactly when one unit offers all of them.
 */
module ListingFilters {
  import opened Common
  import opened Inventory
  import opened ListingQuery
  import opened ListingPlaces
  import opened ListingFeed
  import opened Strings
  import Slugs

  // ----- Places -----

  /** A stored name and a typed one have the same words. */
  ghost predicate NamesPlace(stored: string, value: string) {
    Findable(stored) && Words(Slugs.Lower(stored)) == Words(Slugs.Lower(value))
  }

  /** The city asked for is the city; the location is the city or one of the localities. */
  ghost predicate AtPlaces(q: Query, city: string, localities: seq<Option<string>>) {
    && (q.city != "" ==> NamesPlace(city, q.city))
    && (q.location != "" ==>
          NamesPlace(city, q.location)
          || exists l | l in localities :: l.Some? && NamesPlace(l.value, q.location))
  }

  lemma AtPlaceIff(q: Query, city: string, locality: Option<string>)
    ensures AtPlace(q, city, locality) <==> AtPlaces(q, city, [locality])
  {
    PlaceFoundIff(city, q.city);
    PlaceFoundIff(city, q.location);
    assert [locality][0] == locality;
    if locality.Some? { PlaceFoundIff(locality.value, q.location); }
  }

  // ----- Numbers -----

  ghost predicate AtLeastAsked(value: Option<real>, min: Option<real>) {
    min.None? || (value.Some? && min.value <= value.value)
  }

  ghost predicate AtMostAsked(value: Option<real>, max: Option<real>) {
    max.None? || (value.Some? && value.value <= max.value)
  }

  ghost predicate BedroomsAsked(bedrooms: Option<int>, wanted: Option<Bedrooms>) {
    && (forall n :: wanted == Some(Exactly(n)) ==> bedrooms == Some(n))
    && (forall n :: wanted == Some(AtLeast(n)) ==> bedrooms.Some? && n <= bedrooms.value)
  }

  /** The value of decimal digits. */
  function Number(digits: string): int {
    if digits == "" then 0 else 10 * Number(digits[..|digits| - 1]) + (digits[|digits| - 1] as int - '0' as int)
  }

  predicate Digits(s: string) {
    forall i | 0 <= i < |s| :: '0' <= s[i] <= '9'
  }

  lemma {:induction false} DigitsAreRead(done: string, digits: string, rest: string)
    requires Digits(done) && Digits(digits) && (rest != "" ==> !('0' <= rest[0] <= '9')) && Number(done) >= 0
    ensures ValueOfDigits(digits + rest, Number(done)) == Number(done + digits)
    decreases |digits|
  {
    if digits == "" {
      assert digits + rest == rest && done + digits == done;
    } else {
      var next, tail := done + [digits[0]], digits[1..];
      OneDigit(done, digits[0]);
      assert (digits + rest)[1..] == tail + rest;
      assert done + digits == next + tail;
      DigitsAreRead(next, tail, rest);
    }
  }

  lemma OneDigit(done: string, digit: char)
    requires Digits(done) && '0' <= digit <= '9'
    ensures Number(done + [digit]) == 10 * Number(done) + (digit as int - '0' as int) && Digits(done + [digit])
  {
    assert (done + [digit])[..|done|] == done;
  }

  /** An age is read as the number it begins with. */
  lemma LeadingNumberIs(before: string, digits: string, rest: string)
    requires Blanks(before) && Digits(digits)
    requires rest != "" ==> !('0' <= rest[0] <= '9') && (digits == "" ==> !Blank(rest[0]))
    ensures LeadingNumber(before + (digits + rest)) == Number(digits)
  {
    assert digits != "" ==> (digits + rest)[0] == digits[0] && !Blank(digits[0]);
    assert digits == "" ==> digits + rest == rest;
    TrimFront(before, digits + rest);
    DigitsAreRead("", digits, rest);
    assert "" + digits == digits;
  }

  // ----- Texts -----

  /** The words stand somewhere in the column, in either case. */
  ghost predicate HasText(column: string, words: string) {
    exists i :: HasTextAt(column, words, i)
  }

  ghost predicate HasTextAt(column: string, words: string, i: int) {
    0 <= i <= |column| - |words| && forall k | 0 <= k < |words| :: Slugs.LowerChar(column[i + k]) == Slugs.LowerChar(words[k])
  }

  lemma LikeIff(column: string, words: string)
    ensures Like(column, words) <==> HasText(column, words)
  {
    var c, w := Slugs.Lower(column), Slugs.Lower(words);
    forall i | 0 <= i <= |c| - |w| ensures c[i..][..|w|] == w <==> HasTextAt(column, words, i) {
      forall k | 0 <= k < |w|
        ensures c[i..][..|w|][k] == Slugs.LowerChar(column[i + k]) && w[k] == Slugs.LowerChar(words[k])
      {}
      if HasTextAt(column, words, i) { assert c[i..][..|w|] == w; }
    }
  }

  /** One of the choices made, whatever blanks stand around it. */
  ghost predicate Asked(values: seq<string>, choice: string) {
    exists v | v in values :: Trim(v) != "" && Slugs.Lower(Trim(v)) == choice
  }

  lemma ChoicesAre(values: seq<string>)
    ensures forall choice :: choice in Choices(values) <==> Asked(values, choice)
  {}

  /** The text, in any case, with underscores for spaces, and with either around it. */
  ghost predicate ReadsAs(stored: string, text: string) {
    exists i: nat :: ReadsAt(stored, text, i)
  }

  ghost predicate ReadsAt(stored: string, text: string, i: nat) {
    && i + |text| <= |stored|
    && (forall k | 0 <= k < |stored| :: k < i || i + |text| <= k ==> stored[k] == ' ' || stored[k] == '_')
    && (forall k | 0 <= k < |text| :: text[k] == if stored[i + k] == '_' then ' ' else Slugs.LowerChar(stored[i + k]))
  }

  function Condensed(stored: string): string {
    Slugs.Lower(TrimSpaces(UnderscoresToSpaces(stored)))
  }

  lemma ReadsAsIff(stored: string, text: string)
    requires text != "" && text[0] != ' ' && text[|text| - 1] != ' '
    ensures Condensed(stored) == text <==> ReadsAs(stored, text)
  {
    var s := UnderscoresToSpaces(stored);
    var a, b := TrimSpacesIs(s);
    forall k | 0 <= k < b - a ensures Condensed(stored)[k] == Slugs.LowerChar(s[a + k]) {}
    if Condensed(stored) == text {
      forall k | 0 <= k < |stored| && (k < a || b <= k) ensures stored[k] == ' ' || stored[k] == '_' { assert s[k] == ' '; }
      assert ReadsAt(stored, text, a);
    }
    if i: nat :| ReadsAt(stored, text, i) {
      assert s[i] != ' ' && s[i + |text| - 1] != ' ' by {
        assert text[0] == Slugs.LowerChar(s[i]) && text[|text| - 1] == Slugs.LowerChar(s[i + (|text| - 1)]);
      }
      assert a == i && b == i + |text|;
    }
  }

  lemma ReadsInside(stored: string, a: nat, b: nat, text: string, i: nat)
    requires a <= b <= |stored| && forall k | 0 <= k < |stored| :: k < a || b <= k ==> stored[k] == ' '
    requires ReadsAt(stored[a..b], text, i)
    ensures ReadsAt(stored, text, a + i)
  {
    var t := stored[a..b];
    forall k | 0 <= k < |stored| && (k < a + i || a + i + |text| <= k) ensures stored[k] == ' ' || stored[k] == '_' {
      if a <= k < b { assert t[k - a] == stored[k]; }
    }
    forall m | 0 <= m < |t| ensures stored[a + m] == t[m] {}
    forall k | 0 <= k < |text|
      ensures text[k] == if stored[a + i + k] == '_' then ' ' else Slugs.LowerChar(stored[a + i + k])
    {
      assert t[i + k] == stored[a + (i + k)];
    }
  }

  lemma TrimmedReadsSame(stored: string, text: string)
    requires text != "" && text[0] != ' ' && text[|text| - 1] != ' '
    ensures ReadsAs(TrimSpaces(stored), text) <==> ReadsAs(stored, text)
  {
    var a, b := TrimSpacesIs(stored);
    var t := TrimSpaces(stored);
    if i: nat :| ReadsAt(t, text, i) {
      ReadsInside(stored, a, b, text, i);
    }
    if i: nat :| ReadsAt(stored, text, i) {
      assert text[0] == (if stored[i + 0] == '_' then ' ' else Slugs.LowerChar(stored[i + 0]));
      assert a <= i && i + |text| <= b;
      assert ReadsAt(t, text, i - a);
    }
  }

  // ----- Properties -----

  /** The condition that counts: the transaction type where none is stored. */
  ghost predicate HasCondition(p: Property, text: string) {
    ReadsAs(if forall k | 0 <= k < |p.condition| :: p.condition[k] == ' ' then p.transactionType else p.condition, text)
  }

  ghost predicate ConditionAsked(q: Query, p: Property) {
    q.mode == Some(Rent)
    || ((q.condition == Some(New) ==>
           HasCondition(p, "new") || HasCondition(p, "under construction") || HasCondition(p, "new launch"))
        && (q.condition == Some(Resale) ==> HasCondition(p, "resale")))
  }

  lemma HasConditionIff(p: Property, text: string)
    requires text != "" && text[0] != ' ' && text[|text| - 1] != ' '
    ensures HasCondition(p, text)
            <==> Condensed(if TrimSpaces(p.condition) != "" then TrimSpaces(p.condition) else p.transactionType) == text
  {
    var a, b := TrimSpacesIs(p.condition);
    assert TrimSpaces(p.condition) == "" <==> forall k | 0 <= k < |p.condition| :: p.condition[k] == ' ';
    ReadsAsIff(TrimSpaces(p.condition), text);
    ReadsAsIff(p.transactionType, text);
    TrimmedReadsSame(p.condition, text);
  }

  lemma ConditionIff(q: Query, p: Property)
    ensures InCondition(q, p) <==> ConditionAsked(q, p)
  {
    if q.condition == Some(New) {
      HasConditionIff(p, "new");
      HasConditionIff(p, "under construction");
      HasConditionIff(p, "new launch");
    } else if q.condition == Some(Resale) {
      HasConditionIff(p, "resale");
    }
  }

  ghost predicate FacingAsked(q: Query, d: Details) {
    || (forall f | f in q.facings :: Trim(f) == "")
    || (d.facing.Some?
        && exists f | f in q.facings :: Trim(f) != "" && FacesAs(d.facing.value, Trim(f)))
  }

  /** A dash counts as a space, and what is typed may have several. */
  predicate FacesAs(stored: string, typed: string) {
    Slugs.Lower(Replaced(TrimSpaces(stored), '-', ' ')) == OneSpace(Replaced(Slugs.Lower(typed), '-', ' '))
  }

  lemma FacingIff(q: Query, d: Details)
    ensures FacesOneOf(q, d) <==> FacingAsked(q, d)
  {
    var wanted := set f | f in Choices(q.facings) :: OneSpace(Replaced(f, '-', ' '));
    forall f | f in q.facings && Trim(f) != "" ensures OneSpace(Replaced(Slugs.Lower(Trim(f)), '-', ' ')) in wanted {
      assert Slugs.Lower(Trim(f)) in Choices(q.facings);
    }
  }

  ghost predicate FurnishingAsked(q: Query, d: Details) {
    || (!Asked(q.furnishings, "furnished") && !Asked(q.furnishings, "unfurnished") && !Asked(q.furnishings, "semi"))
    || (Asked(q.furnishings, "furnished") && d.furnished == Some(true))
    || (Asked(q.furnishings, "unfurnished") && d.furnished == Some(false))
    || (Asked(q.furnishings, "semi") && d.furnishingStatus.Some? && HasText(d.furnishingStatus.value, "semi"))
  }

  lemma FurnishingIff(q: Query, d: Details)
    ensures FurnishedAs(q, d) <==> FurnishingAsked(q, d)
  {
    ChoicesAre(q.furnishings);
    if d.furnishingStatus.Some? { LikeIff(d.furnishingStatus.value, "semi"); }
  }

  /** The ranges offered read the number an age begins with; any other text is looked for in it. */
  ghost predicate AgeFits(age: string, asked: string) {
    var years := LeadingNumber(age);
    && (asked == "1-5" ==> 1 <= years && years <= 5)
    && (asked == "5-10" ==> 5 <= years && years <= 10)
    && (asked == "10+" ==> years >= 10)
    && (asked !in {"1-5", "5-10", "10+"} ==> HasText(age, asked))
  }

  ghost predicate AgeAsked(q: Query, d: Details) {
    || (forall a | a in q.ages :: Trim(a) == "")
    || (d.age.Some? && exists asked :: Asked(q.ages, asked) && AgeFits(d.age.value, asked))
  }

  lemma AgeIff(q: Query, d: Details)
    ensures AgedAs(q, d) <==> AgeAsked(q, d)
  {
    ChoicesAre(q.ages);
    assert (forall a | a in q.ages :: Trim(a) == "") <==> Choices(q.ages) == {} by {
      forall a | a in q.ages && Trim(a) != "" ensures Slugs.Lower(Trim(a)) in Choices(q.ages) {}
    }
    if d.age.Some? {
      forall asked ensures OfAge(d.age.value, asked) <==> AgeFits(d.age.value, asked) {
        OfAgeIff(d.age.value, asked);
      }
    }
  }

  lemma OfAgeIff(age: string, asked: string)
    ensures OfAge(age, asked) <==> AgeFits(age, asked)
  {
    LikeIff(age, asked);
    assert |"1-5"| == |"10+"| == 3 && |"5-10"| == 4 && "1-5"[1] == '-' && "10+"[1] == '0';
  }

  /** Nothing is known about a property without a details row. */
  function DetailsOf(p: Property): Details {
    if p.details.Some? then p.details.value else Details(None, 0, None, None, None, None)
  }

  /** What is asked for beyond the place. */
  ghost predicate PropertyOffers(q: Query, p: Property) {
    && ConditionAsked(q, p)
    && AtLeastAsked(p.price, q.minPrice) && AtMostAsked(p.price, q.maxPrice)
    && AtLeastAsked(DetailsOf(p).area, q.minArea) && AtMostAsked(DetailsOf(p).area, q.maxArea)
    && BedroomsAsked(if p.details.None? then None else Some(p.details.value.bedrooms), q.bedrooms)
    && FacingAsked(q, DetailsOf(p)) && FurnishingAsked(q, DetailsOf(p)) && AgeAsked(q, DetailsOf(p))
  }

  ghost predicate Describes(q: Query, p: Property) {
    && p.status in {Available, Sold, Rented} && p.approval == "Approved"
    && (q.propertyType != "" ==> q.propertyType == p.propertyType)
    && (q.mode == Some(Sell) ==> p.mode == Sell) && (q.mode == Some(Rent) ==> p.mode == Rent)
    && (q.name != "" ==> HasText(p.title, q.name) || HasText(p.code, q.name) || HasText(p.city, q.name))
    && (q.priceRanges != [] ==>
          exists r | r in q.priceRanges :: AtLeastAsked(p.price, Some(r.min)) && AtMostAsked(p.price, r.max))
  }

  /** Everything the visitor asked for, at once. */
  ghost predicate PropertyFits(q: Query, p: Property) {
    Describes(q, p) && PropertyOffers(q, p) && AtPlaces(q, p.city, LocalitiesOf(p))
  }

  lemma BedroomsIff(bedrooms: Option<int>, wanted: Option<Bedrooms>)
    ensures HasBedrooms(bedrooms, wanted) <==> BedroomsAsked(bedrooms, wanted)
  {}

  lemma PassesIff(q: Query, p: Property, locality: Option<string>)
    ensures PassesFilters(q, PropertyRow(p, locality)) <==> PropertyOffers(q, p) && AtPlaces(q, p.city, [locality])
  {
    AtPlaceIff(q, p.city, locality);
    ConditionIff(q, p);
    BedroomsIff(if p.details.Some? then Some(p.details.value.bedrooms) else None, q.bedrooms);
    FacingIff(q, DetailsOf(p));
    FurnishingIff(q, DetailsOf(p));
    AgeIff(q, DetailsOf(p));
  }

  lemma DescribesIff(q: Query, p: Property, locality: Option<string>)
    ensures PropertyRowMatches(q, PropertyRow(p, locality)) <==> Describes(q, p) && PassesFilters(q, PropertyRow(p, locality))
  {
    LikeIff(p.title, q.name);
    LikeIff(p.code, q.name);
    LikeIff(p.city, q.name);
  }

  /** Any one of the localities will do. */
  lemma SomePlace(q: Query, city: string, localities: seq<Option<string>>)
    requires localities != []
    ensures AtPlaces(q, city, localities) <==> exists l | l in localities :: AtPlaces(q, city, [l])
  {
    forall l | l in localities && AtPlaces(q, city, [l]) ensures AtPlaces(q, city, localities) {
      if x :| x in [l] && x.Some? && NamesPlace(x.value, q.location) { assert x == l; }
    }
    if AtPlaces(q, city, localities) {
      var l := if exists x :: x in localities && x.Some? && NamesPlace(x.value, q.location)
               then var x :| x in localities && x.Some? && NamesPlace(x.value, q.location); x
               else localities[0];
      assert [l][0] == l && l in [l];
      assert AtPlaces(q, city, [l]);
    }
  }

  /**
   Though the filters look at joined rows, a property is found exactly when it fits: it is public and
   offers everything asked for, at the city or at any of its localities.
   */
  lemma PropertyMatchesIff(q: Query, p: Property)
    ensures PropertyMatches(q, p) <==> PropertyFits(q, p)
  {
    SomePlace(q, p.city, LocalitiesOf(p));
    forall locality
      ensures PropertyRowMatches(q, PropertyRow(p, locality))
              <==> Describes(q, p) && PropertyOffers(q, p) && AtPlaces(q, p.city, [locality])
    {
      PassesIff(q, p, locality);
      DescribesIff(q, p, locality);
    }
    if row :| row in JoinRows(p) && PropertyRowMatches(q, row) {
      JoinRowsAre(p, row);
      assert row == PropertyRow(p, row.locality);
    }
    if locality :| locality in LocalitiesOf(p) && AtPlaces(q, p.city, [locality]) {
      JoinRowsAre(p, PropertyRow(p, locality));
    }
  }

  // ----- Projects and their units -----

  ghost predicate ProjectFits(q: Query, p: Project) {
    && p.status in {Published, Booked} && p.projectType in {"apartment", "villa", "plot"}
    && (q.condition == Some(Resale) ==> q.mode == Some(Rent))
    && (q.propertyType != "" ==> q.propertyType == p.projectType)
    && (Trim(q.name) != "" ==> ProjectNamed(p, Trim(q.name)))
    && AtPlaces(q, p.city, [p.sublocation])
    && ((forall a | a in q.ages :: a == "")
        || ((exists a | a in q.ages :: Slugs.Lower(a) == "new")
            && p.possessionStatus in {"new_launch", "under_construction", "ready_to_move"}))
  }

  ghost predicate ProjectNamed(p: Project, words: string) {
    || HasText(p.name, words) || HasText(p.code, words) || HasText(p.builder, words) || HasText(p.city, words)
    || (p.sublocation.Some? && HasText(p.sublocation.value, words))
  }

  ghost predicate UnitFits(q: Query, p: Project, u: Unit) {
    var price := if q.mode == Some(Rent) then u.monthlyRent else u.price;
    && (u.available || p.status == Booked)
    && (u.mode == Rent <==> q.mode == Some(Rent))
    && AtLeastAsked(price, q.minPrice) && AtMostAsked(price, q.maxPrice)
    && AtLeastAsked(u.area, q.minArea) && AtMostAsked(u.area, q.maxArea)
    && BedroomsAsked(u.bedrooms, q.bedrooms)
    && UnitFaces(q, u) && UnitFurnished(q, u)
  }

  ghost predicate UnitFaces(q: Query, u: Unit) {
    || (forall f | f in q.facings :: f == "")
    || (exists f | f in q.facings :: f != "" && u.facing == Some(Underscored(Slugs.Lower(f))))
  }

  ghost predicate AskedExactly(values: seq<string>, choice: string) {
    exists v | v in values :: Slugs.Lower(v) == choice
  }

  ghost predicate UnitFurnished(q: Query, u: Unit) {
    || (!AskedExactly(q.furnishings, "furnished") && !AskedExactly(q.furnishings, "unfurnished")
        && !AskedExactly(q.furnishings, "semi"))
    || (AskedExactly(q.furnishings, "furnished") && u.furnishedStatus == Some("fully_furnished"))
    || (AskedExactly(q.furnishings, "unfurnished") && u.furnishedStatus == Some("unfurnished"))
    || (AskedExactly(q.furnishings, "semi") && u.furnishedStatus == Some("semi_furnished"))
  }

  lemma UnitFacesIff(q: Query, u: Unit)
    ensures UnitFacings(q) == {} || (u.facing.Some? && u.facing.value in UnitFacings(q)) <==> UnitFaces(q, u)
  {
    forall f | f in q.facings && f != "" ensures Underscored(Slugs.Lower(f)) in UnitFacings(q) {}
  }

  lemma UnitFurnishedIff(q: Query, u: Unit)
    ensures UnitFurnishings(q) == {} || (u.furnishedStatus.Some? && u.furnishedStatus.value in UnitFurnishings(q))
            <==> UnitFurnished(q, u)
  {
    var names := UnitFurnishings(q);
    forall f | f in q.furnishings && FurnishingName(Slugs.Lower(f)).Some?
      ensures FurnishingName(Slugs.Lower(f)).value in names
    {}
    NamesDiffer();
    assert "fully_furnished" in names <==> AskedExactly(q.furnishings, "furnished");
    assert "unfurnished" in names <==> AskedExactly(q.furnishings, "unfurnished");
    assert "semi_furnished" in names <==> AskedExactly(q.furnishings, "semi");
    assert names <= {"fully_furnished", "unfurnished", "semi_furnished"};
  }

  lemma NamesDiffer()
    ensures "fully_furnished" != "unfurnished" && "fully_furnished" != "semi_furnished" && "unfurnished" != "semi_furnished"
    ensures "furnished" != "unfurnished" && "furnished" != "semi" && "unfurnished" != "semi"
  {
    assert |"fully_furnished"| == 15 && |"unfurnished"| == 11 && |"semi_furnished"| == 14;
    assert |"furnished"| == 9 && |"semi"| == 4;
  }

  lemma ProjectNamedIff(p: Project, words: string)
    ensures NamesProject(words, p) <==> ProjectNamed(p, words)
  {
    LikeIff(p.name, words);
    LikeIff(p.code, words);
    LikeIff(p.builder, words);
    LikeIff(p.city, words);
    if p.sublocation.Some? { LikeIff(p.sublocation.value, words); }
  }

  lemma AgeOfProjectIff(q: Query, p: Project)
    ensures PassesAge(q, p)
            <==> (forall a | a in q.ages :: a == "")
                 || ((exists a | a in q.ages :: Slugs.Lower(a) == "new")
                     && p.possessionStatus in {"new_launch", "under_construction", "ready_to_move"})
  {
    var ages := set a | a in q.ages && a != "" :: Slugs.Lower(a);
    forall a | a in q.ages && a != "" ensures Slugs.Lower(a) in ages {}
  }

  lemma ProjectFitsIff(q: Query, p: Project)
    ensures ProjectFits(q, p)
            <==> && VisibleProject(p.status) && p.projectType in PROJECT_TYPES
                 && !(q.mode != Some(Rent) && q.condition == Some(Resale))
                 && (q.propertyType != "" ==> p.projectType == q.propertyType)
                 && AtPlace(q, p.city, p.sublocation)
                 && (Trim(q.name) != "" ==> NamesProject(Trim(q.name), p))
                 && PassesAge(q, p)
  {
    AgeOfProjectIff(q, p);
    AtPlaceIff(q, p.city, p.sublocation);
    ProjectNamedIff(p, Trim(q.name));
  }

  lemma UnitFitsIff(q: Query, p: Project, u: Unit)
    ensures UnitFits(q, p, u)
            <==> && OnOffer(q, p, u) && PassesUnitDetails(q, u)
                 && InRange(UnitPrice(q, u), q.minPrice, q.maxPrice) && InRange(u.area, q.minArea, q.maxArea)
                 && HasBedrooms(u.bedrooms, q.bedrooms)
  {
    UnitFacesIff(q, u);
    UnitFurnishedIff(q, u);
    BedroomsIff(u.bedrooms, q.bedrooms);
  }

  /** A unit passes all filters at once exactly when it fits, in a project that fits. */
  lemma UnitMatchesIff(q: Query, p: Project, u: Unit)
    ensures UnitRowMatches(q, UnitRow(p, u)) <==> ProjectFits(q, p) && UnitFits(q, p, u)
  {
    ProjectFitsIff(q, p);
    UnitFitsIff(q, p, u);
  }

  /**
   So the feed holds the listing of exactly those properties that fit, and of those projects that fit
   and have a unit that does.
   */
  lemma FeedIsWhatFits(q: Query, db: Database, l: Listing)
    requires DistinctIds(db)
    ensures l in Feed(q, db)
            <==> || (exists p | p in db.properties :: PropertyFits(q, p) && l == PropertyListing(q, p))
                 || (exists p | p in db.projects :: ProjectFits(q, p) && (exists u | u in p.units :: UnitFits(q, p, u))
                       && l == ProjectListing(q, p))
  {
    FeedMembers(q, db, l);
    forall p ensures PropertyMatches(q, p) <==> PropertyFits(q, p) { PropertyMatchesIff(q, p); }
    forall p ensures MatchingUnits(q, p) != [] <==> ProjectFits(q, p) && exists u | u in p.units :: UnitFits(q, p, u) {
      ProjectMatchesIff(q, p);
    }
  }

  lemma ProjectMatchesIff(q: Query, p: Project)
    ensures MatchingUnits(q, p) != [] <==> ProjectFits(q, p) && exists u | u in p.units :: UnitFits(q, p, u)
  {
    MatchingUnitsMatch(q, p, p.units);
    forall u ensures u in MatchingUnits(q, p) <==> u in p.units && ProjectFits(q, p) && UnitFits(q, p, u) {
      UnitMatchesIff(q, p, u);
    }
    if MatchingUnits(q, p) != [] { assert MatchingUnits(q, p)[0] in MatchingUnits(q, p); }
  }
}
