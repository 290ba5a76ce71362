/**
 Locality listing paths: the parser that infers a listing rule from a path, and the printer
 behind the locality sitemap.
 */
module ListingPath {
  import opened Common
  import Slugs

  /** Rows of the place tables, together with the slug of their name. */
  datatype City = City(id: nat, name: string, slug: string)
  datatype Locality = Locality(id: nat, cityId: nat, name: string, slug: string)

  function LoadCity(id: nat, name: string): City {
    City(id, name, Slugs.Slug(name))
  }

  function LoadLocality(id: nat, cityId: nat, name: string): Locality {
    Locality(id, cityId, name, Slugs.Slug(name))
  }

  /** Property types and the words they have in URLs. */
  datatype TypeSlug = TypeSlug(key: string, slug: string)

  const TYPE_SLUGS := [
    TypeSlug("apartment", "apartments"),
    TypeSlug("villa", "villas"),
    TypeSlug("individual_portion", "independent-houses"),
    TypeSlug("plot", "plots"),
    TypeSlug("farmland", "farmlands"),
    TypeSlug("commercial", "commercial-spaces"),
    TypeSlug("industrial", "industrial-spaces"),
    TypeSlug("coworking", "coworking")
  ]

  /** A listing rule; no type means every type. */
  datatype Rule = Rule(propertyType: Option<string>, rent: bool, city: City, locality: Option<Locality>,
                       bedrooms: Option<nat>)

  // ----- Strings -----

  predicate EndsWith(s: string, suffix: string) {
    |suffix| <= |s| && s[|s| - |suffix|..] == suffix
  }

  function DigitRun(s: string): (n: nat)
    ensures n <= |s|
  {
    if s != "" && '0' <= s[0] <= '9' then 1 + DigitRun(s[1..]) else 0
  }

  function Number(digits: string): nat
    requires forall i | 0 <= i < |digits| :: '0' <= digits[i] <= '9'
  {
    if digits == "" then 0 else 10 * Number(digits[..|digits| - 1]) + (digits[|digits| - 1] - '0') as nat
  }

  lemma {:induction false} DigitRunIsDigits(s: string)
    ensures forall i | 0 <= i < DigitRun(s) :: '0' <= s[i] <= '9'
    decreases |s|
  {
    if s != "" && '0' <= s[0] <= '9' {
      DigitRunIsDigits(s[1..]);
      forall i | 0 <= i < DigitRun(s) ensures '0' <= s[i] <= '9' { if i > 0 { assert s[i] == s[1..][i - 1]; } }
    }
  }

  // ----- Parsing -----

  function Intent(rent: bool): string {
    if rent then "-for-rent-in-" else "-for-sale-in-"
  }

  predicate IntentAt(s: string, i: nat) {
    i + 13 < |s| && (s[i..i + 13] == Intent(true) || s[i..i + 13] == Intent(false))
  }

  /** The first place, from i on, where an intent stands with something after it. */
  function FindIntent(s: string, i: nat): (r: Option<nat>)
    ensures r.Some? ==> i <= r.value && IntentAt(s, r.value) && forall j | i <= j < r.value :: !IntentAt(s, j)
    ensures r.None? ==> forall j: nat | i <= j :: !IntentAt(s, j)
    decreases |s| - i
  {
    if i + 13 >= |s| then None
    else if IntentAt(s, i) then Some(i)
    else FindIntent(s, i + 1)
  }

  datatype Parts = Parts(kind: string, rent: bool, place: string)

  /** The shortest possible type, the intent, and all the rest. */
  function Split(s: string): Option<Parts> {
    match FindIntent(s, 1)
    case None => None
    case Some(i) => Some(Parts(s[..i], s[i..i + 13] == Intent(true), s[i + 13..]))
  }

  function TypeOf(types: seq<TypeSlug>, slug: string): (r: Option<string>)
    ensures r.Some? ==> exists i | 0 <= i < |types| :: types[i].slug == slug && types[i].key == r.value
  {
    if types == [] then None
    else if types[0].slug == slug then Some(types[0].key)
    else TypeOf(types[1..], slug)
  }

  predicate NamesCity(place: string, city: City) {
    place == city.slug || EndsWith(place, "-" + city.slug)
  }

  function FindCity(cities: seq<City>, place: string): (r: Option<nat>)
    ensures r.Some? ==> r.value < |cities| && NamesCity(place, cities[r.value])
                        && forall i | 0 <= i < r.value :: !NamesCity(place, cities[i])
    ensures r.None? ==> forall i | 0 <= i < |cities| :: !NamesCity(place, cities[i])
  {
    if cities == [] then None
    else if NamesCity(place, cities[0]) then Some(0)
    else match FindCity(cities[1..], place)
         case None => None
         case Some(i) => Some(i + 1)
  }

  function FindLocality(localities: seq<Locality>, cityId: nat, slug: string): (r: Option<Locality>)
    ensures r.Some? ==> r.value in localities && r.value.cityId == cityId && r.value.slug == slug
    ensures r.None? ==> forall l | l in localities :: l.cityId != cityId || l.slug != slug
  {
    if localities == [] then None
    else if localities[0].cityId == cityId && localities[0].slug == slug then Some(localities[0])
    else FindLocality(localities[1..], cityId, slug)
  }

  function LocalitySlug(place: string, city: City): string
    requires NamesCity(place, city)
  {
    if place == city.slug then "" else place[..|place| - |city.slug| - 1]
  }

  function ParsePlace(types: seq<TypeSlug>, parts: Parts, bedrooms: Option<nat>, cities: seq<City>,
                      localities: seq<Locality>): Option<Rule>
  {
    var kind := if parts.kind == "properties" then Some("") else TypeOf(types, parts.kind);
    var found := FindCity(cities, parts.place);
    if kind.None? || found.None? then None
    else
      var city := cities[found.value];
      var locSlug := LocalitySlug(parts.place, city);
      var sub := if locSlug == "" then None else FindLocality(localities, city.id, locSlug);
      if locSlug != "" && sub.None? then None
      else Some(Rule(if kind.value == "" then None else kind, parts.rent, city, sub, bedrooms))
  }

  /** The rule a path stands for, given the type words and the active cities and localities. */
  function InferRule(path: string, types: seq<TypeSlug>, cities: seq<City>, localities: seq<Locality>): Option<Rule> {
    if path == "" then None
    else
      var s := path[1..];
      var d := DigitRun(s);
      DigitRunIsDigits(s);
      var prefixed := if d > 0 && "-bhk-" <= s[d..] then Split(s[d + 5..]) else None;
      if prefixed.Some? then ParsePlace(types, prefixed.value, Some(Number(s[..d])), cities, localities)
      else
        var plain := Split(s);
        if plain.Some? then ParsePlace(types, plain.value, None, cities, localities) else None
  }

  // ----- Printing -----

  function PlaceText(city: City, locality: Option<Locality>): string {
    (if locality.Some? && locality.value.name != "" then locality.value.slug + "-" else "") + city.slug
  }

  function Print(typeSlug: string, rent: bool, city: City, locality: Option<Locality>): string {
    "/" + (typeSlug + Intent(rent) + PlaceText(city, locality))
  }

  lemma PrintTail(typeSlug: string, rent: bool, city: City, locality: Option<Locality>)
    ensures var p := Print(typeSlug, rent, city, locality);
            p != "" && p[0] == '/' && p[1..] == typeSlug + Intent(rent) + PlaceText(city, locality)
  {}

  // ----- Printing, then parsing -----

  predicate Letter(c: char) {
    'a' <= c <= 'z'
  }

  /** Starts with a letter, and no dash in it could begin an intent. */
  predicate PlainType(t: string) {
    t != "" && Letter(t[0]) && t[|t| - 1] != '-' && forall i | 0 <= i < |t| - 1 :: t[i] == '-' ==> t[i + 1] != 'f'
  }

  ghost predicate GoodTypes(types: seq<TypeSlug>) {
    && (forall i | 0 <= i < |types| :: PlainType(types[i].slug) && types[i].slug != "properties" && types[i].key != "")
    && (forall i, j | 0 <= i < j < |types| :: types[i].slug != types[j].slug && types[i].key != types[j].key)
  }

  lemma WordIsPlain(i: nat)
    requires i < 8
    ensures PlainType(TYPE_SLUGS[i].slug)
  {}

  /** Lengths and first letters tell the words in use apart. */
  lemma WordShape(i: nat)
    requires i < 8
    ensures |TYPE_SLUGS[i].slug| == [10, 6, 18, 5, 9, 17, 17, 9][i] && TYPE_SLUGS[i].slug[0] == "avipfcic"[i]
  {}

  lemma KeyShape(i: nat)
    requires i < 8
    ensures |TYPE_SLUGS[i].key| == [9, 5, 18, 4, 8, 10, 10, 9][i] && TYPE_SLUGS[i].key[0] == "avipfcic"[i]
  {}

  /** The words in use are fit for parsing. */
  lemma TypeSlugsAreGood()
    ensures GoodTypes(TYPE_SLUGS)
  {
    forall i | 0 <= i < |TYPE_SLUGS|
      ensures PlainType(TYPE_SLUGS[i].slug) && TYPE_SLUGS[i].slug != "properties" && TYPE_SLUGS[i].key != ""
    {
      WordIsPlain(i);
      WordShape(i);
      KeyShape(i);
    }
    forall i, j | 0 <= i < j < |TYPE_SLUGS|
      ensures TYPE_SLUGS[i].slug != TYPE_SLUGS[j].slug && TYPE_SLUGS[i].key != TYPE_SLUGS[j].key
    {
      WordShape(i);
      WordShape(j);
      KeyShape(i);
      KeyShape(j);
    }
  }

  lemma {:induction false} TypeFound(types: seq<TypeSlug>, i: nat)
    requires i < |types| && GoodTypes(types)
    ensures TypeOf(types, types[i].slug) == Some(types[i].key)
    decreases |types|
  {
    if i > 0 { TypeFound(types[1..], i - 1); }
  }

  lemma NoIntentInsideType(t: string, rest: string, i: nat)
    requires PlainType(t) && i < |t|
    ensures !IntentAt(t + rest, i)
  {
    var s := t + rest;
    assert i + 13 < |s| ==> s[i..i + 13][0] == s[i] && s[i..i + 13][1] == s[i + 1];
    assert Intent(true)[0] == Intent(false)[0] == '-' && Intent(true)[1] == Intent(false)[1] == 'f';
  }

  lemma SplitPrinted(t: string, rent: bool, place: string)
    requires PlainType(t) && place != ""
    ensures Split(t + Intent(rent) + place) == Some(Parts(t, rent, place))
  {
    var s := t + Intent(rent) + place;
    var rest := Intent(rent) + place;
    assert s == t + rest;
    forall i | 1 <= i < |t| ensures !IntentAt(s, i) { NoIntentInsideType(t, rest, i); }
    assert s[|t|..|t| + 13] == Intent(rent) && s[..|t|] == t && s[|t| + 13..] == place;
    assert IntentAt(s, |t|);
    assert Intent(true)[5] != Intent(false)[5];
  }

  /** No city slug equals another, or ends another after a dash. */
  ghost predicate Unambiguous(cities: seq<City>) {
    forall i, j | 0 <= i < |cities| && 0 <= j < |cities| && i != j :: !NamesCity(cities[j].slug, cities[i])
  }

  lemma SuffixOfSuffix(place: string, a: string, b: string)
    requires EndsWith(place, a) && EndsWith(place, b) && |b| <= |a|
    ensures EndsWith(a, b)
  {
    assert place[|place| - |a|..][|a| - |b|..] == place[|place| - |b|..];
  }

  /** If a place names two cities, one of them names the other. */
  lemma RivalsNameEachOther(place: string, c: City, d: City)
    requires NamesCity(place, c) && NamesCity(place, d)
    ensures NamesCity(c.slug, d) || NamesCity(d.slug, c)
  {
    var a, b := c.slug, d.slug;
    if place != a && place != b {
      var da, db := "-" + a, "-" + b;
      if |b| <= |a| {
        SuffixOfSuffix(place, da, db);
        if |b| < |a| {
          assert da[|da| - |db|..] == a[|a| - |db|..];
        } else {
          assert da == db;
          assert da[1..] == a && db[1..] == b;
        }
      } else {
        SuffixOfSuffix(place, db, da);
        assert db[|db| - |da|..] == b[|b| - |da|..];
      }
    }
  }

  lemma PrintedPlaceNames(l: string, city: City)
    ensures NamesCity(l + "-" + city.slug, city)
    ensures l + "-" + city.slug != city.slug
    ensures LocalitySlug(l + "-" + city.slug, city) == l
  {
    var c := city.slug;
    var place := l + "-" + c;
    assert place[|l|..] == "-" + c;
    assert |place| == |l| + 1 + |c|;
    assert place[..|l|] == l;
  }

  lemma OnlyCity(cities: seq<City>, j: nat, place: string)
    requires Unambiguous(cities) && j < |cities| && NamesCity(place, cities[j])
    ensures FindCity(cities, place) == Some(j)
  {
    forall i | 0 <= i < |cities| && i != j ensures !NamesCity(place, cities[i]) {
      if NamesCity(place, cities[i]) { RivalsNameEachOther(place, cities[j], cities[i]); }
    }
  }

  /** Slugs are those of the names, so only a named locality has one. */
  ghost predicate Loaded(localities: seq<Locality>) {
    forall l | l in localities :: l == LoadLocality(l.id, l.cityId, l.name)
  }

  lemma NamedLocality(localities: seq<Locality>, l: Locality)
    requires Loaded(localities) && l in localities && l.slug != ""
    ensures l.name != ""
  {}

  lemma NamelessLocality(localities: seq<Locality>, l: Locality)
    requires Loaded(localities) && l in localities && l.name == ""
    ensures l.slug == ""
  {}

  /** What the parser makes of a printed path: the intent is found, and the place is looked up. */
  lemma InferPrinted(types: seq<TypeSlug>, cities: seq<City>, localities: seq<Locality>, kind: string, rent: bool, city: City,
                     locality: Option<Locality>)
    requires PlainType(kind)
    ensures var place := PlaceText(city, locality);
            InferRule(Print(kind, rent, city, locality), types, cities, localities)
            == if place == "" then None else ParsePlace(types, Parts(kind, rent, place), None, cities, localities)
  {
    var place := PlaceText(city, locality);
    PrintTail(kind, rent, city, locality);
    assert DigitRun(kind + Intent(rent) + place) == 0 by { assert (kind + Intent(rent) + place)[0] == kind[0]; }
    if place == "" {
      SplitOfNothing(kind, rent);
      assert kind + Intent(rent) + place == kind + Intent(rent);
    } else {
      SplitPrinted(kind, rent, place);
    }
  }

  lemma SplitOfNothing(t: string, rent: bool)
    requires PlainType(t)
    ensures Split(t + Intent(rent)) == None
  {
    forall i: nat | 1 <= i ensures !IntentAt(t + Intent(rent), i) {
      if i < |t| { NoIntentInsideType(t, Intent(rent), i); }
    }
  }

  /** A printed place names its city, and what is left of it is the slug of its locality. */
  lemma PrintedPlace(city: City, locality: Option<Locality>)
    requires locality.Some? && locality.value.name == "" ==> locality.value.slug == ""
    ensures var place := PlaceText(city, locality);
            NamesCity(place, city) && LocalitySlug(place, city) == if locality.Some? then locality.value.slug else ""
  {
    if locality.Some? && locality.value.name != "" {
      PrintedPlaceNames(locality.value.slug, city);
    } else {
      assert PlaceText(city, locality) == city.slug;
    }
  }

  /** Looking a locality up by its slug finds this one exactly when no earlier row has the same city and slug. */
  lemma {:induction false} FirstLocality(localities: seq<Locality>, m: nat)
    requires m < |localities| && forall i | 0 <= i < m :: localities[i] != localities[m]
    ensures FindLocality(localities, localities[m].cityId, localities[m].slug) == Some(localities[m])
            <==> forall i | 0 <= i < m :: localities[i].cityId != localities[m].cityId
                                          || localities[i].slug != localities[m].slug
  {
    if m > 0 {
      var tail := localities[1..];
      assert tail[m - 1] == localities[m] && forall i | 0 <= i < m - 1 :: tail[i] == localities[i + 1];
      FirstLocality(tail, m - 1);
    }
  }

  // ----- Paths, with and without a bedroom count -----

  function Numeral(n: nat): string {
    if n < 10 then [n as char + '0'] else Numeral(n / 10) + [(n % 10) as char + '0']
  }

  lemma {:induction false} NumeralReads(n: nat)
    ensures Numeral(n) != "" && forall i | 0 <= i < |Numeral(n)| :: '0' <= Numeral(n)[i] <= '9'
    ensures Number(Numeral(n)) == n
  {
    if n >= 10 {
      NumeralReads(n / 10);
      assert Numeral(n)[..|Numeral(n)| - 1] == Numeral(n / 10);
    } else {
      assert Numeral(n)[..0] == "";
    }
  }

  lemma {:induction false} DigitsRun(digits: string, rest: string)
    requires (forall i | 0 <= i < |digits| :: '0' <= digits[i] <= '9') && rest != "" && rest[0] == '-'
    ensures DigitRun(digits + rest) == |digits|
    decreases |digits|
  {
    if digits == "" {
      assert digits + rest == rest;
    } else {
      assert (digits + rest)[1..] == digits[1..] + rest;
      DigitsRun(digits[1..], rest);
    }
  }

  /** The words of a type, or of all types. */
  function KindText(types: seq<TypeSlug>, t: Option<nat>): string
    requires t.Some? ==> t.value < |types|
  {
    if t.Some? then types[t.value].slug else "properties"
  }

  /** A listing path with everything spelled out. */
  function PathText(bedrooms: Option<nat>, kind: string, rent: bool, place: string): string {
    "/" + ((if bedrooms.Some? then Numeral(bedrooms.value) + "-bhk-" else "")
           + (kind + (if rent then "-for-rent-in-" else "-for-sale-in-") + place))
  }

  lemma PrintIsPath(typeSlug: string, rent: bool, city: City, locality: Option<Locality>)
    ensures Print(typeSlug, rent, city, locality) == PathText(None, typeSlug, rent, PlaceText(city, locality))
  {
    assert "" + (typeSlug + Intent(rent) + PlaceText(city, locality)) == typeSlug + Intent(rent) + PlaceText(city, locality);
  }

  lemma CountedTail(n: nat, rest: string)
    ensures var s := Numeral(n) + "-bhk-" + rest; var d := |Numeral(n)|;
            DigitRun(s) == d > 0 && "-bhk-" <= s[d..] && s[d + 5..] == rest && s[..d] == Numeral(n)
  {
    NumeralReads(n);
    var s := Numeral(n) + "-bhk-" + rest;
    assert s == Numeral(n) + ("-bhk-" + rest);
    DigitsRun(Numeral(n), "-bhk-" + rest);
  }

  /** What the parser makes of such a path. */
  lemma InferPath(types: seq<TypeSlug>, cities: seq<City>, localities: seq<Locality>, bedrooms: Option<nat>, kind: string,
                  rent: bool, place: string)
    requires PlainType(kind) && place != ""
    ensures InferRule(PathText(bedrooms, kind, rent, place), types, cities, localities)
            == ParsePlace(types, Parts(kind, rent, place), bedrooms, cities, localities)
  {
    var rest := kind + Intent(rent) + place;
    SplitPrinted(kind, rent, place);
    var path := PathText(bedrooms, kind, rent, place);
    match bedrooms
    case None =>
      assert path[1..] == rest && rest[0] == kind[0];
      InferUncounted(path, rest, types, cities, localities);
    case Some(n) =>
      assert path[1..] == Numeral(n) + "-bhk-" + rest;
      InferCounted(path, n, rest, types, cities, localities);
  }

  lemma InferUncounted(path: string, rest: string, types: seq<TypeSlug>, cities: seq<City>, localities: seq<Locality>)
    requires path != "" && path[1..] == rest && rest != "" && Letter(rest[0]) && Split(rest).Some?
    ensures InferRule(path, types, cities, localities) == ParsePlace(types, Split(rest).value, None, cities, localities)
  {
    assert DigitRun(rest) == 0;
  }

  lemma InferCounted(path: string, n: nat, rest: string, types: seq<TypeSlug>, cities: seq<City>, localities: seq<Locality>)
    requires path != "" && path[1..] == Numeral(n) + "-bhk-" + rest && Split(rest).Some?
    ensures InferRule(path, types, cities, localities) == ParsePlace(types, Split(rest).value, Some(n), cities, localities)
  {
    CountedTail(n, rest);
    NumeralReads(n);
  }

  /** No other row gets in the way: the place has a text, and no earlier city or locality answers to it. */
  ghost predicate FirstToAnswer(cities: seq<City>, localities: seq<Locality>, j: nat, m: Option<nat>)
    requires j < |cities| && (m.Some? ==> m.value < |localities|)
  {
    var place := PlaceText(cities[j], if m.Some? then Some(localities[m.value]) else None);
    && place != ""
    && (forall i | 0 <= i < j :: !NamesCity(place, cities[i]))
    && (m.Some? ==>
          && localities[m.value].slug != ""
          && forall i | 0 <= i < m.value ::
               localities[i].cityId != cities[j].id || localities[i].slug != localities[m.value].slug)
  }

  /**
   A printed locality path parses back to the type, intent, city and locality it was printed from
   exactly when no earlier city equals or ends its place, and no earlier locality of the city has
   the same slug.  Rows are told apart by their ids.
   */
  lemma ParsePrintIff(types: seq<TypeSlug>, cities: seq<City>, localities: seq<Locality>, j: nat, t: nat, rent: bool,
                      m: Option<nat>)
    requires GoodTypes(types) && Loaded(localities) && t < |types|
    requires j < |cities| && forall i | 0 <= i < j :: cities[i] != cities[j]
    requires m.Some? ==> m.value < |localities| && localities[m.value].cityId == cities[j].id
                         && forall i | 0 <= i < m.value :: localities[i] != localities[m.value]
    ensures var locality := if m.Some? then Some(localities[m.value]) else None;
            InferRule(Print(types[t].slug, rent, cities[j], locality), types, cities, localities)
            == Some(Rule(Some(types[t].key), rent, cities[j], locality, None))
            <==> FirstToAnswer(cities, localities, j, m)
  {
    var locality := if m.Some? then Some(localities[m.value]) else None;
    var place := PlaceText(cities[j], locality);
    InferPrinted(types, cities, localities, types[t].slug, rent, cities[j], locality);
    if place != "" {
      ParsePlaceIff(types, cities, localities, None, j, Some(t), rent, m);
    }
  }

  /** The same for every path: of one type or of all, for sale or for rent, with or without a bedroom count. */
  lemma ParsePathIff(types: seq<TypeSlug>, cities: seq<City>, localities: seq<Locality>, bedrooms: Option<nat>, j: nat,
                     t: Option<nat>, rent: bool, m: Option<nat>)
    requires GoodTypes(types) && Loaded(localities) && (t.Some? ==> t.value < |types|)
    requires j < |cities| && forall i | 0 <= i < j :: cities[i] != cities[j]
    requires m.Some? ==> m.value < |localities| && localities[m.value].cityId == cities[j].id
                         && forall i | 0 <= i < m.value :: localities[i] != localities[m.value]
    ensures var locality := if m.Some? then Some(localities[m.value]) else None;
            var place := PlaceText(cities[j], locality);
            place != "" ==>
              (InferRule(PathText(bedrooms, KindText(types, t), rent, place), types, cities, localities)
               == Some(Rule(if t.Some? then Some(types[t.value].key) else None, rent, cities[j], locality, bedrooms))
               <==> FirstToAnswer(cities, localities, j, m))
  {
    var place := PlaceText(cities[j], if m.Some? then Some(localities[m.value]) else None);
    if place != "" {
      InferPath(types, cities, localities, bedrooms, KindText(types, t), rent, place);
      ParsePlaceIff(types, cities, localities, bedrooms, j, t, rent, m);
    }
  }

  lemma ParsePlaceIff(types: seq<TypeSlug>, cities: seq<City>, localities: seq<Locality>, bedrooms: Option<nat>, j: nat,
                      t: Option<nat>, rent: bool, m: Option<nat>)
    requires GoodTypes(types) && Loaded(localities) && (t.Some? ==> t.value < |types|)
    requires j < |cities| && forall i | 0 <= i < j :: cities[i] != cities[j]
    requires m.Some? ==> m.value < |localities| && localities[m.value].cityId == cities[j].id
                         && forall i | 0 <= i < m.value :: localities[i] != localities[m.value]
    requires PlaceText(cities[j], if m.Some? then Some(localities[m.value]) else None) != ""
    ensures var locality := if m.Some? then Some(localities[m.value]) else None;
            ParsePlace(types, Parts(KindText(types, t), rent, PlaceText(cities[j], locality)), bedrooms, cities, localities)
            == Some(Rule(if t.Some? then Some(types[t.value].key) else None, rent, cities[j], locality, bedrooms))
            <==> FirstToAnswer(cities, localities, j, m)
  {
    var locality := if m.Some? then Some(localities[m.value]) else None;
    var place := PlaceText(cities[j], locality);
    if t.Some? { TypeFound(types, t.value); }
    if m.Some? {
      if localities[m.value].name == "" { NamelessLocality(localities, localities[m.value]); }
      FirstLocality(localities, m.value);
    }
    PrintedPlace(cities[j], locality);
    var k := FindCity(cities, place).value;
    if k < j {
      assert NamesCity(place, cities[k]);
    } else {
      assert k == j;
    }
  }

  /** A locality is identified by its slug within its city. */
  ghost predicate DistinctLocalities(localities: seq<Locality>) {
    forall l, m | l in localities && m in localities && l.cityId == m.cityId && l.slug == m.slug :: l == m
  }

  lemma FirstIndex(localities: seq<Locality>, l: Locality) returns (m: nat)
    requires l in localities
    ensures m < |localities| && localities[m] == l && forall i | 0 <= i < m :: localities[i] != l
  {
    m := 0;
    while localities[m] != l
      invariant m < |localities| && l in localities[m..]
      invariant forall i | 0 <= i < m :: localities[i] != l
      decreases |localities| - m
    {
      m := m + 1;
    }
  }

  /** So every page parses back when no city slug equals or ends another and localities are told apart by their slugs. */
  lemma ParsePrint(types: seq<TypeSlug>, cities: seq<City>, localities: seq<Locality>, j: nat, t: nat, rent: bool,
                   locality: Option<Locality>)
    requires GoodTypes(types) && Unambiguous(cities) && DistinctLocalities(localities) && Loaded(localities)
    requires j < |cities| && t < |types| && cities[j].slug != ""
    requires locality.Some? ==> locality.value in localities && locality.value.cityId == cities[j].id
                                && locality.value.slug != ""
    ensures InferRule(Print(types[t].slug, rent, cities[j], locality), types, cities, localities)
            == Some(Rule(Some(types[t].key), rent, cities[j], locality, None))
  {
    var m: Option<nat> := None;
    if locality.Some? {
      var first := FirstIndex(localities, locality.value);
      m := Some(first);
      NamedLocality(localities, locality.value);
    }
    PrintedPlace(cities[j], locality);
    OnlyCity(cities, j, PlaceText(cities[j], locality));
    ParsePrintIff(types, cities, localities, j, t, rent, m);
  }

  /** A city that comes first takes over the pages of one whose slug it ends. */
  lemma SuffixCityTakesOver(types: seq<TypeSlug>, localities: seq<Locality>, first: City, second: City, t: nat, rent: bool)
    requires GoodTypes(types) && Loaded(localities) && t < |types|
    requires first != second && NamesCity(second.slug, first)
    ensures InferRule(Print(types[t].slug, rent, second, None), types, [first, second], localities)
            != Some(Rule(Some(types[t].key), rent, second, None, None))
  {
    var cities := [first, second];
    assert PlaceText(second, None) == second.slug;
    assert NamesCity(PlaceText(cities[1], None), cities[0]);
    ParsePrintIff(types, cities, localities, 1, t, rent, None);
  }

  /** For instance a city named with two words after one named with the second of them... */
  lemma SecondWordTakesOver(localities: seq<Locality>, first: string, second: string, t: nat, rent: bool)
    requires Loaded(localities) && t < |TYPE_SLUGS| && Slugs.Word(first) && Slugs.Word(second)
    ensures var short, long := LoadCity(1, second), LoadCity(2, first + " " + second);
            && long.slug == Slugs.Lower(first) + "-" + Slugs.Lower(second)
            && InferRule(Print(TYPE_SLUGS[t].slug, rent, long, None), TYPE_SLUGS, [short, long], localities)
               != Some(Rule(Some(TYPE_SLUGS[t].key), rent, long, None, None))
  {
    var short, long := LoadCity(1, second), LoadCity(2, first + " " + second);
    Slugs.SlugOfWord(second);
    Slugs.SlugOfTwoWords(first, second);
    PrintedPlaceNames(Slugs.Lower(first), short);
    TypeSlugsAreGood();
    SuffixCityTakesOver(TYPE_SLUGS, localities, short, long, t, rent);
  }

  /** ...such as New York, when York was entered before it. */
  lemma NewYorkIsLost(localities: seq<Locality>, t: nat, rent: bool)
    requires Loaded(localities) && t < |TYPE_SLUGS|
    ensures var york, newYork := LoadCity(1, "York"), LoadCity(2, "New York");
            && newYork.slug == "new-york"
            && InferRule(Print(TYPE_SLUGS[t].slug, rent, newYork, None), TYPE_SLUGS, [york, newYork], localities)
               != Some(Rule(Some(TYPE_SLUGS[t].key), rent, newYork, None, None))
  {
    assert Slugs.Lower("New") == "new" && Slugs.Lower("York") == "york";
    assert "New" + " " + "York" == "New York" && "new" + "-" + "york" == "new-york";
    SecondWordTakesOver(localities, "New", "York", t, rent);
  }

  // ----- Parsing, then printing -----

  lemma SplitRejoins(s: string)
    requires Split(s).Some?
    ensures var p := Split(s).value; s == p.kind + Intent(p.rent) + p.place && p.place != ""
  {
    var i := FindIntent(s, 1).value;
    assert s == s[..i] + s[i..i + 13] + s[i + 13..];
  }

  ghost predicate LoadedCities(cities: seq<City>) {
    forall c | c in cities :: c == LoadCity(c.id, c.name)
  }

  lemma NoLeadingDash(name: string)
    ensures Slugs.Slug(name) != "" ==> Slugs.Slug(name)[0] != '-'
  {
    Slugs.SlugsAreSafe(name);
  }

  /**
   Reprinting the rule of a typed path without a bedroom count gives the path back, unless its
   place starts with a stray dash: such a path is accepted as the page of the city behind it.
   */
  lemma PrintParseIff(path: string, types: seq<TypeSlug>, cities: seq<City>, localities: seq<Locality>, t: nat)
    requires GoodTypes(types) && Loaded(localities) && LoadedCities(cities)
    requires path != "" && path[0] == '/' && InferRule(path, types, cities, localities).Some?
    requires var r := InferRule(path, types, cities, localities).value;
             r.bedrooms.None? && t < |types| && r.propertyType == Some(types[t].key)
    ensures var r := InferRule(path, types, cities, localities).value;
            Print(types[t].slug, r.rent, r.city, r.locality) == path
            <==> !("-" <= Split(path[1..]).value.place)
  {
    InferredFromParts(path, types, cities, localities);
    SplitRejoins(path[1..]);
    ReprintIff(path, Split(path[1..]).value, types, cities, localities, t);
  }

  /** A rule without a bedroom count was read from the whole path. */
  lemma InferredFromParts(path: string, types: seq<TypeSlug>, cities: seq<City>, localities: seq<Locality>)
    requires path != "" && InferRule(path, types, cities, localities).Some?
    requires InferRule(path, types, cities, localities).value.bedrooms.None?
    ensures Split(path[1..]).Some?
    ensures InferRule(path, types, cities, localities) == ParsePlace(types, Split(path[1..]).value, None, cities, localities)
  {}

  lemma ReprintIff(path: string, parts: Parts, types: seq<TypeSlug>, cities: seq<City>, localities: seq<Locality>, t: nat)
    requires GoodTypes(types) && Loaded(localities) && LoadedCities(cities)
    requires path != "" && path[0] == '/' && path[1..] == parts.kind + Intent(parts.rent) + parts.place
    requires var r := ParsePlace(types, parts, None, cities, localities);
             r.Some? && t < |types| && r.value.propertyType == Some(types[t].key)
    ensures var r := ParsePlace(types, parts, None, cities, localities).value;
            Print(types[t].slug, r.rent, r.city, r.locality) == path <==> !("-" <= parts.place)
  {
    var r := ParsePlace(types, parts, None, cities, localities).value;
    KeyDeterminesSlug(types, parts.kind, t);
    if r.locality.Some? { NamedLocality(localities, r.locality.value); }
    SamePath(path, parts, r);
    PlaceReprinted(parts.place, r.city, r.locality);
    StrayDash(parts.place, r.city, r.locality);
  }

  /** Two paths of one type and intent are equal exactly when their places are. */
  lemma SamePath(path: string, parts: Parts, r: Rule)
    requires path != "" && path[0] == '/' && path[1..] == parts.kind + Intent(parts.rent) + parts.place && r.rent == parts.rent
    ensures Print(parts.kind, r.rent, r.city, r.locality) == path <==> PlaceText(r.city, r.locality) == parts.place
  {
    PrintTail(parts.kind, r.rent, r.city, r.locality);
    SameTail(parts.kind + Intent(r.rent), parts.place, PlaceText(r.city, r.locality));
    SameHead(path, Print(parts.kind, r.rent, r.city, r.locality));
  }

  /** Slugs start with no dash, so only the city's own slug can stand behind a stray one. */
  lemma StrayDash(place: string, city: City, locality: Option<Locality>)
    requires NamesCity(place, city) && city == LoadCity(city.id, city.name)
    requires locality.Some? ==> LocalitySlug(place, city) == locality.value.slug != ""
                                && locality.value.slug == Slugs.Slug(locality.value.name)
    requires locality.None? ==> LocalitySlug(place, city) == ""
    ensures "-" <= place <==> place == "-" + city.slug
  {
    NoLeadingDash(city.name);
    if locality.Some? {
      NoLeadingDash(locality.value.name);
      assert place[0] == LocalitySlug(place, city)[0];
    } else if place != city.slug {
      var n := |place| - |city.slug| - 1;
      assert place[..n] == "" && place == place[..n] + place[n..];
    }
  }

  lemma SameHead(a: string, b: string)
    requires a != "" && b != "" && a[0] == b[0]
    ensures a == b <==> a[1..] == b[1..]
  {
    assert a == [a[0]] + a[1..] && b == [b[0]] + b[1..];
  }

  lemma SameTail(a: string, x: string, y: string)
    ensures a + x == a + y <==> x == y
  {
    assert (a + x)[|a|..] == x && (a + y)[|a|..] == y;
  }

  lemma PlaceReprinted(place: string, city: City, locality: Option<Locality>)
    requires NamesCity(place, city)
    requires locality.Some? ==> LocalitySlug(place, city) == locality.value.slug != "" && locality.value.name != ""
    requires locality.None? ==> LocalitySlug(place, city) == ""
    ensures PlaceText(city, locality) == place
            <==> place != "-" + city.slug
  {
    var c := city.slug;
    if place != c {
      var n := |place| - |c| - 1;
      assert place == place[..n] + ("-" + c);
      if locality.Some? {
        DashJoins(place[..n], c);
        assert |place| > |"-" + c|;
      } else {
        assert place == "-" + c && |place| > |c|;
      }
    } else {
      assert |"-" + c| > |place|;
    }
  }

  lemma DashJoins(a: string, b: string)
    ensures (a + "-") + b == a + ("-" + b)
  {}

  /** Keys are distinct, so the key of a rule tells the word its path used. */
  lemma KeyDeterminesSlug(types: seq<TypeSlug>, kind: string, t: nat)
    requires GoodTypes(types) && t < |types| && TypeOf(types, kind) == Some(types[t].key)
    ensures kind == types[t].slug
  {}
}
