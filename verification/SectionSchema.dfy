/**
 Structured data of a section page (photos, floor plans, amenities, locality) of a project or a
 property.  Its overrides are merged as on the main page, but offers are never stripped from it.
 */
module SectionSchema {
  import opened Common
  import opened Schema

  // ----- Merging well-formed values -----

  lemma {:induction false} DecimalInjective(m: nat, n: nat)
    ensures Decimal(m) == Decimal(n) ==> m == n
    ensures Decimal(m) != "" && '0' <= Decimal(m)[0] <= '9'
    decreases m
  {
    assert forall d | 0 <= d < 10 :: "0123456789"[d] as int == 48 + d;
    var a, b := Decimal(m), Decimal(n);
    if m >= 10 {
      DecimalInjective(m / 10, n / 10);
    }
    if a == b {
      assert a[|a| - 1] == "0123456789"[m % 10] && b[|b| - 1] == "0123456789"[n % 10];
      assert a[..|a| - 1] == (if m < 10 then "" else Decimal(m / 10));
      assert b[..|b| - 1] == (if n < 10 then "" else Decimal(n / 10));
      NotEmpty(m / 10);
      NotEmpty(n / 10);
    }
  }

  lemma NotEmpty(n: nat)
    ensures Decimal(n) != ""
  {}

  lemma {:induction false} IndexedLength(items: seq<Json>, from: nat)
    ensures |Indexed(items, from)| == |items|
    decreases |items|
  {
    if items != [] {
      IndexedLength(items[1..], from + 1);
    }
  }

  lemma {:induction false} IndexedAt(items: seq<Json>, from: nat, i: nat)
    requires i < |Indexed(items, from)|
    ensures i < |items| && Indexed(items, from)[i] == Field(Decimal(from + i), items[i])
    decreases |items|
  {
    IndexedLength(items, from);
    if i > 0 {
      IndexedAt(items[1..], from + 1, i - 1);
      assert from + 1 + (i - 1) == from + i;
    }
  }

  lemma {:induction false} CharactersAt(s: string)
    ensures |Characters(s)| == |s| && forall i | 0 <= i < |s| :: Characters(s)[i] == Str([s[i]])
    decreases |s|
  {
    if s != "" {
      CharactersAt(s[1..]);
    }
  }

  lemma NumberedKeysDistinct(fields: seq<Field>)
    requires forall i | 0 <= i < |fields| :: fields[i].key == Decimal(i)
    ensures DistinctKeys(fields)
  {
    forall i, j | 0 <= i < j < |fields| ensures fields[i].key != fields[j].key {
      DecimalInjective(i, j);
    }
  }

  lemma ObjectWellFormed(fields: seq<Field>, items: seq<Json>)
    requires DistinctKeys(fields) && |fields| == |items| && WellFormed(Arr(items))
    requires forall i | 0 <= i < |fields| :: fields[i].value == items[i]
    ensures WellFormed(Obj(fields))
  {}

  lemma IndexedWellFormed(items: seq<Json>)
    requires WellFormed(Arr(items))
    ensures WellFormed(Obj(Indexed(items, 0)))
  {
    var fields := Indexed(items, 0);
    IndexedLength(items, 0);
    forall i | 0 <= i < |fields| ensures fields[i] == Field(Decimal(i), items[i]) {
      IndexedAt(items, 0, i);
    }
    NumberedKeysDistinct(fields);
    ObjectWellFormed(fields, items);
  }

  lemma EntriesWellFormed(v: Json)
    requires WellFormed(v)
    ensures WellFormed(Obj(Entries(v)))
  {
    match v
    case Arr(items) => IndexedWellFormed(items);
    case Str(s) =>
      CharactersAt(s);
      IndexedWellFormed(Characters(s));
    case _ =>
  }

  lemma {:induction false} PutWellFormed(fields: seq<Field>, key: string, value: Json)
    requires WellFormed(Obj(fields)) && WellFormed(value)
    ensures WellFormed(Obj(Put(fields, key, value)))
    ensures forall f | f in Put(fields, key, value) :: f.key == key || f in fields
    decreases |fields|
  {
    if fields != [] && fields[0].key != key {
      var rest := Put(fields[1..], key, value);
      assert WellFormed(Obj(fields[1..]));
      PutWellFormed(fields[1..], key, value);
      forall j | 0 <= j < |rest| ensures rest[j].key != fields[0].key {
        assert rest[j] in rest;
        if rest[j].key != key {
          var m :| 0 <= m < |fields[1..]| && fields[1..][m] == rest[j];
          assert fields[m + 1].key != fields[0].key;
        }
      }
    }
  }

  lemma {:induction false} PutAllWellFormed(fields: seq<Field>, updates: seq<Field>)
    requires WellFormed(Obj(fields)) && forall i | 0 <= i < |updates| :: WellFormed(updates[i].value)
    ensures WellFormed(Obj(PutAll(fields, updates)))
    decreases |updates|
  {
    if updates != [] {
      PutWellFormed(fields, updates[0].key, updates[0].value);
      PutAllWellFormed(Put(fields, updates[0].key, updates[0].value), updates[1..]);
    }
  }

  lemma {:induction false} UpdatesWellFormed(base: Json, patch: seq<Field>)
    requires WellFormed(base) && WellFormed(Obj(patch))
    ensures forall i | 0 <= i < |patch| :: WellFormed(Updates(base, patch)[i].value)
    decreases patch, 0
  {
    if patch != [] {
      var f := patch[0];
      assert WellFormed(Obj(patch[1..]));
      UpdatesWellFormed(base, patch[1..]);
      if f.value.Obj? {
        ChildWellFormed(base, f.key);
        MergeWellFormed(Child(base, f.key), f.value.fields);
      }
    }
  }

  lemma ChildWellFormed(base: Json, key: string)
    requires WellFormed(base)
    ensures WellFormed(Child(base, key))
  {
    EntriesWellFormed(base);
    if Lookup(Entries(base), key).Some? {
      LookupWellFormed(Entries(base), key);
    }
  }

  /** Merging keeps objects free of repeated keys. */
  lemma {:induction false} MergeWellFormed(base: Json, patch: seq<Field>)
    requires WellFormed(base) && WellFormed(Obj(patch))
    ensures WellFormed(MergeSchema(base, patch))
    decreases patch, 1
  {
    EntriesWellFormed(base);
    UpdatesWellFormed(base, patch);
    PutAllWellFormed(Entries(base), Updates(base, patch));
  }

  // ----- What a merge shows of offers -----

  predicate CleanAt(v: Json, key: string) {
    var w := Lookup(Entries(v), key);
    w.Some? ==> key !in OFFER_KEYS && OfferFree(w.value)
  }

  /** v has everything that s has, and besides that nothing but values free of offers, at every depth. */
  ghost predicate Over(v: Json, s: seq<Field>)
    decreases s
  {
    && (forall i | 0 <= i < |s| :: OverAt(Lookup(Entries(v), s[i].key), s[i].value))
    && (forall k | Lookup(s, k).None? :: CleanAt(v, k))
  }

  ghost predicate OverAt(w: Option<Json>, v: Json)
    decreases v
  {
    && w.Some?
    && (w.value == v || (w.value.Obj? && v.Obj? && Over(w.value, v.fields)))
  }

  lemma {:induction false} LookupIndex(fields: seq<Field>, k: string) returns (i: nat)
    requires Lookup(fields, k).Some?
    ensures i < |fields| && fields[i] == Field(k, Lookup(fields, k).value)
    decreases |fields|
  {
    if fields[0].key == k {
      i := 0;
    } else {
      var j := LookupIndex(fields[1..], k);
      i := j + 1;
    }
  }

  lemma OverLookup(v: Json, s: seq<Field>, k: string)
    requires Over(v, s) && Lookup(s, k).Some?
    ensures OverAt(Lookup(Entries(v), k), Lookup(s, k).value)
  {
    var i := LookupIndex(s, k);
  }

  /** The entries of a value without offers are clean. */
  lemma CleanEntries(v: Json, k: string)
    requires OfferFree(v)
    ensures CleanAt(v, k)
  {
    if Lookup(Entries(v), k).Some? {
      var i := LookupIndex(Entries(v), k);
      match v
      case Arr(items) =>
        IndexedAt(items, 0, i);
        DecimalInjective(i, 0);
      case Str(s) =>
        CharactersAt(s);
        IndexedAt(Characters(s), 0, i);
        DecimalInjective(i, 0);
      case _ =>
    }
  }

  lemma CleanIsOverNothing(v: Json)
    requires OfferFree(v)
    ensures Over(v, [])
  {
    forall k ensures CleanAt(v, k) {
      CleanEntries(v, k);
    }
  }

  /** Merging one patch into both keeps one over the other. */
  lemma {:induction false} MergeOver(v: Json, s: seq<Field>, patch: seq<Field>)
    requires Over(v, s) && WellFormed(Obj(s)) && WellFormed(Obj(patch))
    ensures Over(MergeSchema(v, patch), MergeSchema(Obj(s), patch).fields)
    decreases patch
  {
    var r := MergeSchema(Obj(s), patch).fields;
    var big := MergeSchema(v, patch);
    MergeWellFormed(Obj(s), patch);
    forall i | 0 <= i < |r| ensures OverAt(Lookup(Entries(big), r[i].key), r[i].value) {
      LookupAt(r, i);
      MergeOverAt(v, s, patch, r[i].key);
    }
    forall k | Lookup(r, k).None? ensures CleanAt(big, k) {
      MergeLookup(v, patch, k);
      MergeLookup(Obj(s), patch, k);
      assert CleanAt(v, k);
    }
  }

  lemma {:induction false} MergeOverAt(v: Json, s: seq<Field>, patch: seq<Field>, k: string)
    requires Over(v, s) && WellFormed(Obj(s)) && WellFormed(Obj(patch))
    requires Lookup(MergeSchema(Obj(s), patch).fields, k).Some?
    ensures OverAt(Lookup(MergeSchema(v, patch).fields, k), Lookup(MergeSchema(Obj(s), patch).fields, k).value)
    decreases patch, 0
  {
    MergeLookup(v, patch, k);
    MergeLookup(Obj(s), patch, k);
    var p := Lookup(patch, k);
    if p.None? {
      OverLookup(v, s, k);
    } else if p.value.Obj? {
      var at := LookupIndex(patch, k);
      LookupWellFormed(patch, k);
      if Lookup(s, k).Some? {
        OverLookup(v, s, k);
        LookupWellFormed(s, k);
        if Lookup(Entries(v), k) != Lookup(s, k) {
          MergeOver(Lookup(Entries(v), k).value, Lookup(s, k).value.fields, patch[at].value.fields);
        }
      } else {
        assert CleanAt(v, k);
        CleanIsOverNothing(Child(v, k));
        MergeOver(Child(v, k), [], patch[at].value.fields);
      }
    }
  }

  /** Of two such values one is free of offers exactly when the other is. */
  lemma {:induction false} OverOfferFree(fields: seq<Field>, s: seq<Field>)
    requires Over(Obj(fields), s) && WellFormed(Obj(fields)) && WellFormed(Obj(s))
    ensures OfferFree(Obj(fields)) <==> OfferFree(Obj(s))
    decreases s
  {
    forall i | 0 <= i < |s|
      ensures OfferFree(s[i].value) <==> OfferFree(Lookup(fields, s[i].key).value)
    {
      assert OverAt(Lookup(Entries(Obj(fields)), s[i].key), s[i].value);
      var w := Lookup(fields, s[i].key).value;
      LookupWellFormed(fields, s[i].key);
      if w != s[i].value {
        OverOfferFree(w.fields, s[i].value.fields);
      }
    }
    if OfferFree(Obj(fields)) {
      forall i | 0 <= i < |s| ensures s[i].key !in OFFER_KEYS && OfferFree(s[i].value) {
        assert OverAt(Lookup(Entries(Obj(fields)), s[i].key), s[i].value);
        var m := LookupIndex(fields, s[i].key);
      }
    }
    if OfferFree(Obj(s)) {
      forall m | 0 <= m < |fields| ensures fields[m].key !in OFFER_KEYS && OfferFree(fields[m].value) {
        var k := fields[m].key;
        LookupAt(fields, m);
        if Lookup(s, k).Some? {
          var i := LookupIndex(s, k);
          assert s[i].key == k;
        } else {
          assert CleanAt(Obj(fields), k);
        }
      }
    }
  }

  // ----- A single patch -----

  lemma {:induction false} PutNew(fields: seq<Field>, key: string, value: Json)
    requires Lookup(fields, key).None?
    ensures Put(fields, key, value) == fields + [Field(key, value)]
    decreases |fields|
  {
    if fields != [] {
      PutNew(fields[1..], key, value);
    }
  }

  lemma {:induction false} PutAllNew(fields: seq<Field>, updates: seq<Field>)
    requires DistinctKeys(fields + updates)
    ensures PutAll(fields, updates) == fields + updates
    decreases |updates|
  {
    if updates != [] {
      var all := fields + updates;
      forall i | 0 <= i < |fields| ensures fields[i].key != updates[0].key {
        assert all[i] == fields[i] && all[|fields|] == updates[0];
      }
      LookupAbsent(fields, updates[0].key);
      PutNew(fields, updates[0].key, updates[0].value);
      assert fields + [updates[0]] + updates[1..] == all;
      PutAllNew(fields + [updates[0]], updates[1..]);
    }
  }

  /** A patch merged into an empty object is itself. */
  lemma {:induction false} MergeIntoNothing(patch: seq<Field>)
    requires WellFormed(Obj(patch))
    ensures MergeSchema(Obj([]), patch) == Obj(patch)
    decreases patch, 1
  {
    UpdatesOfNothing(patch);
    assert [] + patch == patch;
    PutAllNew([], patch);
  }

  lemma {:induction false} UpdatesOfNothing(patch: seq<Field>)
    requires WellFormed(Obj(patch))
    ensures Updates(Obj([]), patch) == patch
    decreases patch, 0
  {
    if patch != [] {
      var f := patch[0];
      assert WellFormed(Obj(patch[1..]));
      UpdatesOfNothing(patch[1..]);
      if f.value.Obj? {
        MergeIntoNothing(f.value.fields);
      }
      assert patch == [f] + patch[1..];
    }
  }

  /** Merged into a value without offers, a patch shows exactly the offers it brings. */
  lemma MergeOfferFreeIff(base: Json, patch: seq<Field>)
    requires WellFormed(base) && OfferFree(base) && WellFormed(Obj(patch))
    ensures OfferFree(MergeSchema(base, patch)) <==> OfferFree(Obj(patch))
  {
    MergeOverPatch(base, patch);
    OverOfferFree(MergeSchema(base, patch).fields, patch);
  }

  /** And it makes a node an offer exactly when it says so itself. */
  lemma MergeIsOfferIff(base: Json, patch: seq<Field>)
    requires base.Obj? && !IsOffer(base) && DistinctKeys(patch)
    ensures IsOffer(MergeSchema(base, patch)) <==> IsOffer(Obj(patch))
  {
    MergeLookup(base, patch, "@type");
  }

  lemma MergeOverPatch(base: Json, patch: seq<Field>)
    requires WellFormed(base) && OfferFree(base) && WellFormed(Obj(patch))
    ensures WellFormed(MergeSchema(base, patch)) && Over(MergeSchema(base, patch), patch)
  {
    CleanIsOverNothing(base);
    MergeOver(base, [], patch);
    MergeIntoNothing(patch);
    MergeWellFormed(base, patch);
  }

  ghost predicate GoodGraph(graph: seq<Json>) {
    forall i | 0 <= i < |graph| :: graph[i].Obj? && WellFormed(graph[i])
  }

  predicate Shown(node: Json) {
    IsOffer(node) || !OfferFree(node)
  }

  lemma GraphOfferFree(graph: seq<Json>)
    ensures OfferFree(Arr(graph)) <==> forall i | 0 <= i < |graph| :: !Shown(graph[i])
  {}

  /** One override applied to a graph without offers shows an offer exactly when the override itself does. */
  lemma PatchOfferFreeIff(graph: seq<Json>, patch: Json)
    requires GoodGraph(graph) && OfferFree(Arr(graph)) && patch.Obj? && WellFormed(patch)
    ensures OfferFree(Arr(ApplyPatch(graph, patch))) <==> OfferFree(Arr([patch]))
    ensures GoodGraph(ApplyPatch(graph, patch))
  {
    var i, r := FindNode(graph, patch), ApplyPatch(graph, patch);
    GraphOfferFree(graph);
    GraphOfferFree(r);
    GraphOfferFree([patch]);
    if i < |graph| {
      MergeShown(graph[i], patch);
    }
    assert Shown(r[i]) <==> Shown(patch);
    assert OfferFree(Arr([patch])) <==> !Shown(patch) by { assert [patch][0] == patch; }
    forall j | 0 <= j < |r| && j != i ensures r[j] == graph[j] {}
  }

  lemma MergeShown(base: Json, patch: Json)
    requires base.Obj? && WellFormed(base) && !Shown(base) && patch.Obj? && WellFormed(patch)
    ensures Shown(MergeSchema(base, patch.fields)) <==> Shown(patch)
    ensures WellFormed(MergeSchema(base, patch.fields))
  {
    MergeOfferFreeIff(base, patch.fields);
    MergeIsOfferIff(base, patch.fields);
    MergeWellFormed(base, patch.fields);
  }

  // ----- Lists of patches -----

  /** What decides which node an override is for. */
  function Bare(node: Json): Json {
    var id, type_ := Prop(node, "@id"), Prop(node, "@type");
    Obj(if id.None? && type_.None? then []
        else if id.None? then [Field("@type", type_.value)]
        else if type_.None? then [Field("@id", id.value)]
        else [Field("@id", id.value), Field("@type", type_.value)])
  }

  function BareGraph(graph: seq<Json>): seq<Json> {
    seq(|graph|, i requires 0 <= i < |graph| => Bare(graph[i]))
  }

  ghost predicate NodeOver(node: Json, bare: Json) {
    && node.Obj? && bare.Obj? && WellFormed(node) && WellFormed(bare)
    && Over(node, bare.fields)
    && Prop(node, "@id") == Prop(bare, "@id") && Prop(node, "@type") == Prop(bare, "@type")
  }

  ghost predicate GraphOver(graph: seq<Json>, bare: seq<Json>) {
    |graph| == |bare| && forall i | 0 <= i < |graph| :: NodeOver(graph[i], bare[i])
  }

  lemma BareKeepsNames(node: Json)
    ensures Prop(Bare(node), "@id") == Prop(node, "@id") && Prop(Bare(node), "@type") == Prop(node, "@type")
    ensures forall k | k !in {"@id", "@type"} :: Lookup(Bare(node).fields, k).None?
  {
    var s := Bare(node).fields;
    assert |"@id"| != |"@type"|;
    LookupAbsent(s, "@id");
    LookupAbsent(s, "@type");
    forall i | 0 <= i < |s| ensures Lookup(s, s[i].key) == Some(s[i].value) { LookupAt(s, i); }
    forall k | k !in {"@id", "@type"} ensures Lookup(s, k).None? { LookupAbsent(s, k); }
  }

  lemma BareIsUnder(node: Json)
    requires node.Obj? && WellFormed(node) && OfferFree(node)
    ensures NodeOver(node, Bare(node))
  {
    var s := Bare(node).fields;
    BareKeepsNames(node);
    forall f | f in {"@id", "@type"} && Lookup(node.fields, f).Some? ensures WellFormed(Lookup(node.fields, f).value) {
      LookupWellFormed(node.fields, f);
    }
    forall k ensures CleanAt(node, k) {
      CleanEntries(node, k);
    }
  }

  lemma ItselfIsUnder(node: Json)
    requires node.Obj? && WellFormed(node)
    ensures NodeOver(node, node)
  {
    forall i | 0 <= i < |node.fields| ensures OverAt(Lookup(Entries(node), node.fields[i].key), node.fields[i].value) {
      LookupAt(node.fields, i);
    }
  }

  lemma MergeNodeOver(node: Json, bare: Json, patch: seq<Field>)
    requires NodeOver(node, bare) && WellFormed(Obj(patch))
    ensures NodeOver(MergeSchema(node, patch), MergeSchema(bare, patch))
  {
    MergeOver(node, bare.fields, patch);
    MergeWellFormed(node, patch);
    MergeWellFormed(bare, patch);
    forall k | k in {"@id", "@type"} ensures Prop(MergeSchema(node, patch), k) == Prop(MergeSchema(bare, patch), k) {
      MergeLookup(node, patch, k);
      MergeLookup(bare, patch, k);
      assert Prop(node, k) == Prop(bare, k);
    }
  }

  lemma SameNodeFound(graph: seq<Json>, bare: seq<Json>, patch: Json)
    requires GraphOver(graph, bare)
    ensures FindNode(graph, patch) == FindNode(bare, patch)
  {
    forall i | 0 <= i < |graph| ensures NodeMatches(graph[i], patch) <==> NodeMatches(bare[i], patch) {
      MatchesAlike(graph[i], bare[i], patch);
    }
  }

  lemma MatchesAlike(node: Json, bare: Json, patch: Json)
    requires NodeOver(node, bare)
    ensures NodeMatches(node, patch) <==> NodeMatches(bare, patch)
  {}

  lemma PatchGraphOver(graph: seq<Json>, bare: seq<Json>, patch: Json)
    requires GraphOver(graph, bare) && WellFormed(patch)
    ensures GraphOver(ApplyPatch(graph, patch), ApplyPatch(bare, patch))
  {
    if patch.Obj? {
      SameNodeFound(graph, bare, patch);
      var i := FindNode(graph, patch);
      if i < |graph| {
        assert NodeOver(graph[i], bare[i]);
        MergeNodeOver(graph[i], bare[i], patch.fields);
      } else {
        ItselfIsUnder(patch);
      }
    }
  }

  lemma {:induction false} PatchesGraphOver(graph: seq<Json>, bare: seq<Json>, patches: seq<Json>)
    requires GraphOver(graph, bare) && forall j | 0 <= j < |patches| :: WellFormed(patches[j])
    ensures GraphOver(ApplyPatches(graph, patches), ApplyPatches(bare, patches))
    decreases |patches|
  {
    if patches != [] {
      PatchGraphOver(graph, bare, patches[0]);
      PatchesGraphOver(ApplyPatch(graph, patches[0]), ApplyPatch(bare, patches[0]), patches[1..]);
    }
  }

  lemma GraphsAgree(graph: seq<Json>, bare: seq<Json>)
    requires GraphOver(graph, bare)
    ensures OfferFree(Arr(graph)) <==> OfferFree(Arr(bare))
  {
    forall i | 0 <= i < |graph|
      ensures (!IsOffer(graph[i]) && OfferFree(graph[i])) <==> (!IsOffer(bare[i]) && OfferFree(bare[i]))
    {
      assert NodeOver(graph[i], bare[i]);
      OverOfferFree(graph[i].fields, bare[i].fields);
    }
  }

  /**
   A list of overrides shows an offer exactly when it already does on the bare names of the nodes:
   what else the page holds never matters.
   */
  lemma OverridesOfferFreeIff(graph: seq<Json>, patches: seq<Json>)
    requires GoodGraph(graph) && OfferFree(Arr(graph))
    requires forall j | 0 <= j < |patches| :: WellFormed(patches[j])
    ensures OfferFree(Arr(ApplyPatches(graph, patches))) <==> OfferFree(Arr(ApplyPatches(BareGraph(graph), patches)))
  {
    forall i | 0 <= i < |graph| ensures NodeOver(graph[i], BareGraph(graph)[i]) {
      BareIsUnder(graph[i]);
    }
    PatchesGraphOver(graph, BareGraph(graph), patches);
    GraphsAgree(ApplyPatches(graph, patches), ApplyPatches(BareGraph(graph), patches));
  }

  /** In particular it shows none when none of its patches does. */
  lemma {:induction false} CleanOverridesSuffice(graph: seq<Json>, patches: seq<Json>)
    requires GoodGraph(graph) && OfferFree(Arr(graph))
    requires forall j | 0 <= j < |patches| && patches[j].Obj? :: WellFormed(patches[j]) && OfferFree(Arr([patches[j]]))
    ensures OfferFree(Arr(ApplyPatches(graph, patches)))
    decreases |patches|
  {
    if patches != [] {
      if patches[0].Obj? { PatchOfferFreeIff(graph, patches[0]); }
      CleanOverridesSuffice(ApplyPatch(graph, patches[0]), patches[1..]);
    }
  }

  /**
   A later patch can undo an offer even with an object: merged into a list, it spreads the list into
   an object, whose values are no list elements any more.
   */
  lemma SpreadingUndoesOffers()
    ensures var list := Arr([Obj([Field("@type", Str("Offer"))])]);
            !OfferFree(list) && OfferFree(MergeSchema(list, []))
  {
    var offer := Obj([Field("@type", Str("Offer"))]);
    var list := Arr([offer]);
    assert IsOffer(list.items[0]);
    assert list.items[1..] == [] && Indexed([], 1) == [];
    assert MergeSchema(list, []) == Obj([Field(Decimal(0), offer)]);
    assert |Decimal(0)| == 1 && |"offers"| == 6 && |"availability"| == 12 && |"@type"| == 5;
  }

  // ----- The section page -----

  function Crumb(position: int, name: Json, item: Json): Json {
    Obj([Field("@type", Str("ListItem")), Field("position", Num(position)), Field("name", name), Field("item", item)])
  }

  function WebPage(name: Json, canonical: Json, description: Json): Json {
    Obj([Field("@type", Str("WebPage")), Field("name", name), Field("url", canonical), Field("description", description)])
  }

  function Breadcrumbs(site: string, rootPath: string, rootName: Json, name: Json, canonical: Json): Json {
    Obj([Field("@type", Str("BreadcrumbList")),
         Field("itemListElement", Arr([Crumb(1, Str("Home"), Str(site + "/")), Crumb(2, rootName, Str(site + rootPath)),
                                       Crumb(3, name, canonical)]))])
  }

  /** The generated graph: the page and its breadcrumbs. */
  function SectionGraph(site: string, rootPath: string, rootName: Json, name: Json, canonical: Json,
                        description: Json): seq<Json>
  {
    [WebPage(name, canonical, description), Breadcrumbs(site, rootPath, rootName, name, canonical)]
  }

  /** What a section page emits, on the market or off it. */
  function SectionPage(site: string, rootPath: string, rootName: Json, name: Json, canonical: Json, description: Json,
                       override_: seq<Field>): seq<Json> {
    ApplyPatches(SectionGraph(site, rootPath, rootName, name, canonical, description), Patches(override_))
  }

  /** The breadcrumbs lead from the site over the root to the page, numbered from one. */
  lemma CrumbsInOrder(site: string, rootPath: string, rootName: Json, name: Json, canonical: Json, i: nat)
    requires i < 3
    ensures var list := Lookup(Breadcrumbs(site, rootPath, rootName, name, canonical).fields, "itemListElement");
            && list.Some? && list.value.Arr? && |list.value.items| == 3
            && list.value.items[i] == Obj([
                 Field("@type", Str("ListItem")), Field("position", Num(i + 1)),
                 Field("name", [Str("Home"), rootName, name][i]),
                 Field("item", [Str(site + "/"), Str(site + rootPath), canonical][i])])
  {
    assert "@type"[0] == '@' && "itemListElement"[0] == 'i';
  }

  const BARE_SECTION := [Obj([Field("@type", Str("WebPage"))]), Obj([Field("@type", Str("BreadcrumbList"))])]

  lemma SectionGraphIsClean(site: string, rootPath: string, rootName: Json, name: Json, canonical: Json, description: Json)
    requires Scalar(rootName) && Scalar(name) && Scalar(canonical) && Scalar(description)
    ensures var graph := SectionGraph(site, rootPath, rootName, name, canonical, description);
            GoodGraph(graph) && OfferFree(Arr(graph)) && BareGraph(graph) == BARE_SECTION
  {
    WebPageIsClean(name, canonical, description);
    CrumbsAreClean(site, rootPath, rootName, name, canonical);
    TwoCleanNodes(WebPage(name, canonical, description), Breadcrumbs(site, rootPath, rootName, name, canonical));
  }

  lemma TwoCleanNodes(a: Json, b: Json)
    requires a.Obj? && b.Obj? && WellFormed(a) && WellFormed(b)
    requires OfferFree(a) && OfferFree(b) && !IsOffer(a) && !IsOffer(b)
    ensures GoodGraph([a, b]) && OfferFree(Arr([a, b])) && BareGraph([a, b]) == [Bare(a), Bare(b)]
  {}

  lemma WebPageIsClean(name: Json, canonical: Json, description: Json)
    requires Scalar(name) && Scalar(canonical) && Scalar(description)
    ensures var page := WebPage(name, canonical, description);
            WellFormed(page) && OfferFree(page) && !IsOffer(page) && Bare(page) == BARE_SECTION[0]
  {
    var page := WebPage(name, canonical, description);
    WebPageKeys(name, canonical, description);
    LookupAbsent(page.fields, "@id");
  }

  lemma WebPageKeys(name: Json, canonical: Json, description: Json)
    requires Scalar(name) && Scalar(canonical) && Scalar(description)
    ensures var fields := WebPage(name, canonical, description).fields;
            DistinctKeys(fields) && WellFormed(Obj(fields)) && OfferFree(Obj(fields))
            && forall i | 0 <= i < |fields| :: fields[i].key != "@id"
  {
    var fields := WebPage(name, canonical, description).fields;
    assert "url"[0] == 'u' && "@id"[0] == '@';
    assert |"@type"| == 5 && |"name"| == 4 && |"url"| == 3 && |"description"| == 11 && |"offers"| == 6 && |"availability"| == 12;
    assert fields[0].key == "@type" && fields[1].key == "name" && fields[2].key == "url" && fields[3].key == "description";
  }

  lemma CrumbsAreClean(site: string, rootPath: string, rootName: Json, name: Json, canonical: Json)
    requires Scalar(rootName) && Scalar(name) && Scalar(canonical)
    ensures var list := Breadcrumbs(site, rootPath, rootName, name, canonical);
            WellFormed(list) && OfferFree(list) && !IsOffer(list) && Bare(list) == BARE_SECTION[1]
  {
    var list := Breadcrumbs(site, rootPath, rootName, name, canonical);
    CrumbIsClean(1, Str("Home"), Str(site + "/"));
    CrumbIsClean(2, rootName, Str(site + rootPath));
    CrumbIsClean(3, name, canonical);
    LookupAbsent(list.fields, "@id");
    assert WellFormed(list.fields[1].value) && OfferFree(list.fields[1].value);
  }

  lemma CrumbIsClean(position: int, name: Json, item: Json)
    requires Scalar(name) && Scalar(item)
    ensures var crumb := Crumb(position, name, item); WellFormed(crumb) && OfferFree(crumb) && !IsOffer(crumb)
  {}

  lemma PatchesWellFormed(override_: seq<Field>)
    requires WellFormed(Obj(override_))
    ensures forall j | 0 <= j < |Patches(override_)| :: WellFormed(Patches(override_)[j])
  {
    if Lookup(override_, "@graph").Some? {
      LookupWellFormed(override_, "@graph");
    }
  }

  /**
   A section page, of off-market inventory too, is free of offers exactly when its override leaves
   the two bare nodes of such a page free of them.
   */
  lemma SectionPageOfferFreeIff(site: string, rootPath: string, rootName: Json, name: Json, canonical: Json, description: Json,
                                override_: seq<Field>)
    requires Scalar(rootName) && Scalar(name) && Scalar(canonical) && Scalar(description) && WellFormed(Obj(override_))
    ensures OfferFree(Arr(SectionPage(site, rootPath, rootName, name, canonical, description, override_)))
            <==> OfferFree(Arr(ApplyPatches(BARE_SECTION, Patches(override_))))
  {
    SectionGraphIsClean(site, rootPath, rootName, name, canonical, description);
    PatchesWellFormed(override_);
    OverridesOfferFreeIff(SectionGraph(site, rootPath, rootName, name, canonical, description), Patches(override_));
  }

  /** For an override that is one patch: exactly when the patch has no offer in it. */
  lemma SectionPatchOfferFreeIff(site: string, rootPath: string, rootName: Json, name: Json, canonical: Json, description: Json,
                                 override_: seq<Field>)
    requires Scalar(rootName) && Scalar(name) && Scalar(canonical) && Scalar(description) && WellFormed(Obj(override_))
    requires Patches(override_) == [Obj(override_)]
    ensures OfferFree(Arr(SectionPage(site, rootPath, rootName, name, canonical, description, override_)))
            <==> OfferFree(Arr([Obj(override_)]))
  {
    var graph := SectionGraph(site, rootPath, rootName, name, canonical, description);
    SectionGraphIsClean(site, rootPath, rootName, name, canonical, description);
    PatchOfferFreeIff(graph, Obj(override_));
    assert Patches(override_)[1..] == [];
    assert ApplyPatches(graph, Patches(override_)) == ApplyPatch(graph, Obj(override_));
  }

  /** So the photos page of a sold property shows whatever offer an editor put into its override. */
  lemma SectionPageShowsOffers(site: string, rootPath: string, rootName: Json, name: Json, canonical: Json, description: Json)
    requires Scalar(rootName) && Scalar(name) && Scalar(canonical) && Scalar(description)
    ensures var override_ := [Field("@type", Str("WebPage")), Field("offers", Str("x"))];
            !OfferFree(Arr(SectionPage(site, rootPath, rootName, name, canonical, description, override_)))
  {
    var override_ := [Field("@type", Str("WebPage")), Field("offers", Str("x"))];
    SectionPatchOfferFreeIff(site, rootPath, rootName, name, canonical, description, override_);
    assert override_[1].key in OFFER_KEYS;
    assert [Obj(override_)][0] == Obj(override_);
  }
}
