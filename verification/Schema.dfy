/**
 Structured data: merging editors' overrides into the generated JSON-LD graph, and stripping
 offers from inventory that is off the market.
 */
module Schema {
  import opened Common

  datatype Json =
    | Null | Bool(b: bool) | Num(n: int) | Str(s: string)
    | Arr(items: seq<Json>) | Obj(fields: seq<Field>)
  datatype Field = Field(key: string, value: Json)

  type KeyPath = seq<string>

  // ----- Objects -----

  function Lookup(fields: seq<Field>, key: string): Option<Json> {
    if fields == [] then None
    else if fields[0].key == key then Some(fields[0].value)
    else Lookup(fields[1..], key)
  }

  /** Assigns a key: in place when it exists, at the end otherwise. */
  function Put(fields: seq<Field>, key: string, value: Json): seq<Field> {
    if fields == [] then [Field(key, value)]
    else if fields[0].key == key then [Field(key, value)] + fields[1..]
    else [fields[0]] + Put(fields[1..], key, value)
  }

  function PutAll(fields: seq<Field>, updates: seq<Field>): seq<Field>
    decreases |updates|
  {
    if updates == [] then fields else PutAll(Put(fields, updates[0].key, updates[0].value), updates[1..])
  }

  predicate DistinctKeys(fields: seq<Field>) {
    forall i, j | 0 <= i < j < |fields| :: fields[i].key != fields[j].key
  }

  /** A value that came out of a JSON parser: no object repeats a key. */
  predicate WellFormed(v: Json) {
    match v
    case Arr(items) => forall i | 0 <= i < |items| :: WellFormed(items[i])
    case Obj(fields) => DistinctKeys(fields) && forall i | 0 <= i < |fields| :: WellFormed(fields[i].value)
    case _ => true
  }

  /** The value at a path of object keys. */
  function Get(v: Json, path: KeyPath): Option<Json>
    decreases |path|
  {
    if path == [] then Some(v)
    else if !v.Obj? || Lookup(v.fields, path[0]).None? then None
    else Get(Lookup(v.fields, path[0]).value, path[1..])
  }

  predicate Truthy(v: Option<Json>) {
    v.Some? && v.value != Null && v.value != Bool(false) && v.value != Num(0) && v.value != Str("")
  }

  predicate Scalar(v: Json) {
    !v.Arr? && !v.Obj?
  }

  // ----- Merging -----

  function Decimal(n: nat): string {
    if n < 10 then ["0123456789"[n]] else Decimal(n / 10) + ["0123456789"[n % 10]]
  }

  function Indexed(items: seq<Json>, from: nat): seq<Field> {
    if items == [] then [] else [Field(Decimal(from), items[0])] + Indexed(items[1..], from + 1)
  }

  function Characters(s: string): seq<Json> {
    if s == "" then [] else [Str([s[0]])] + Characters(s[1..])
  }

  /** The own properties that spreading a value copies. */
  function Entries(v: Json): seq<Field> {
    match v
    case Obj(fields) => fields
    case Arr(items) => Indexed(items, 0)
    case Str(s) => Indexed(Characters(s), 0)
    case _ => []
  }

  /** The part of the base that a nested patch is merged into. */
  function Child(base: Json, key: string): Json {
    var child := Lookup(Entries(base), key);
    if Truthy(child) then child.value else Obj([])
  }

  function Updates(base: Json, patch: seq<Field>): (r: seq<Field>)
    ensures |r| == |patch| && forall i | 0 <= i < |r| :: r[i].key == patch[i].key
    decreases patch, 0
  {
    if patch == [] then []
    else
      var f := patch[0];
      [Field(f.key, if f.value.Obj? then MergeSchema(Child(base, f.key), f.value.fields) else f.value)]
      + Updates(base, patch[1..])
  }

  function MergeSchema(base: Json, patch: seq<Field>): Json
    decreases patch, 1
  {
    Obj(PutAll(Entries(base), Updates(base, patch)))
  }

  // ----- What assigning does -----

  lemma {:induction false} LookupPut(fields: seq<Field>, key: string, value: Json, k: string)
    ensures Lookup(Put(fields, key, value), k) == if k == key then Some(value) else Lookup(fields, k)
    decreases |fields|
  {
    if fields != [] && fields[0].key != key {
      LookupPut(fields[1..], key, value, k);
    }
  }

  /** Reading one key, and reading on from there. */
  lemma GetField(fields: seq<Field>, i: nat)
    requires DistinctKeys(fields) && i < |fields|
    ensures Get(Obj(fields), [fields[i].key]) == Some(fields[i].value)
  {
    LookupAt(fields, i);
    assert [fields[i].key][1..] == [];
  }

  lemma {:induction false} GetThrough(v: Json, path: KeyPath, rest: KeyPath)
    ensures Get(v, path + rest) == match Get(v, path) case None => None case Some(w) => Get(w, rest)
    decreases |path|
  {
    if path == [] {
      assert path + rest == rest;
    } else {
      assert (path + rest)[1..] == path[1..] + rest;
      if v.Obj? && Lookup(v.fields, path[0]).Some? {
        GetThrough(Lookup(v.fields, path[0]).value, path[1..], rest);
      }
    }
  }

  lemma {:induction false} LookupPutAll(fields: seq<Field>, updates: seq<Field>, k: string)
    requires DistinctKeys(updates)
    ensures Lookup(PutAll(fields, updates), k)
            == if Lookup(updates, k).Some? then Lookup(updates, k) else Lookup(fields, k)
    decreases |updates|
  {
    if updates != [] {
      var u := updates[0];
      LookupPut(fields, u.key, u.value, k);
      LookupPutAll(Put(fields, u.key, u.value), updates[1..], k);
      if k == u.key { LookupAbsent(updates[1..], k); }
    }
  }

  lemma {:induction false} LookupAbsent(fields: seq<Field>, k: string)
    ensures Lookup(fields, k).None? <==> forall i | 0 <= i < |fields| :: fields[i].key != k
    decreases |fields|
  {
    if fields != [] {
      LookupAbsent(fields[1..], k);
    }
  }

  lemma {:induction false} LookupAt(fields: seq<Field>, i: nat)
    requires DistinctKeys(fields) && i < |fields|
    ensures Lookup(fields, fields[i].key) == Some(fields[i].value)
    decreases |fields|
  {
    if i > 0 {
      LookupAt(fields[1..], i - 1);
    }
  }

  lemma {:induction false} LookupUpdates(base: Json, patch: seq<Field>, k: string)
    ensures Lookup(Updates(base, patch), k)
            == match Lookup(patch, k)
               case None => None
               case Some(v) => Some(if v.Obj? then MergeSchema(Child(base, k), v.fields) else v)
    decreases |patch|
  {
    if patch != [] && patch[0].key != k {
      LookupUpdates(base, patch[1..], k);
    }
  }

  /** One key of a merge. */
  lemma MergeLookup(base: Json, patch: seq<Field>, k: string)
    requires DistinctKeys(patch)
    ensures Lookup(MergeSchema(base, patch).fields, k)
            == match Lookup(patch, k)
               case None => Lookup(Entries(base), k)
               case Some(v) => Some(if v.Obj? then MergeSchema(Child(base, k), v.fields) else v)
  {
    LookupPutAll(Entries(base), Updates(base, patch), k);
    LookupUpdates(base, patch, k);
  }

  lemma {:induction false} LookupWellFormed(fields: seq<Field>, k: string)
    requires WellFormed(Obj(fields)) && Lookup(fields, k).Some?
    ensures WellFormed(Lookup(fields, k).value)
    decreases |fields|
  {
    if fields[0].key != k {
      assert WellFormed(Obj(fields[1..]));
      LookupWellFormed(fields[1..], k);
    }
  }

  // ----- The three laws of merging -----

  /** Every leaf of the patch is in the result, whatever the base was. */
  lemma {:induction false} PatchLeavesWin(base: Json, patch: seq<Field>, path: KeyPath)
    requires WellFormed(Obj(patch)) && path != []
    requires Get(Obj(patch), path).Some? && !Get(Obj(patch), path).value.Obj?
    ensures Get(MergeSchema(base, patch), path) == Get(Obj(patch), path)
    decreases |path|
  {
    var k := path[0];
    MergeLookup(base, patch, k);
    LookupWellFormed(patch, k);
    var v := Lookup(patch, k).value;
    if v.Obj? {
      PatchLeavesWin(Child(base, k), v.fields, path[1..]);
    }
  }

  /** The patch says nothing about this path: it leaves the path's key out at some object. */
  predicate Untouched(patch: seq<Field>, path: KeyPath)
    decreases |path|
  {
    path != [] &&
    match Lookup(patch, path[0])
    case None => true
    case Some(v) => v.Obj? && Untouched(v.fields, path[1..])
  }

  /** Along the path, patch objects meet base values that spread to nothing but their own fields. */
  predicate Compatible(base: Json, patch: seq<Field>, path: KeyPath)
    decreases |path|
  {
    && (base.Obj? || Entries(base) == [])
    && (path != [] && Lookup(patch, path[0]).Some? && Lookup(patch, path[0]).value.Obj? ==>
          Compatible(Child(base, path[0]), Lookup(patch, path[0]).value.fields, path[1..]))
  }

  /** Every path of the base that the patch does not touch keeps its value, or its absence. */
  lemma {:induction false} UntouchedPathsKept(base: Json, patch: seq<Field>, path: KeyPath)
    requires WellFormed(Obj(patch)) && Untouched(patch, path) && Compatible(base, patch, path)
    ensures Get(MergeSchema(base, patch), path) == Get(base, path)
    decreases |path|
  {
    var k := path[0];
    MergeLookup(base, patch, k);
    assert Entries(base) == if base.Obj? then base.fields else [];
    if Lookup(patch, k).Some? {
      LookupWellFormed(patch, k);
      UntouchedPathsKept(Child(base, k), Lookup(patch, k).value.fields, path[1..]);
      EmptyChild(base, k, path[1..]);
    }
  }

  /** Replacing a falsy value by an empty object changes no deeper path. */
  lemma EmptyChild(base: Json, k: string, rest: KeyPath)
    requires (base.Obj? || Entries(base) == []) && rest != []
    ensures Get(Child(base, k), rest) == Get(base, [k] + rest)
  {
    assert ([k] + rest)[1..] == rest;
  }

  lemma {:induction false} PutSame(fields: seq<Field>, key: string)
    requires Lookup(fields, key).Some?
    ensures Put(fields, key, Lookup(fields, key).value) == fields
    decreases |fields|
  {
    if fields[0].key != key {
      PutSame(fields[1..], key);
      assert fields == [fields[0]] + fields[1..];
    } else {
      assert fields == [Field(key, fields[0].value)] + fields[1..];
    }
  }

  lemma {:induction false} PutAllSame(fields: seq<Field>, updates: seq<Field>)
    requires forall i | 0 <= i < |updates| :: Lookup(fields, updates[i].key) == Some(updates[i].value)
    ensures PutAll(fields, updates) == fields
    decreases |updates|
  {
    if updates != [] {
      PutSame(fields, updates[0].key);
      PutAllSame(fields, updates[1..]);
    }
  }

  /** Merging the same patch twice is merging it once, order of keys included. */
  lemma {:induction false} MergeIdempotent(base: Json, patch: seq<Field>)
    requires WellFormed(Obj(patch))
    ensures MergeSchema(MergeSchema(base, patch), patch) == MergeSchema(base, patch)
    decreases patch
  {
    var once := MergeSchema(base, patch);
    var again := Updates(once, patch);
    forall i | 0 <= i < |patch|
      ensures Lookup(once.fields, again[i].key) == Some(again[i].value)
    {
      var f := patch[i];
      MergeLookup(base, patch, f.key);
      LookupAt(patch, i);
      LookupAt(again, i);
      LookupUpdates(once, patch, f.key);
      if f.value.Obj? {
        MergeIdempotent(Child(base, f.key), f.value.fields);
      }
    }
    PutAllSame(once.fields, again);
  }

  /** A patch merged into itself is itself. */
  lemma {:induction false} MergeSelf(patch: seq<Field>)
    requires WellFormed(Obj(patch))
    ensures MergeSchema(Obj(patch), patch) == Obj(patch)
    decreases patch
  {
    var again := Updates(Obj(patch), patch);
    forall i | 0 <= i < |patch|
      ensures Lookup(patch, again[i].key) == Some(again[i].value)
    {
      LookupAt(patch, i);
      LookupAt(again, i);
      LookupUpdates(Obj(patch), patch, patch[i].key);
      if patch[i].value.Obj? {
        MergeSelf(patch[i].value.fields);
      }
    }
    PutAllSame(patch, again);
  }

  // ----- Overriding the graph -----

  /** JavaScript's === between separately parsed values: two arrays or objects are never equal. */
  predicate StrictEqual(a: Option<Json>, b: Json) {
    a.Some? && Scalar(b) && a.value == b
  }

  function Prop(node: Json, key: string): Option<Json> {
    if node.Obj? then Lookup(node.fields, key) else None
  }

  predicate NodeMatches(node: Json, patch: Json) {
    var id, type_ := Prop(patch, "@id"), Prop(patch, "@type");
    if Truthy(id) then StrictEqual(Prop(node, "@id"), id.value)
    else if Truthy(type_) then StrictEqual(Prop(node, "@type"), type_.value)
    else Prop(node, "@type") in {Some(Str("RealEstateListing")), Some(Str("WebPage"))}
  }

  function FindNode(graph: seq<Json>, patch: Json): (i: nat)
    ensures i <= |graph| && (i < |graph| ==> NodeMatches(graph[i], patch))
    ensures forall j | 0 <= j < i :: !NodeMatches(graph[j], patch)
  {
    if graph == [] || NodeMatches(graph[0], patch) then 0 else 1 + FindNode(graph[1..], patch)
  }

  function ApplyPatch(graph: seq<Json>, patch: Json): seq<Json> {
    if !patch.Obj? then graph
    else
      var i := FindNode(graph, patch);
      if i < |graph| then graph[i := MergeSchema(graph[i], patch.fields)] else graph + [patch]
  }

  function ApplyPatches(graph: seq<Json>, patches: seq<Json>): seq<Json>
    decreases |patches|
  {
    if patches == [] then graph else ApplyPatches(ApplyPatch(graph, patches[0]), patches[1..])
  }

  /** An override is a list of patches under @graph, or a single patch. */
  function Patches(override_: seq<Field>): seq<Json> {
    var listed := Lookup(override_, "@graph");
    if listed.Some? && listed.value.Arr? then listed.value.items
    else if override_ != [] then [Obj(override_)]
    else []
  }

  /** Keys of a node that no patch mentions survive every override, at the same position. */
  lemma {:induction false} NodesSurvive(graph: seq<Json>, patches: seq<Json>, i: nat, k: string)
    requires i < |graph| && graph[i].Obj?
    requires forall j | 0 <= j < |patches| :: patches[j].Obj? ==> DistinctKeys(patches[j].fields) && Lookup(patches[j].fields, k).None?
    ensures var r := ApplyPatches(graph, patches);
            |r| >= |graph| && r[i].Obj? && Lookup(r[i].fields, k) == Lookup(graph[i].fields, k)
    decreases |patches|
  {
    if patches != [] {
      if patches[0].Obj? && FindNode(graph, patches[0]) == i {
        MergeLookup(graph[i], patches[0].fields, k);
      }
      NodesSurvive(ApplyPatch(graph, patches[0]), patches[1..], i, k);
    }
  }

  /** The patch names this under this key: something other than null, false, zero or no text. */
  ghost predicate NamesUnder(patch: Json, key: string, name: Json) {
    Prop(patch, key) == Some(name) && name !in {Null, Bool(false), Num(0), Str("")}
  }

  predicate Bears(node: Json, key: string, name: Json) {
    Prop(node, key) == Some(name) && !name.Arr? && !name.Obj?
  }

  /**
   Whom a patch is meant for: the node with the `@id` it names, or else the type it names, or else
   a listing or web page.
   */
  ghost predicate MeantFor(patch: Json, node: Json) {
    if exists name :: NamesUnder(patch, "@id", name)
    then exists name :: NamesUnder(patch, "@id", name) && Bears(node, "@id", name)
    else if exists name :: NamesUnder(patch, "@type", name)
    then exists name :: NamesUnder(patch, "@type", name) && Bears(node, "@type", name)
    else Bears(node, "@type", Str("RealEstateListing")) || Bears(node, "@type", Str("WebPage"))
  }

  lemma NodeMatchesIff(node: Json, patch: Json)
    ensures NodeMatches(node, patch) <==> MeantFor(patch, node)
  {
    TruthyIff(patch, "@id");
    TruthyIff(patch, "@type");
  }

  lemma TruthyIff(patch: Json, key: string)
    ensures Truthy(Prop(patch, key)) <==> exists name :: NamesUnder(patch, key, name)
    ensures Truthy(Prop(patch, key)) ==> NamesUnder(patch, key, Prop(patch, key).value)
  {
    if Truthy(Prop(patch, key)) {
      assert NamesUnder(patch, key, Prop(patch, key).value);
    }
  }

  /**
   An override takes effect on exactly one node: the first that matches, or a new one at the end.
   There each of its leaves can be read back; every other node is as it was.
   */
  lemma OverrideTakesEffect(graph: seq<Json>, patch: Json, path: KeyPath) returns (i: nat)
    requires patch.Obj? && WellFormed(patch)
    requires path != [] && Get(patch, path).Some? && !Get(patch, path).value.Obj?
    ensures var r := ApplyPatch(graph, patch);
            && i <= |graph| && |r| == (if i == |graph| then |graph| + 1 else |graph|)
            && (i < |graph| ==> MeantFor(patch, graph[i]))
            && (forall j | 0 <= j < i :: !MeantFor(patch, graph[j]))
            && Get(r[i], path) == Get(patch, path)
            && (forall j | 0 <= j < |graph| && j != i :: r[j] == graph[j])
  {
    i := FindNode(graph, patch);
    forall j | 0 <= j < |graph| ensures NodeMatches(graph[j], patch) <==> MeantFor(patch, graph[j]) {
      NodeMatchesIff(graph[j], patch);
    }
    if i < |graph| {
      PatchLeavesWin(graph[i], patch.fields, path);
    }
  }

  lemma {:induction false} ApplyInOrder(graph: seq<Json>, a: seq<Json>, b: seq<Json>)
    ensures ApplyPatches(graph, a + b) == ApplyPatches(ApplyPatches(graph, a), b)
    ensures forall patch :: ApplyPatches(graph, [patch]) == ApplyPatch(graph, patch)
    decreases |a|
  {
    forall patch ensures ApplyPatches(graph, [patch]) == ApplyPatch(graph, patch) {
      assert [patch][1..] == [];
      assert ApplyPatches(ApplyPatch(graph, patch), []) == ApplyPatch(graph, patch);
    }
    if a == [] {
      assert a + b == b;
    } else {
      assert (a + b)[1..] == a[1..] + b;
      ApplyInOrder(ApplyPatch(graph, a[0]), a[1..], b);
    }
  }

  /** Some node of the graph has this value at this path. */
  ghost predicate Holds(graph: seq<Json>, path: KeyPath, value: Option<Json>) {
    exists i :: 0 <= i < |graph| && Get(graph[i], path) == value
  }

  /** A leaf of patch j, under a key that no later patch mentions. */
  ghost predicate LastLeaf(patches: seq<Json>, j: nat, path: KeyPath) {
    && j < |patches| && patches[j].Obj? && path != []
    && Get(patches[j], path).Some? && !Get(patches[j], path).value.Obj?
    && forall m | j < m < |patches| && patches[m].Obj? :: Lookup(patches[m].fields, path[0]).None?
  }

  lemma {:induction false} LaterPatchesKeep(graph: seq<Json>, patches: seq<Json>, path: KeyPath, i: nat)
    requires i < |graph| && graph[i].Obj? && path != []
    requires forall m | 0 <= m < |patches| && patches[m].Obj? ::
               DistinctKeys(patches[m].fields) && Lookup(patches[m].fields, path[0]).None?
    ensures var r := ApplyPatches(graph, patches); i < |r| && Get(r[i], path) == Get(graph[i], path)
    decreases |patches|
  {
    NodesSurvive(graph, patches, i, path[0]);
  }

  /** Every patch of a list takes effect: what it says last, some node of the result says. */
  lemma {:induction false} EveryPatchTakesEffect(graph: seq<Json>, patches: seq<Json>, j: nat, path: KeyPath)
    requires forall m | 0 <= m < |patches| :: WellFormed(patches[m])
    requires LastLeaf(patches, j, path)
    ensures Holds(ApplyPatches(graph, patches), path, Get(patches[j], path))
  {
    var before := ApplyPatches(graph, patches[..j]);
    var rest := patches[j + 1..];
    var i := OverrideTakesEffect(before, patches[j], path);
    var after := ApplyPatch(before, patches[j]);
    assert patches == patches[..j] + ([patches[j]] + rest);
    ApplyInOrder(graph, patches[..j], [patches[j]] + rest);
    ApplyInOrder(before, [patches[j]], rest);
    forall m | 0 <= m < |rest| && rest[m].Obj?
      ensures DistinctKeys(rest[m].fields) && Lookup(rest[m].fields, path[0]).None?
    {
      assert rest[m] == patches[j + 1 + m];
    }
    LaterPatchesKeep(after, rest, path, i);
  }

  /** What an override list promises of the resulting graph. */
  ghost predicate AllTakeEffect(graph: seq<Json>, patches: seq<Json>) {
    (forall m | 0 <= m < |patches| :: WellFormed(patches[m])) ==>
      forall j: nat, path | LastLeaf(patches, j, path) :: Holds(graph, path, Get(patches[j], path))
  }

  /** The patch says which node it is for, by an @id or else a @type that can be compared. */
  predicate NamesNode(patch: Json) {
    var id, type_ := Prop(patch, "@id"), Prop(patch, "@type");
    if Truthy(id) then Scalar(id.value) else Truthy(type_) && Scalar(type_.value)
  }

  predicate AllObjects(graph: seq<Json>) {
    forall i | 0 <= i < |graph| :: graph[i].Obj?
  }

  lemma MergedStillMatches(node: Json, patch: Json)
    requires patch.Obj? && WellFormed(patch) && NamesNode(patch) && node.Obj?
    ensures NodeMatches(MergeSchema(node, patch.fields), patch)
    ensures NodeMatches(patch, patch)
  {
    MergeLookup(node, patch.fields, "@id");
    MergeLookup(node, patch.fields, "@type");
  }

  lemma NamedPatchIdempotent(graph: seq<Json>, patch: Json)
    requires patch.Obj? && WellFormed(patch) && NamesNode(patch) && AllObjects(graph)
    ensures ApplyPatch(ApplyPatch(graph, patch), patch) == ApplyPatch(graph, patch)
  {
    var i := FindNode(graph, patch);
    var once := ApplyPatch(graph, patch);
    var node := if i < |graph| then graph[i] else patch;
    MergedStillMatches(node, patch);
    assert NodeMatches(once[i], patch);
    forall j | 0 <= j < i ensures !NodeMatches(once[j], patch) { assert once[j] == graph[j]; }
    assert FindNode(once, patch) == i;
    if i < |graph| {
      MergeIdempotent(graph[i], patch.fields);
      assert once[i := once[i]] == once;
    } else {
      MergeSelf(patch.fields);
      assert once[i := once[i]] == once;
    }
  }

  /**
   Applying one override twice equals applying it once, on every graph, exactly when it names its
   node.  An unnamed patch that finds no listing or page node is appended again each time.
   */
  lemma IdempotentIff(patch: Json)
    requires patch.Obj? && WellFormed(patch)
    ensures (forall graph | AllObjects(graph) :: ApplyPatch(ApplyPatch(graph, patch), patch) == ApplyPatch(graph, patch))
            <==> NamesNode(patch)
  {
    if NamesNode(patch) {
      forall graph | AllObjects(graph)
        ensures ApplyPatch(ApplyPatch(graph, patch), patch) == ApplyPatch(graph, patch)
      {
        NamedPatchIdempotent(graph, patch);
      }
    } else {
      assert AllObjects([]);
      assert ApplyPatch([], patch) == [patch];
      assert !NodeMatches(patch, patch);
      assert FindNode([patch], patch) == 1;
      assert |ApplyPatch([patch], patch)| == 2;
    }
  }

  class SchemaGraph {
    var nodes: seq<Json>

    constructor (nodes: seq<Json>)
      ensures this.nodes == nodes
    {
      this.nodes := nodes;
    }

    method ApplySchemaOverrides(override_: seq<Field>)
      modifies this
      ensures nodes == ApplyPatches(old(nodes), Patches(override_))
      ensures var listed := Lookup(override_, "@graph");
              AllTakeEffect(nodes, if listed.Some? && listed.value.Arr? then listed.value.items else [Obj(override_)])
      ensures override_ == [] ==> nodes == old(nodes)
    {
      var patches := Patches(override_);
      for k := 0 to |patches|
        invariant ApplyPatches(nodes, patches[k..]) == ApplyPatches(old(nodes), patches)
      {
        var patch := patches[k];
        assert patches[k..][1..] == patches[k + 1..];
        if !patch.Obj? {
          continue;
        }
        var index := FindNode(nodes, patch);
        if index < |nodes| {
          nodes := nodes[index := MergeSchema(nodes[index], patch.fields)];
        } else {
          nodes := nodes + [patch];
        }
      }
      if forall m | 0 <= m < |patches| :: WellFormed(patches[m]) {
        forall j: nat, path | LastLeaf(patches, j, path) ensures Holds(nodes, path, Get(patches[j], path)) {
          EveryPatchTakesEffect(old(nodes), patches, j, path);
        }
      }
    }
  }

  // ----- Stripping offers -----

  const OFFER_TYPES := {Some(Str("Offer")), Some(Str("AggregateOffer"))}
  const OFFER_KEYS := {"offers", "availability"}

  predicate IsOffer(node: Json) {
    Prop(node, "@type") in OFFER_TYPES
  }

  function StripOffers(v: Json): Json
    decreases v, 1
  {
    match v
    case Arr(items) => Arr(StripItems(items))
    case Obj(fields) => Obj(StripFields(fields))
    case _ => v
  }

  function StripItems(items: seq<Json>): seq<Json>
    decreases items, 0
  {
    if items == [] then []
    else (if IsOffer(items[0]) then [] else [StripOffers(items[0])]) + StripItems(items[1..])
  }

  function StripFields(fields: seq<Field>): seq<Field>
    decreases fields, 0
  {
    if fields == [] then []
    else (if fields[0].key in OFFER_KEYS then [] else [Field(fields[0].key, StripOffers(fields[0].value))])
         + StripFields(fields[1..])
  }

  /** No offer key and no listed offer at any depth. */
  predicate OfferFree(v: Json) {
    match v
    case Arr(items) => forall i | 0 <= i < |items| :: !Bears(items[i], "@type", Str("Offer"))
                         && !Bears(items[i], "@type", Str("AggregateOffer")) && OfferFree(items[i])
    case Obj(fields) => forall i | 0 <= i < |fields| ::
                          fields[i].key != "offers" && fields[i].key != "availability" && OfferFree(fields[i].value)
    case _ => true
  }

  lemma {:induction false} LookupStrip(fields: seq<Field>, k: string)
    requires k !in OFFER_KEYS
    ensures Lookup(StripFields(fields), k)
            == match Lookup(fields, k) case None => None case Some(v) => Some(StripOffers(v))
    decreases |fields|
  {
    if fields != [] {
      var rest := StripFields(fields[1..]);
      if fields[0].key in OFFER_KEYS {
        assert StripFields(fields) == rest;
      } else {
        assert StripFields(fields)[1..] == rest;
      }
      LookupStrip(fields[1..], k);
    }
  }

  lemma StripKeepsType(v: Json)
    ensures IsOffer(StripOffers(v)) <==> IsOffer(v)
  {
    if v.Obj? {
      LookupStrip(v.fields, "@type");
    }
  }

  lemma {:induction false} StripIsOfferFree(v: Json)
    ensures OfferFree(StripOffers(v))
    decreases v, 1
  {
    match v
    case Arr(items) => StripItemsOfferFree(items);
    case Obj(fields) => StripFieldsOfferFree(fields);
    case _ =>
  }

  lemma {:induction false} StripItemsOfferFree(items: seq<Json>)
    ensures OfferFree(Arr(StripItems(items)))
    decreases items, 0
  {
    if items != [] {
      StripItemsOfferFree(items[1..]);
      if !IsOffer(items[0]) {
        StripIsOfferFree(items[0]);
        StripKeepsType(items[0]);
      }
    }
  }

  lemma {:induction false} StripFieldsOfferFree(fields: seq<Field>)
    ensures OfferFree(Obj(StripFields(fields)))
    decreases fields, 0
  {
    if fields != [] {
      StripFieldsOfferFree(fields[1..]);
      StripIsOfferFree(fields[0].value);
    }
  }

  /** The main page of off-market inventory shows no offer, whatever the generated graph and the overrides were. */
  lemma OffMarketIsOfferFree(graph: seq<Json>, override_: seq<Field>)
    ensures OfferFree(StripOffers(Arr(ApplyPatches(graph, Patches(override_)))))
  {
    StripIsOfferFree(Arr(ApplyPatches(graph, Patches(override_))));
  }

  /** Stripping changes a value exactly when there is something to strip. */
  lemma {:induction false} StripIdleIff(v: Json)
    ensures StripOffers(v) == v <==> OfferFree(v)
    decreases v, 1
  {
    StripIsOfferFree(v);
    if OfferFree(v) {
      match v
      case Arr(items) => StripItemsIdle(items);
      case Obj(fields) => StripFieldsIdle(fields);
      case _ =>
    }
  }

  lemma {:induction false} StripItemsIdle(items: seq<Json>)
    requires OfferFree(Arr(items))
    ensures StripItems(items) == items
    decreases items, 0
  {
    if items != [] {
      StripIdleIff(items[0]);
      assert OfferFree(Arr(items[1..]));
      StripItemsIdle(items[1..]);
      assert items == [items[0]] + items[1..];
    }
  }

  lemma {:induction false} StripFieldsIdle(fields: seq<Field>)
    requires OfferFree(Obj(fields))
    ensures StripFields(fields) == fields
    decreases fields, 0
  {
    if fields != [] {
      StripIdleIff(fields[0].value);
      assert OfferFree(Obj(fields[1..]));
      StripFieldsIdle(fields[1..]);
      assert fields == [fields[0]] + fields[1..];
    }
  }

  lemma StripIdempotent(v: Json)
    ensures StripOffers(StripOffers(v)) == StripOffers(v)
  {
    StripIsOfferFree(v);
    StripIdleIff(StripOffers(v));
  }

  /** Every path that avoids the offer keys leads to the stripped form of what it led to before. */
  lemma {:induction false} StripKeepsPaths(v: Json, path: KeyPath)
    requires forall i | 0 <= i < |path| :: path[i] != "offers" && path[i] != "availability"
    ensures Get(StripOffers(v), path)
            == match Get(v, path) case None => None case Some(w) => Some(StripOffers(w))
    decreases |path|
  {
    if path != [] && v.Obj? {
      LookupStrip(v.fields, path[0]);
      if Lookup(v.fields, path[0]).Some? {
        StripKeepsPaths(Lookup(v.fields, path[0]).value, path[1..]);
      }
    }
  }

  /** The positions of the array elements that stay. */
  function Kept(items: seq<Json>, from: nat): seq<nat> {
    if items == [] then [] else (if IsOffer(items[0]) then [] else [from]) + Kept(items[1..], from + 1)
  }

  /** They are exactly the elements that are not offers. */
  lemma {:induction false} KeptMembers(items: seq<Json>, from: nat, n: nat)
    ensures n in Kept(items, from)
            <==> from <= n < from + |items|
                 && Prop(items[n - from], "@type") !in {Some(Str("Offer")), Some(Str("AggregateOffer"))}
    decreases |items|
  {
    if items != [] {
      var rest := Kept(items[1..], from + 1);
      KeptMembers(items[1..], from + 1, n);
      if from < n < from + |items| {
        assert items[1..][n - (from + 1)] == items[n - from];
      }
      assert Kept(items, from) == if IsOffer(items[0]) then rest else [from] + rest;
    }
  }

  /** They stay in their order... */
  lemma {:induction false} KeptIncreasing(items: seq<Json>, from: nat)
    ensures forall i | 0 <= i < |Kept(items, from)| :: from <= Kept(items, from)[i]
    ensures forall i, j | 0 <= i < j < |Kept(items, from)| :: Kept(items, from)[i] < Kept(items, from)[j]
    decreases |items|
  {
    if items != [] {
      KeptIncreasing(items[1..], from + 1);
    }
  }

  lemma {:induction false} StripLength(items: seq<Json>, from: nat)
    ensures |StripItems(items)| == |Kept(items, from)|
    decreases |items|
  {
    if items != [] {
      StripLength(items[1..], from + 1);
    }
  }

  /** ...each of them stripped, and nothing else is in the result. */
  lemma {:induction false} StripKeepsOrder(items: seq<Json>, from: nat, i: nat)
    requires i < |Kept(items, from)|
    ensures |StripItems(items)| == |Kept(items, from)|
    ensures var n := Kept(items, from)[i];
            from <= n < from + |items| && StripItems(items)[i] == StripOffers(items[n - from])
    ensures forall j | 0 <= j < i :: Kept(items, from)[j] < Kept(items, from)[i]
    decreases |items|
  {
    StripLength(items, from);
    KeptIncreasing(items, from);
    var tail, rest := items[1..], Kept(items[1..], from + 1);
    if IsOffer(items[0]) {
      StripKeepsOrder(tail, from + 1, i);
      assert tail[rest[i] - (from + 1)] == items[rest[i] - from];
    } else if i > 0 {
      StripKeepsOrder(tail, from + 1, i - 1);
      assert tail[rest[i - 1] - (from + 1)] == items[rest[i - 1] - from];
    }
  }
}
