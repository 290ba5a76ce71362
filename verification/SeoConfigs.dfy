/**
 SEO configurations: optimistic revisions, the version log, restoring, and renames that leave
 a redirect behind.
 */
module SeoConfigs {
  import opened Common
  import opened RedirectGraph
  import opened Redirects

  type ConfigKey = string

  /**
   Content of a configuration.  Columns are replaced by a save that mentions them; entries of
   the settings, section, entity and image maps are overlaid one by one and never removed.
   */
  datatype Content = Content(columns: map<string, string>, entries: map<string, string>)

  /** The rule of a listing page, kept beside its configuration, with FAQs and texts of its own; values are JSON. */
  datatype Listing = Listing(rule: string, faqs: string, intro: string, bottom: string)

  datatype Config = Config(revision: nat, path: Option<Path>, content: Content, listing: Option<Listing>)
  datatype Version = Version(key: ConfigKey, config: Config)
  datatype Store = Store(configs: map<ConfigKey, Config>, log: seq<Version>, redirects: Table)

  datatype PathEdit = Keep | Clear | Set(path: Path)
  datatype Body = Body(revision: nat, path: PathEdit, content: Content, autoRedirect: bool, listing: Option<Listing>)

  datatype ConfigError = Invalid | Stale | PathTaken | BadPreviousPath | NoSuchVersion | Removed | NoListing | NeedsUrl

  /** What a listing row shares with its configuration: a column, and two entries of the settings. */
  const FAQS := "faqs"
  const INTRO := "settings.intro_content"
  const BOTTOM := "settings.bottom_content"

  function Overlay(old_: Content, new_: Content): Content {
    Content(old_.columns + new_.columns, old_.entries + new_.entries)
  }

  function NewPath(old_: Option<Path>, edit: PathEdit): Option<Path> {
    match edit
    case Keep => old_
    case Clear => None
    case Set(p) => Some(p)
  }

  /** Another configuration, or an active redirect, already answers at this path. */
  predicate Occupied(s: Store, key: ConfigKey, path: Path) {
    path in Edges(s.redirects) || exists k | k in s.configs :: k != key && s.configs[k].path == Some(path)
  }

  /** The property or project a configuration belongs to, if any, and the slug of that row. */
  datatype Inventory = NoInventory | Inventory(slug: Option<string>)

  predicate HasSlug(inventory: Inventory) {
    inventory.Inventory? && inventory.slug.Some? && inventory.slug.value != ""
  }

  /**
   The path a save will write: normalised when one is given; filled in from the inventory when a
   new configuration has none or an existing one is cleared.
   */
  function Resolve(s: Store, key: ConfigKey, edit: PathEdit, inventory: Inventory): Result<PathEdit, ConfigError> {
    var given := if edit == Set("") then Clear else edit;
    if given.Set? then Normalised(given.path)
    else if HasSlug(inventory) && (given.Clear? || key !in s.configs) then Normalised("/" + inventory.slug.value)
    else Ok(given)
  }

  function Normalised(path: string): Result<PathEdit, ConfigError> {
    match PathValue(path)
    case Ok(p) => Ok(Set(p))
    case Err(_) => Err(Invalid)
  }

  /** The path whose visitors a rename must redirect: the configured one, else the inventory's own. */
  function PreviousPath(s: Store, key: ConfigKey, inventory: Inventory): Option<Path> {
    if key in s.configs && s.configs[key].path.Some? then s.configs[key].path
    else match inventory
         case NoInventory => None
         case Inventory(slug) => Some("/" + slug.GetOr("null"))
  }

  predicate Renames(s: Store, key: ConfigKey, body: Body, inventory: Inventory) {
    var previous := PreviousPath(s, key, inventory);
    body.path.Set? && previous.Some? && previous.value != body.path.path && body.autoRedirect
  }

  /** What writing can still fail on once the path is resolved. */
  function WriteError(s: Store, key: ConfigKey, body: Body, inventory: Inventory): Option<ConfigError> {
    if body.path.Set? && Occupied(s, key, body.path.path) then Some(PathTaken)
    else if Renames(s, key, body, inventory)
            && (PathValue(PreviousPath(s, key, inventory).value).Err?
                || PathValue(PreviousPath(s, key, inventory).value).value == body.path.path)
    then Some(BadPreviousPath)
    else None
  }

  /** `valid` covers the checks of field formats, reserved routes and inventory slugs. */
  function SaveError(s: Store, key: ConfigKey, body: Body, valid: bool, inventory: Inventory): Option<ConfigError> {
    if key in s.configs && body.revision != s.configs[key].revision then Some(Stale)
    else if !valid then Some(Invalid)
    else match Resolve(s, key, body.path, inventory)
         case Err(e) => Some(e)
         case Ok(edit) => WriteError(s, key, body.(path := edit), inventory)
  }

  /** The body of a save that succeeds, with the path it writes. */
  function Resolved(s: Store, key: ConfigKey, body: Body, valid: bool, inventory: Inventory): Body
    requires SaveError(s, key, body, valid, inventory).None?
  {
    body.(path := Resolve(s, key, body.path, inventory).value)
  }

  function Edited(s: Store, key: ConfigKey, body: Body): Config {
    if key in s.configs then
      var c := s.configs[key];
      Config(c.revision + 1, NewPath(c.path, body.path), Overlay(c.content, body.content),
             if body.listing.Some? then body.listing else c.listing)
    else Config(1, NewPath(None, body.path), body.content, body.listing)
  }

  function Written(s: Store, key: ConfigKey, body: Body, inventory: Inventory): Store
    requires WriteError(s, key, body, inventory).None?
  {
    Store(s.configs[key := Edited(s, key, body)],
          if key in s.configs then s.log + [Version(key, s.configs[key])] else s.log,
          if Renames(s, key, body, inventory)
          then s.redirects[PathValue(PreviousPath(s, key, inventory).value).value := Row(body.path.path, "slug_change", true)]
          else s.redirects)
  }

  function Saved(s: Store, key: ConfigKey, body: Body, valid: bool, inventory: Inventory): Store {
    if SaveError(s, key, body, valid, inventory).Some? then s
    else Written(s, key, Resolved(s, key, body, valid, inventory), inventory)
  }

  /** A request to restore: the version, the revision it was made from, and the snapshot's redirect setting. */
  datatype Request = Request(version: nat, revision: nat, autoRedirect: bool, valid: bool, inventory: Inventory)

  /**
   A text of the listing row enters the settings, unless the snapshot's settings have one that
   differs from the current one.
   */
  function WithText(current: map<string, string>, entries: map<string, string>, key: string, text: string): map<string, string> {
    if key in entries && !(key in current && current[key] == entries[key]) then entries else entries[key := text]
  }

  /** What a restore saves: the snapshot's content, with its listing row spread over it. */
  function RestoredContent(current: Content, snapshot: Config): Content {
    match snapshot.listing
    case None => snapshot.content
    case Some(row) =>
      Content(snapshot.content.columns[FAQS := row.faqs],
              WithText(current.entries, WithText(current.entries, snapshot.content.entries, INTRO, row.intro), BOTTOM, row.bottom))
  }

  /** Restoring saves over the current record, at the current path. */
  function RestoreBody(s: Store, key: ConfigKey, snapshot: Config, r: Request): Body
    requires key in s.configs
  {
    var current := s.configs[key];
    Body(r.revision, if current.path.Some? then Set(current.path.value) else Clear,
         RestoredContent(current.content, snapshot), r.autoRedirect, snapshot.listing)
  }

  /** A version of a listing page is restored through the listing rules, which need the row and a path. */
  function ListingError(current: Config, snapshot: Config): Option<ConfigError> {
    if snapshot.listing.None? then None
    else if current.listing.None? then Some(NoListing)
    else if current.path.None? then Some(NeedsUrl)
    else None
  }

  function RestoreError(s: Store, key: ConfigKey, r: Request): Option<ConfigError> {
    if r.version >= |s.log| || s.log[r.version].key != key then Some(NoSuchVersion)
    else if key !in s.configs then Some(Removed)
    else if r.revision != s.configs[key].revision then Some(Stale)
    else
      var refused := ListingError(s.configs[key], s.log[r.version].config);
      if refused.Some? then refused
      else SaveError(s, key, RestoreBody(s, key, s.log[r.version].config, r), r.valid, r.inventory)
  }

  function Restore(s: Store, key: ConfigKey, r: Request): Store {
    if RestoreError(s, key, r).Some? then s
    else Saved(s, key, RestoreBody(s, key, s.log[r.version].config, r), r.valid, r.inventory)
  }

  // ----- What a save writes -----

  /** Overlaying: an entry that is mentioned is replaced, the others stay, and none goes. */
  ghost predicate Overlaid(before: map<string, string>, edit: map<string, string>, after: map<string, string>) {
    && (forall k :: k in after <==> k in before || k in edit)
    && (forall k | k in edit :: after[k] == edit[k])
    && (forall k | k in before && k !in edit :: after[k] == before[k])
  }

  /** The text a save takes its path from: the one given, or the inventory's slug where none is. */
  ghost predicate WantedPath(s: Store, key: ConfigKey, edit: PathEdit, inventory: Inventory, wanted: string) {
    || (edit == Set(wanted) && wanted != "")
    || ((edit in {Clear, Set("")} || (edit == Keep && key !in s.configs))
        && exists slug :: inventory == Inventory(Some(slug)) && slug != "" && wanted == "/" + slug)
  }

  /** Where visitors came before: the configured path, or else the inventory's own URL. */
  ghost predicate FormerPath(s: Store, key: ConfigKey, inventory: Inventory, former: string) {
    if key in s.configs && s.configs[key].path.Some? then former == s.configs[key].path.value
    else match inventory
         case NoInventory => false
         case Inventory(None) => former == "/null"
         case Inventory(Some(slug)) => former == "/" + slug
  }

  /** Nobody else answers at this path. */
  ghost predicate FreePath(s: Store, key: ConfigKey, path: Path) {
    && (path in s.redirects ==> !s.redirects[path].active)
    && (forall k | k in s.configs && k != key :: s.configs[k].path != Some(path))
  }

  /** The path can be taken, and the former one, if it is another, can be made to lead there. */
  ghost predicate CanMoveTo(s: Store, key: ConfigKey, inventory: Inventory, autoRedirect: bool, path: Path) {
    && FreePath(s, key, path)
    && (autoRedirect ==>
          forall former | FormerPath(s, key, inventory, former) && former != path ::
            exists source :: Names(former, source) && source != path)
  }

  /** A save goes through exactly from the current revision, when it is valid and can have its path. */
  lemma SaveAcceptedIff(s: Store, key: ConfigKey, body: Body, valid: bool, inventory: Inventory)
    ensures SaveError(s, key, body, valid, inventory).None?
            <==> && (key in s.configs ==> body.revision == s.configs[key].revision) && valid
                 && forall wanted | WantedPath(s, key, body.path, inventory, wanted) ::
                      exists path :: Names(wanted, path) && CanMoveTo(s, key, inventory, body.autoRedirect, path)
  {
    ResolveIs(s, key, body.path, inventory);
    var edit := Resolve(s, key, body.path, inventory);
    if edit.Ok? && edit.value.Set? {
      WriteAcceptedIff(s, key, body.(path := edit.value), inventory);
    }
  }

  /** And why a save is refused: its revision first, then its validity, then its path, then the former one. */
  lemma SaveAnswer(s: Store, key: ConfigKey, body: Body, valid: bool, inventory: Inventory)
    ensures var error := SaveError(s, key, body, valid, inventory);
            var stale := key in s.configs && body.revision != s.configs[key].revision;
            var nameless := exists wanted :: WantedPath(s, key, body.path, inventory, wanted) && forall path :: !Names(wanted, path);
            var taken := exists wanted, path :: WantedPath(s, key, body.path, inventory, wanted) && Names(wanted, path)
                                                && !FreePath(s, key, path);
            && (stale <==> error == Some(Stale))
            && (!stale && (!valid || nameless) <==> error == Some(Invalid))
            && (!stale && valid && taken <==> error == Some(PathTaken))
            && (error.Some? ==> error.value in {Stale, Invalid, PathTaken, BadPreviousPath})
  {
    ResolveIs(s, key, body.path, inventory);
    var edit := Resolve(s, key, body.path, inventory);
    if edit.Ok? && edit.value.Set? {
      OccupiedIff(s, key, edit.value.path);
    }
  }

  lemma OccupiedIff(s: Store, key: ConfigKey, path: Path)
    ensures Occupied(s, key, path) <==> !FreePath(s, key, path)
  {}

  /** Resolving finds the path that the wanted text names. */
  lemma ResolveIs(s: Store, key: ConfigKey, edit: PathEdit, inventory: Inventory)
    ensures var r := Resolve(s, key, edit, inventory);
            && (r.Ok? && r.value.Set? ==>
                  exists wanted :: WantedPath(s, key, edit, inventory, wanted) && Names(wanted, r.value.path))
            && (r.Err? ==> exists wanted :: WantedPath(s, key, edit, inventory, wanted) && forall path :: !Names(wanted, path))
            && (forall wanted, path | WantedPath(s, key, edit, inventory, wanted) && Names(wanted, path) :: r == Ok(Set(path)))
            && ((forall wanted :: !WantedPath(s, key, edit, inventory, wanted)) ==>
                  r == Ok(if edit == Set("") then Clear else edit))
  {
    forall text, path ensures PathValue(text) == Ok(path) <==> Names(text, path) { AcceptedIff(text, path); }
    var given := if edit == Set("") then Clear else edit;
    if given.Set? {
      assert WantedPath(s, key, edit, inventory, given.path);
    } else if HasSlug(inventory) && (given.Clear? || key !in s.configs) {
      assert WantedPath(s, key, edit, inventory, "/" + inventory.slug.value);
    }
  }

  lemma WriteAcceptedIff(s: Store, key: ConfigKey, body: Body, inventory: Inventory)
    requires body.path.Set?
    ensures WriteError(s, key, body, inventory).None? <==> CanMoveTo(s, key, inventory, body.autoRedirect, body.path.path)
  {
    forall former ensures FormerPath(s, key, inventory, former) <==> PreviousPath(s, key, inventory) == Some(former) {
      FormerIs(s, key, inventory, former);
    }
    var previous := PreviousPath(s, key, inventory);
    if previous.Some? {
      forall path ensures PathValue(previous.value) == Ok(path) <==> Names(previous.value, path) {
        AcceptedIff(previous.value, path);
      }
    }
  }

  lemma FormerIs(s: Store, key: ConfigKey, inventory: Inventory, former: string)
    ensures FormerPath(s, key, inventory, former) <==> PreviousPath(s, key, inventory) == Some(former)
  {
    assert "/" + "null" == "/null";
  }

  /** A first save keeps what it was given, as revision one. */
  lemma FirstSave(s: Store, key: ConfigKey, body: Body, valid: bool, inventory: Inventory)
    requires SaveError(s, key, body, valid, inventory).None? && key !in s.configs
    ensures var c := Saved(s, key, body, valid, inventory).configs[key];
            && c.revision == 1 && c.content == body.content && c.listing == body.listing
            && (forall wanted | WantedPath(s, key, body.path, inventory, wanted) :: c.path.Some? && Names(wanted, c.path.value))
            && ((forall wanted :: !WantedPath(s, key, body.path, inventory, wanted)) ==> c.path.None?)
  {
    ResolveIs(s, key, body.path, inventory);
  }

  /** A later save takes the next revision and overlays what was there. */
  lemma LaterSave(s: Store, key: ConfigKey, body: Body, valid: bool, inventory: Inventory)
    requires SaveError(s, key, body, valid, inventory).None? && key in s.configs
    ensures var before, c := s.configs[key], Saved(s, key, body, valid, inventory).configs[key];
            && c.revision == before.revision + 1
            && Overlaid(before.content.columns, body.content.columns, c.content.columns)
            && Overlaid(before.content.entries, body.content.entries, c.content.entries)
            && c.listing == (if body.listing.Some? then body.listing else before.listing)
            && (forall wanted | WantedPath(s, key, body.path, inventory, wanted) :: c.path.Some? && Names(wanted, c.path.value))
            && ((forall wanted :: !WantedPath(s, key, body.path, inventory, wanted)) ==>
                  c.path == if body.path == Keep then before.path else None)
  {
    ResolveIs(s, key, body.path, inventory);
  }

  /** Nothing but the row, its history and perhaps one redirect changes. */
  lemma SaveFrame(s: Store, key: ConfigKey, body: Body, valid: bool, inventory: Inventory)
    requires SaveError(s, key, body, valid, inventory).None?
    ensures var t := Saved(s, key, body, valid, inventory);
            && t.configs.Keys == s.configs.Keys + {key}
            && (forall k | k in s.configs && k != key :: t.configs[k] == s.configs[k])
            && t.log == (if key in s.configs then s.log + [Version(key, s.configs[key])] else s.log)
  {}

  /** A redirect is left behind exactly when the path moves and the save asks for one. */
  lemma RenameLeavesRedirect(s: Store, key: ConfigKey, body: Body, valid: bool, inventory: Inventory,
                             wanted: string, path: Path, former: string, source: Path)
    requires SaveError(s, key, body, valid, inventory).None?
    requires WantedPath(s, key, body.path, inventory, wanted) && Names(wanted, path)
    requires FormerPath(s, key, inventory, former)
    ensures var after := Saved(s, key, body, valid, inventory).redirects;
            if !body.autoRedirect || former == path then after == s.redirects
            else Names(former, source) ==> after == s.redirects[source := Row(path, "slug_change", true)]
  {
    ResolveIs(s, key, body.path, inventory);
    assert Resolved(s, key, body, valid, inventory).path == Set(path);
    FormerIs(s, key, inventory, former);
    AcceptedIff(former, source);
  }

  lemma NoRename(s: Store, key: ConfigKey, body: Body, valid: bool, inventory: Inventory)
    requires SaveError(s, key, body, valid, inventory).None?
    requires || !body.autoRedirect || (forall wanted :: !WantedPath(s, key, body.path, inventory, wanted))
             || forall former :: !FormerPath(s, key, inventory, former)
    ensures Saved(s, key, body, valid, inventory).redirects == s.redirects
  {
    ResolveIs(s, key, body.path, inventory);
    if PreviousPath(s, key, inventory).Some? {
      FormerIs(s, key, inventory, PreviousPath(s, key, inventory).value);
    }
  }

  // ----- The version log -----

  /** The logged versions of one configuration, oldest first. */
  function LogOf(log: seq<Version>, key: ConfigKey): seq<Config> {
    if log == [] then []
    else
      var earlier := LogOf(log[..|log| - 1], key);
      if log[|log| - 1].key == key then earlier + [log[|log| - 1].config] else earlier
  }

  /** Everything a configuration ever was: its logged versions and its current state. */
  function Chain(s: Store, key: ConfigKey): seq<Config>
    requires key in s.configs
  {
    LogOf(s.log, key) + [s.configs[key]]
  }

  ghost predicate Numbered(chain: seq<Config>) {
    forall i | 0 <= i < |chain| :: chain[i].revision == i + 1
  }

  ghost predicate Consistent(s: Store) {
    forall key :: if key in s.configs then Numbered(Chain(s, key)) else LogOf(s.log, key) == []
  }

  lemma LogOfPush(log: seq<Version>, v: Version, key: ConfigKey)
    ensures LogOf(log + [v], key) == LogOf(log, key) + if v.key == key then [v.config] else []
  {
    assert (log + [v])[..|log|] == log;
  }

  /** A save only ever appends to what a configuration was. */
  lemma SaveExtends(s: Store, key: ConfigKey, body: Body, valid: bool, inventory: Inventory)
    requires Consistent(s)
    ensures var t := Saved(s, key, body, valid, inventory);
            && Consistent(t)
            && (forall k | k in s.configs :: k in t.configs && Chain(s, k) <= Chain(t, k))
            && (SaveError(s, key, body, valid, inventory).None? && key in s.configs ==>
                  Chain(t, key) == Chain(s, key) + [Edited(s, key, Resolved(s, key, body, valid, inventory))])
  {
    if SaveError(s, key, body, valid, inventory).None? {
      WriteExtends(s, key, Resolved(s, key, body, valid, inventory), inventory);
    }
  }

  lemma WriteExtends(s: Store, key: ConfigKey, body: Body, inventory: Inventory)
    requires Consistent(s) && WriteError(s, key, body, inventory).None?
    ensures var t := Written(s, key, body, inventory);
            && Consistent(t)
            && (forall k | k in s.configs :: k in t.configs && Chain(s, k) <= Chain(t, k))
            && (key in s.configs ==> Chain(t, key) == Chain(s, key) + [Edited(s, key, body)])
  {
    var t := Written(s, key, body, inventory);
    forall k
      ensures if k in t.configs then Numbered(Chain(t, k)) else LogOf(t.log, k) == []
      ensures k in s.configs ==> k in t.configs && Chain(s, k) <= Chain(t, k)
      ensures k == key && key in s.configs ==> Chain(t, key) == Chain(s, key) + [Edited(s, key, body)]
    {
      assert if k in s.configs then Numbered(Chain(s, k)) else LogOf(s.log, k) == [];
      if key in s.configs {
        LogOfPush(s.log, Version(key, s.configs[key]), k);
        assert Chain(s, key)[|LogOf(s.log, key)|] == s.configs[key];
      }
      assert k == key && key in s.configs ==> Chain(t, k) == Chain(s, k) + [Edited(s, key, body)];
      assert k == key && key !in s.configs ==> Chain(t, k) == [Edited(s, key, body)];
      assert k != key && k in s.configs ==> Chain(t, k) == Chain(s, k);
    }
  }

  // ----- Runs -----

  datatype Op =
    | SaveOp(key: ConfigKey, body: Body, valid: bool, inventory: Inventory)
    | RestoreOp(key: ConfigKey, request: Request)
    | RedirectsChange(rows: Table)

  function Step(s: Store, op: Op): Store {
    match op
    case SaveOp(key, body, valid, inventory) => Saved(s, key, body, valid, inventory)
    case RestoreOp(key, r) => Restore(s, key, r)
    case RedirectsChange(rows) => s.(redirects := rows)
  }

  function Run(s: Store, ops: seq<Op>): Store
    decreases |ops|
  {
    if ops == [] then s else Run(Step(s, ops[0]), ops[1..])
  }

  /** A run of one more operation is that operation after the run. */
  lemma {:induction false} RunOneMore(s: Store, ops: seq<Op>, op: Op)
    ensures Run(s, ops + [op]) == Step(Run(s, ops), op)
    decreases |ops|
  {
    if ops == [] {
      assert ops + [op] == [op];
      assert [op][1..] == [];
    } else {
      assert (ops + [op])[1..] == ops[1..] + [op];
      RunOneMore(Step(s, ops[0]), ops[1..], op);
    }
  }

  lemma StepExtends(s: Store, op: Op)
    requires Consistent(s)
    ensures var t := Step(s, op);
            Consistent(t) && forall k | k in s.configs :: k in t.configs && Chain(s, k) <= Chain(t, k)
  {
    match op
    case SaveOp(key, body, valid, inventory) => SaveExtends(s, key, body, valid, inventory);
    case RestoreOp(key, r) =>
      if RestoreError(s, key, r).None? {
        SaveExtends(s, key, RestoreBody(s, key, s.log[r.version].config, r), r.valid, r.inventory);
      }
    case RedirectsChange(rows) =>
      var t := Step(s, op);
      forall key
        ensures if key in t.configs then Numbered(Chain(t, key)) else LogOf(t.log, key) == []
        ensures key in s.configs ==> Chain(t, key) == Chain(s, key)
      {
        assert if key in s.configs then Numbered(Chain(s, key)) else LogOf(s.log, key) == [];
      }
  }

  lemma {:induction false} RunExtends(s: Store, ops: seq<Op>)
    requires Consistent(s)
    ensures var t := Run(s, ops);
            Consistent(t) && forall k | k in s.configs :: k in t.configs && Chain(s, k) <= Chain(t, k)
    decreases |ops|
  {
    if ops != [] {
      StepExtends(s, ops[0]);
      RunExtends(Step(s, ops[0]), ops[1..]);
    }
  }

  /**
   The log holds each past revision exactly once, with the content it had: whatever a
   configuration was when its revision was r is entry r of its history ever after.
   */
  lemma PastIsKept(s: Store, ops: seq<Op>, key: ConfigKey)
    requires Consistent(s) && key in s.configs
    ensures var t := Run(s, ops); var r := s.configs[key].revision;
            && key in t.configs && t.configs[key].revision == |LogOf(t.log, key)| + 1 >= r >= 1
            && Chain(t, key)[r - 1] == s.configs[key]
            && (forall i | 0 <= i < |LogOf(t.log, key)| :: LogOf(t.log, key)[i].revision == i + 1)
  {
    RunExtends(s, ops);
    var t := Run(s, ops);
    assert Numbered(Chain(s, key)) && Numbered(Chain(t, key));
    var n := |LogOf(s.log, key)|;
    assert Chain(s, key)[n] == s.configs[key] && Chain(t, key)[n] == Chain(s, key)[n];
    assert Chain(t, key)[|LogOf(t.log, key)|] == t.configs[key];
    forall i | 0 <= i < |LogOf(t.log, key)| ensures LogOf(t.log, key)[i].revision == i + 1 {
      assert Chain(t, key)[i] == LogOf(t.log, key)[i];
    }
  }

  /** Does this operation save over an existing configuration, from this revision, successfully? */
  predicate Succeeds(s: Store, op: Op, key: ConfigKey, revision: nat) {
    match op
    case SaveOp(k, body, valid, inventory) =>
      k == key && key in s.configs && body.revision == revision && SaveError(s, k, body, valid, inventory).None?
    case RestoreOp(k, r) => k == key && r.revision == revision && RestoreError(s, k, r).None?
    case RedirectsChange(_) => false
  }

  /** Two saves or restores from the same revision never both succeed, whatever happens in between. */
  lemma NoTwoSavesFromOneRevision(s: Store, first: Op, between: seq<Op>, second: Op, key: ConfigKey,
                                  revision: nat)
    requires Consistent(s) && Succeeds(s, first, key, revision)
    ensures !Succeeds(Run(Step(s, first), between), second, key, revision)
  {
    var t := Step(s, first);
    StepExtends(s, first);
    assert t.configs[key].revision == revision + 1;
    PastIsKept(t, between, key);
  }

  // ----- What restoring brings back -----

  /** All configurations have the same columns. */
  ghost predicate SameColumns(s: Store, columns: set<string>) {
    && (forall k | k in s.configs :: s.configs[k].content.columns.Keys == columns)
    && (forall i | 0 <= i < |s.log| :: s.log[i].config.content.columns.Keys == columns)
  }

  /** Stored paths are in normal form, and no two configurations claim one path. */
  ghost predicate GoodPaths(s: Store) {
    && (forall k | k in s.configs && s.configs[k].path.Some? ::
          PathValue(s.configs[k].path.value) == Ok(s.configs[k].path.value))
    && (forall k, m | k in s.configs && m in s.configs && k != m && s.configs[k].path.Some? ::
          s.configs[k].path != s.configs[m].path)
  }

  lemma OverlayAll(a: map<string, string>, b: map<string, string>)
    ensures a + b == b <==> a.Keys <= b.Keys
  {
    assert (a + b).Keys == a.Keys + b.Keys;
  }

  /** What a successful restore writes as path: the current one, or else what the inventory fills in. */
  lemma RestoredPath(s: Store, key: ConfigKey, r: Request)
    requires GoodPaths(s) && RestoreError(s, key, r).None?
    ensures var before, after := s.configs[key].path, Restore(s, key, r).configs[key].path;
            after == if before.Some? then before
                     else if HasSlug(r.inventory) then Some(PathValue("/" + r.inventory.slug.value).value)
                     else None
  {}

  /** The snapshot's listing row has the FAQs that the configuration itself had. */
  predicate ColumnsBack(snapshot: Config) {
    snapshot.listing.None? || (FAQS in snapshot.content.columns && snapshot.content.columns[FAQS] == snapshot.listing.value.faqs)
  }

  /** The settings had this text, and the listing's text, if it is taken over, is the same. */
  predicate TextBack(before: Content, snapshot: Content, key: string, text: string) {
    && key in snapshot.entries
    && (key in before.entries && before.entries[key] == snapshot.entries[key] ==> text == snapshot.entries[key])
  }

  /** Nothing was added to the entries since, and no text of the listing row replaces one of them. */
  predicate EntriesBack(before: Content, snapshot: Config) {
    && before.entries.Keys <= snapshot.content.entries.Keys
    && (snapshot.listing.Some? ==>
          && TextBack(before, snapshot.content, INTRO, snapshot.listing.value.intro)
          && TextBack(before, snapshot.content, BOTTOM, snapshot.listing.value.bottom))
  }

  lemma TextOverlay(before: map<string, string>, entries: map<string, string>, key: string, text: string, other: string)
    requires key != other
    ensures var r := WithText(before, entries, key, text);
            && r.Keys == entries.Keys + {key}
            && (other in entries <==> other in r) && (other in entries ==> r[other] == entries[other])
            && (r == entries <==> key in entries && (key in before && before[key] == entries[key] ==> text == entries[key]))
  {}

  /** Exactly when a restore saves the very entries of the snapshot. */
  lemma SavedEntries(before: Content, snapshot: Config)
    ensures RestoredContent(before, snapshot).entries == snapshot.content.entries
            <==> (snapshot.listing.Some? ==>
                    && TextBack(before, snapshot.content, INTRO, snapshot.listing.value.intro)
                    && TextBack(before, snapshot.content, BOTTOM, snapshot.listing.value.bottom))
    ensures RestoredContent(before, snapshot).entries.Keys
            == snapshot.content.entries.Keys + if snapshot.listing.Some? then {"settings.intro_content", "settings.bottom_content"} else {}
  {
    if snapshot.listing.Some? {
      var row, entries := snapshot.listing.value, snapshot.content.entries;
      assert |INTRO| != |BOTTOM|;
      TextOverlay(before.entries, entries, INTRO, row.intro, BOTTOM);
      var once := WithText(before.entries, entries, INTRO, row.intro);
      TextOverlay(before.entries, once, BOTTOM, row.bottom, INTRO);
      if RestoredContent(before, snapshot).entries == entries {
        assert INTRO in entries && once[INTRO] == entries[INTRO];
      }
    }
  }

  /** And exactly when the overlay over the current entries leaves those of the snapshot. */
  lemma OverlaidEntries(before: Content, snapshot: Config)
    ensures before.entries + RestoredContent(before, snapshot).entries == snapshot.content.entries
            <==> EntriesBack(before, snapshot)
  {
    var saved := RestoredContent(before, snapshot).entries;
    SavedEntries(before, snapshot);
    OverlayAll(before.entries, saved);
    if before.entries + saved == snapshot.content.entries {
      assert (before.entries + saved).Keys == before.entries.Keys + saved.Keys;
      assert saved.Keys == snapshot.content.entries.Keys;
      forall k | k in saved ensures saved[k] == snapshot.content.entries[k] {
        assert (before.entries + saved)[k] == saved[k];
      }
    }
  }

  /**
   A successful restore raises the revision by one and brings the listing row back.  It keeps the
   path exactly when there was one or the inventory has none to fill in.  The columns come back
   exactly when the listing row's FAQs, which overwrite the configuration's, are the same; the
   overlaid entries exactly when nothing was added to them since and no listing text replaces one.
   */
  lemma RestoreBringsBack(s: Store, key: ConfigKey, r: Request, columns: set<string>)
    requires GoodPaths(s) && SameColumns(s, columns) && FAQS in columns && RestoreError(s, key, r).None?
    ensures var before, after, snapshot := s.configs[key], Restore(s, key, r).configs[key], s.log[r.version].config;
            && after.revision == before.revision + 1
            && after.listing == (if snapshot.listing.Some? then snapshot.listing else before.listing)
            && (after.path == before.path <==> before.path.Some? || !HasSlug(r.inventory))
            && (after.content.columns == snapshot.content.columns <==> ColumnsBack(snapshot))
            && (after.content.entries == snapshot.content.entries <==> EntriesBack(before.content, snapshot))
  {
    var before, snapshot := s.configs[key].content, s.log[r.version].config;
    RestoredPath(s, key, r);
    OverlaidEntries(before, snapshot);
    var saved := RestoredContent(before, snapshot).columns;
    OverlayAll(before.columns, saved);
    assert saved.Keys == columns;
  }

  lemma RestoreIsLogged(s: Store, key: ConfigKey, r: Request, columns: set<string>)
    requires Consistent(s) && GoodPaths(s) && SameColumns(s, columns) && FAQS in columns && RestoreError(s, key, r).None?
    ensures var t := Restore(s, key, r);
            && t.log == s.log + [Version(key, s.configs[key])]
            && Consistent(t) && GoodPaths(t) && SameColumns(t, columns)
  {
    var body := RestoreBody(s, key, s.log[r.version].config, r);
    SaveExtends(s, key, body, r.valid, r.inventory);
    SaveKeepsPaths(s, key, body, r.valid, r.inventory);
    RestoreKeepsColumns(s, key, r, columns);
  }

  lemma RestoreKeepsColumns(s: Store, key: ConfigKey, r: Request, columns: set<string>)
    requires SameColumns(s, columns) && FAQS in columns && RestoreError(s, key, r).None?
    ensures SameColumns(Restore(s, key, r), columns)
    ensures Restore(s, key, r).log == s.log + [Version(key, s.configs[key])]
  {
    var t, saved := Restore(s, key, r), RestoredContent(s.configs[key].content, s.log[r.version].config);
    assert saved.columns.Keys == columns;
    assert t.configs[key].content.columns.Keys == columns;
    forall i | 0 <= i < |t.log| ensures t.log[i].config.content.columns.Keys == columns {
      assert t.log[i] == if i < |s.log| then s.log[i] else Version(key, s.configs[key]);
    }
  }

  /** The request that undoes a restore: the version it logged, from the revision it made. */
  function Undo(s: Store, r: Request): Request {
    Request(|s.log|, r.revision + 1, r.autoRedirect, true, r.inventory)
  }

  lemma UndoIsAccepted(s: Store, key: ConfigKey, r: Request)
    requires GoodPaths(s) && GoodPaths(Restore(s, key, r)) && RestoreError(s, key, r).None?
    ensures var t := Restore(s, key, r);
            RestoreError(t, key, Undo(s, r)).None? <==> s.configs[key].listing.None? || t.configs[key].path.Some?
  {
    var t, undo := Restore(s, key, r), Undo(s, r);
    RestoredPath(s, key, r);
    var path := t.configs[key].path;
    assert t.log[|s.log|] == Version(key, s.configs[key]);
    if path.Some? {
      assert PathValue(path.value) == Ok(path.value);
      assert !Occupied(s, key, path.value);
      assert !Occupied(t, key, path.value);
    }
  }

  /**
   A restore can itself be undone: it logs the state it replaces, and restoring that version is
   refused only for a listing page without a path.  The undo brings back columns and entries
   exactly when the replaced state's own listing row agrees with them and the restore had added no
   entry, and the path exactly when the restore had kept it.
   */
  lemma RestoreUndone(s: Store, key: ConfigKey, r: Request, columns: set<string>)
    requires Consistent(s) && GoodPaths(s) && SameColumns(s, columns) && FAQS in columns && RestoreError(s, key, r).None?
    ensures var t, before := Restore(s, key, r), s.configs[key];
            && t.log == s.log + [Version(key, before)]
            && (RestoreError(t, key, Undo(s, r)).None? <==> before.listing.None? || t.configs[key].path.Some?)
            && (RestoreError(t, key, Undo(s, r)).None? ==>
                  var u := Restore(t, key, Undo(s, r)).configs[key];
                  && (u.path == before.path <==> before.path.Some? || !HasSlug(r.inventory))
                  && (before.listing.Some? ==> u.listing == before.listing)
                  && (u.content.columns == before.content.columns <==> ColumnsBack(before))
                  && (u.content.entries == before.content.entries <==> EntriesBack(t.configs[key].content, before)))
  {
    var t := Restore(s, key, r);
    RestoreIsLogged(s, key, r, columns);
    UndoIsAccepted(s, key, r);
    if RestoreError(t, key, Undo(s, r)).None? {
      RestoredPath(s, key, r);
      RestoredPath(t, key, Undo(s, r));
      RestoreBringsBack(t, key, Undo(s, r), columns);
    }
  }

  /** The entries that a restore leaves, of which an undo removes none. */
  lemma RestoreAddsEntries(s: Store, key: ConfigKey, r: Request)
    requires RestoreError(s, key, r).None?
    ensures var snapshot := s.log[r.version].config;
            Restore(s, key, r).configs[key].content.entries.Keys
            == s.configs[key].content.entries.Keys + snapshot.content.entries.Keys
               + if snapshot.listing.Some? then {"settings.intro_content", "settings.bottom_content"} else {}
  {
    var before, snapshot := s.configs[key].content, s.log[r.version].config;
    SavedEntries(before, snapshot);
    var saved := RestoredContent(before, snapshot).entries;
    assert (before.entries + saved).Keys == before.entries.Keys + saved.Keys;
  }

  /**
   A listing page with FAQs [A] and locality FAQs [B] is edited and then restored: its own FAQs
   are [B] afterwards, and [A] is lost.
   */
  lemma RestoreLosesFaqs(key: ConfigKey, path: Path, inventory: Inventory)
    requires PathValue(path) == Ok(path) && inventory == NoInventory
    ensures var row := Listing("rule", "[B]", "null", "null");
            var content := Content(map["faqs" := "[A]"], map[INTRO := "null", BOTTOM := "null"]);
            var saved := Config(1, Some(path), content, Some(row));
            var s := Store(map[key := saved], [], map[]);
            var edit := Body(1, Keep, Content(map["faqs" := "[C]"], map[]), true, None);
            var t := Saved(s, key, edit, true, inventory);
            var r := Request(0, 2, true, true, inventory);
            && SaveError(s, key, edit, true, inventory).None? && RestoreError(t, key, r).None?
            && t.log[0].config.content.columns["faqs"] == "[A]"
            && Restore(t, key, r).configs[key].content.columns["faqs"] == "[B]"
  {}

  /**
   A restore that has to fill the path in fails when that path is taken: a property without a
   configured path whose own path another configuration claims cannot be restored at all.
   */
  lemma FilledPathCollides(s: Store, key: ConfigKey, r: Request)
    requires r.version < |s.log| && s.log[r.version].key == key && key in s.configs
    requires r.revision == s.configs[key].revision && r.valid
    requires s.configs[key].path.None? && HasSlug(r.inventory) && PathValue("/" + r.inventory.slug.value).Ok?
    ensures RestoreError(s, key, r) == Some(PathTaken)
            <==> s.log[r.version].config.listing.None?
                 && Occupied(s, key, PathValue("/" + r.inventory.slug.value).value)
  {}

  // ----- Renames -----

  /** The redirect that a rename leaves behind is never refused, and is what the redirect manager would write. */
  lemma RenameRedirectAccepted(s: Store, key: ConfigKey, body: Body, inventory: Inventory)
    requires WriteError(s, key, body, inventory).None? && Renames(s, key, body, inventory)
    ensures var previous := PathValue(PreviousPath(s, key, inventory).value).value;
            Written(s, key, body, inventory).redirects
            == Next(s.redirects, Redirects.Op.Rename(previous, body.path.path, "slug_change", true))
  {
    RenameNeverLoops(s.redirects, PathValue(PreviousPath(s, key, inventory).value).value, body.path.path);
  }

  /** So saving and restoring configurations never makes a redirect loop. */
  lemma SaveKeepsAcyclic(s: Store, key: ConfigKey, body: Body, valid: bool, inventory: Inventory)
    requires Acyclic(Edges(s.redirects))
    ensures Acyclic(Edges(Saved(s, key, body, valid, inventory).redirects))
  {
    if SaveError(s, key, body, valid, inventory).None? {
      WrittenKeepsAcyclic(s, key, Resolved(s, key, body, valid, inventory), inventory);
    }
  }

  lemma WrittenKeepsAcyclic(s: Store, key: ConfigKey, body: Body, inventory: Inventory)
    requires Acyclic(Edges(s.redirects)) && WriteError(s, key, body, inventory).None?
    ensures Acyclic(Edges(Written(s, key, body, inventory).redirects))
  {
    if Renames(s, key, body, inventory) {
      var previous := PathValue(PreviousPath(s, key, inventory).value).value;
      RenameRedirectAccepted(s, key, body, inventory);
      StepKeepsAcyclic(s.redirects, Redirects.Op.Rename(previous, body.path.path, "slug_change", true));
    }
  }

  lemma {:induction false} RunKeepsPaths(s: Store, ops: seq<Op>)
    requires GoodPaths(s)
    ensures GoodPaths(Run(s, ops))
    decreases |ops|
  {
    if ops != [] {
      StepKeepsPaths(s, ops[0]);
      RunKeepsPaths(Step(s, ops[0]), ops[1..]);
    }
  }

  lemma StepKeepsPaths(s: Store, op: Op)
    requires GoodPaths(s)
    ensures GoodPaths(Step(s, op))
  {
    match op
    case SaveOp(key, body, valid, inventory) => SaveKeepsPaths(s, key, body, valid, inventory);
    case RestoreOp(key, r) =>
      if RestoreError(s, key, r).None? {
        SaveKeepsPaths(s, key, RestoreBody(s, key, s.log[r.version].config, r), r.valid, r.inventory);
      }
    case RedirectsChange(rows) =>
  }

  lemma SaveKeepsPaths(s: Store, key: ConfigKey, body: Body, valid: bool, inventory: Inventory)
    requires GoodPaths(s)
    ensures GoodPaths(Saved(s, key, body, valid, inventory))
  {
    if SaveError(s, key, body, valid, inventory).None? {
      var edit := Resolve(s, key, body.path, inventory).value;
      if edit.Set? {
        ResolvedIsNormal(s, key, body.path, inventory);
        assert !Occupied(s, key, edit.path);
      }
    }
  }

  lemma ResolvedIsNormal(s: Store, key: ConfigKey, edit: PathEdit, inventory: Inventory)
    requires Resolve(s, key, edit, inventory).Ok? && Resolve(s, key, edit, inventory).value.Set?
    ensures var path := Resolve(s, key, edit, inventory).value.path; PathValue(path) == Ok(path)
  {
    var given := if edit == Set("") then Clear else edit;
    PathValueStable(if given.Set? then given.path else "/" + inventory.slug.value, Resolve(s, key, edit, inventory).value.path);
  }

  /**
   After a successful save with a path, given or filled in, that path is the configuration's and is
   not redirected; if it was a rename, visitors of the former path arrive there in one hop.
   */
  lemma SavedPathIsReached(s: Store, key: ConfigKey, body: Body, valid: bool, inventory: Inventory)
    requires SaveError(s, key, body, valid, inventory).None? && Resolved(s, key, body, valid, inventory).path.Set?
    ensures var t := Saved(s, key, body, valid, inventory); var written := Resolved(s, key, body, valid, inventory);
            && t.configs[key].path == Some(written.path.path)
            && written.path.path !in Edges(t.redirects)
            && (Renames(s, key, written, inventory) ==>
                  var previous := PathValue(PreviousPath(s, key, inventory).value).value;
                  Hop(Edges(t.redirects), previous, 1) == Some(written.path.path))
  {
    var t, written := Saved(s, key, body, valid, inventory), Resolved(s, key, body, valid, inventory);
    assert !Occupied(s, key, written.path.path);
    if Renames(s, key, written, inventory) {
      var previous := PathValue(PreviousPath(s, key, inventory).value).value;
      assert Edges(t.redirects)[previous] == written.path.path;
      assert Hop(Edges(t.redirects), written.path.path, 0) == Some(written.path.path);
    }
  }

  // ----- The service -----

  class SeoEngineService {
    var configs: map<ConfigKey, Config>
    var log: seq<Version>
    const table: RedirectTable

    constructor (table: RedirectTable)
      ensures this.table == table && configs == map[] && log == []
    {
      this.table := table;
      configs, log := map[], [];
    }

    function State(): Store
      reads this, table
    {
      Store(configs, log, table.rows)
    }

    method PersistConfig(key: ConfigKey, body: Body, valid: bool, inventory: Inventory)
      returns (error: Option<ConfigError>)
      modifies this, table
      ensures error == SaveError(old(State()), key, body, valid, inventory)
      ensures State() == Saved(old(State()), key, body, valid, inventory)
    {
      error := SaveError(State(), key, body, valid, inventory);
      if error.Some? {
        return;
      }
      if Resolved(State(), key, body, valid, inventory).path.Set? {
        ResolvedIsNormal(State(), key, body.path, inventory);
      }
      Write(key, Resolved(State(), key, body, valid, inventory), inventory);
    }

    /** Log, row and redirect of a save whose path is resolved. */
    method Write(key: ConfigKey, body: Body, inventory: Inventory)
      requires WriteError(State(), key, body, inventory).None?
      requires body.path.Set? ==> PathValue(body.path.path) == Ok(body.path.path)
      modifies this, table
      ensures State() == Written(old(State()), key, body, inventory)
    {
      var before := State();
      if key in configs {
        log := log + [Version(key, configs[key])];
      }
      configs := configs[key := Edited(before, key, body)];
      if Renames(before, key, body, inventory) {
        var previous := PreviousPath(before, key, inventory).value;
        RenameNeverLoops(table.rows, PathValue(previous).value, body.path.path);
        AcceptedIff(previous, PathValue(previous).value);
        AcceptedIff(body.path.path, body.path.path);
        var saved := table.PersistRedirect(previous, body.path.path, Some("slug_change"), true, true);
      }
    }

    method RestoreVersion(key: ConfigKey, r: Request) returns (error: Option<ConfigError>)
      modifies this, table
      ensures error == RestoreError(old(State()), key, r)
      ensures error == Some(NoSuchVersion) <==> r.version >= |old(log)| || old(log)[r.version].key != key
      ensures error == Some(Removed) <==> error != Some(NoSuchVersion) && key !in old(configs)
      ensures error !in {Some(NoSuchVersion), Some(Removed)} ==>
                (error == Some(Stale) <==> old(configs)[key].revision != r.revision)
      ensures error !in {Some(NoSuchVersion), Some(Removed), Some(Stale)} ==>
                var row, current := old(log)[r.version].config.listing, old(configs)[key];
                && (error == Some(NoListing) <==> row.Some? && current.listing.None?)
                && (error == Some(NeedsUrl) <==> row.Some? && current.listing.Some? && current.path.None?)
      ensures State() == Restore(old(State()), key, r)
    {
      if r.version >= |log| || log[r.version].key != key {
        return Some(NoSuchVersion);
      }
      if key !in configs {
        return Some(Removed);
      }
      if r.revision != configs[key].revision {
        return Some(Stale);
      }
      error := ListingError(configs[key], log[r.version].config);
      if error.Some? {
        return;
      }
      error := PersistConfig(key, RestoreBody(State(), key, log[r.version].config, r), r.valid, r.inventory);
    }
  }
}
